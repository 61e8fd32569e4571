/** sweep_by_policy of services/backup-daemon/docker/granular/backups.py
    (filesystem branch): eviction rules applied to one namespace. */
module PolicySweep {
  import opened Eviction
  import opened EvictionLaws
  import opened EvictionBoundaries
  import opened GranularSweep

  predicate Unfinished(e: Entry) {
    e.NoStatusFile? || !(e.status.Successful? || e.status.InProgress?)
  }

  function IsUnfinished(ns: Backups): string -> bool {
    id => id in ns && Unfinished(ns[id])
  }

  /** The backups the rules look at: successful or in progress, not "never". */
  function IsConsidered(ns: Backups): string -> bool {
    id => id in ns && !Unfinished(ns[id]) && !ns[id].expires.Never?
  }

  /** Creation dates are whole seconds and the sweeper's cutoff is strict, so a
      rule covers what eviction covers one second earlier. */
  ghost predicate Outlived(ns: Backups, listing: seq<string>, rules: seq<Rule>, now: int, created: string -> int, id: string) {
    EvictedBy(Select(listing, IsConsidered(ns)), rules, now - 1, created, id)
  }

  ghost predicate Stays(ns: Backups, listing: seq<string>, rules: seq<Rule>, now: int, created: string -> int, id: string) {
    id in ns && !Unfinished(ns[id]) && !Outlived(ns, listing, rules, now, created, id)
  }

  lemma OutlivedIsListed(ns: Backups, listing: seq<string>, rules: seq<Rule>, now: int, created: string -> int, id: string)
    requires Outlived(ns, listing, rules, now, created, id)
    ensures id in ns && !Unfinished(ns[id])
  {
    var considered := Select(listing, IsConsidered(ns));
    SelectMembers(listing, IsConsidered(ns));
    var rule :| rule in rules && RuleApplies(considered, rule, now - 1, created, id);
  }

  /** rmtree of each victim in turn, until one raises. */
  method RemoveInTurn(dir: Namespace, victims: seq<string>, rmtreeRaises: string -> bool) returns (n: nat)
    modifies dir
    ensures n <= |victims| && dir.backups == Removed(old(dir.backups), victims[..n])
    ensures forall i :: 0 <= i < n ==> !rmtreeRaises(victims[i])
    ensures n < |victims| ==> rmtreeRaises(victims[n])
  {
    n := 0;
    while n < |victims| && !rmtreeRaises(victims[n])
      invariant n <= |victims| && dir.backups == Removed(old(dir.backups), victims[..n])
      invariant forall i :: 0 <= i < n ==> !rmtreeRaises(victims[i])
    {
      assert victims[..n + 1] == victims[..n] + [victims[n]];
      dir.backups := dir.backups - {victims[n]};
      n := n + 1;
    }
  }

  /** No zero interval is met and no backup that has to go resists. */
  ghost predicate GoesThrough(
    ns: Backups, listing: seq<string>, rules: seq<Rule>, now: int, created: string -> int, rmtreeRaises: string -> bool)
  {
    && !Divides0(Select(listing, IsConsidered(ns)), rules, now - 1, created)
    && forall id :: id in ns && !Stays(ns, listing, rules, now, created, id) ==> !rmtreeRaises(id)
  }

  /** The classification of the filesystem branch. */
  method ClassifyForPolicy(listing: seq<string>, ns: Backups) returns (success: seq<string>, failed: seq<string>)
    requires Lists(listing, ns)
    ensures success == Select(listing, IsConsidered(ns)) && failed == Select(listing, IsUnfinished(ns))
  {
    success, failed := [], [];
    var i := 0;
    while i < |listing|
      invariant 0 <= i <= |listing|
      invariant success == Select(listing[..i], IsConsidered(ns))
      invariant failed == Select(listing[..i], IsUnfinished(ns))
    {
      var id := listing[i];
      assert id in listing;
      SelectSnoc(listing, i, IsConsidered(ns));
      SelectSnoc(listing, i, IsUnfinished(ns));
      var e := ns[id];
      if e.NoStatusFile? {
        failed := failed + [id];
      } else if e.status.Successful? || e.status.InProgress? {
        if !e.expires.Never? {
          success := success + [id];
        }
      } else {
        failed := failed + [id];
      }
      i := i + 1;
    }
    assert listing[..i] == listing;
  }

  /** The victims are exactly the backups that do not stay. */
  lemma GoingThrough(
    ns: Backups, listing: seq<string>, rules: seq<Rule>, now: int, created: string -> int, rmtreeRaises: string -> bool,
    outlived: seq<string>, unfinished: seq<string>)
    requires forall id :: id in outlived <==> Outlived(ns, listing, rules, now, created, id)
    requires forall id :: id in unfinished <==> id in ns && Unfinished(ns[id])
    ensures forall id :: id in outlived ==> id in ns && !Unfinished(ns[id])
    ensures forall id :: id in ns ==> (id in outlived || id in unfinished <==> !Stays(ns, listing, rules, now, created, id))
    ensures (forall id :: id in ns && !Stays(ns, listing, rules, now, created, id) ==> !rmtreeRaises(id)) <==>
            (forall i :: 0 <= i < |outlived| ==> !rmtreeRaises(outlived[i])) &&
            (forall i :: 0 <= i < |unfinished| ==> !rmtreeRaises(unfinished[i]))
  {
    hide Unfinished, Outlived;
    forall i | 0 <= i < |outlived|
      ensures outlived[i] in ns && !Unfinished(ns[outlived[i]]) && !Stays(ns, listing, rules, now, created, outlived[i])
    {
      OutlivedIsListed(ns, listing, rules, now, created, outlived[i]);
    }
    forall i | 0 <= i < |unfinished|
      ensures unfinished[i] in ns && !Stays(ns, listing, rules, now, created, unfinished[i])
    {
      assert unfinished[i] in unfinished;
    }
  }

  method SweepByPolicy(
    dir: Namespace, listing: seq<string>, rules: seq<Rule>, now: int, created: string -> int, rmtreeRaises: string -> bool)
    returns (raised: bool)
    requires Lists(listing, dir.backups)
    modifies dir
    ensures raised <==> !GoesThrough(old(dir.backups), listing, rules, now, created, rmtreeRaises)
    ensures !raised ==> forall id :: id in dir.backups <==> Stays(old(dir.backups), listing, rules, now, created, id)
    ensures !raised ==> (HasSuccessful(dir.backups) <==> SuccessfulStays(old(dir.backups), listing, rules, now, created))
    // what stays is never touched, and what is left is as it was
    ensures forall id :: Stays(old(dir.backups), listing, rules, now, created, id) ==> id in dir.backups
    ensures forall id :: id in dir.backups ==> id in old(dir.backups) && dir.backups[id] == old(dir.backups)[id]
    ensures Divides0(Select(listing, IsConsidered(old(dir.backups))), rules, now - 1, created) ==> dir.backups == old(dir.backups)
    // unfinished backups go after the outlived ones
    ensures (exists id :: id in old(dir.backups) && Unfinished(old(dir.backups)[id]) && id !in dir.backups) ==>
      forall id :: Outlived(old(dir.backups), listing, rules, now, created, id) ==> id !in dir.backups
  {
    hide EvictedBy, Divides0, Select;
    ghost var ns := dir.backups;
    var success, failed := ClassifyForPolicy(listing, dir.backups);
    var evicted := Evict(success, rules, now - 1, created);
    if evicted.ZeroDivision? {
      return true;
    }
    SelectMembers(listing, IsUnfinished(ns));
    GoingThrough(ns, listing, rules, now, created, rmtreeRaises, evicted.items, failed);
    assert evicted.items[..|evicted.items|] == evicted.items && failed[..|failed|] == failed;
    var gone := RemoveInTurn(dir, evicted.items, rmtreeRaises);
    if gone < |evicted.items| {
      return true;
    }
    gone := RemoveInTurn(dir, failed, rmtreeRaises);
    assert gone == |failed| ==>
      forall id :: SuccessfulAt(dir.backups, id) <==> SuccessfulAt(ns, id) && Stays(ns, listing, rules, now, created, id);
    return gone < |failed|;
  }

  /** Whatever the order of the listing, if all intervals divide one large
      interval, the newest considered backup of each large bucket stays. */
  lemma NewestStays(ns: Backups, listing: seq<string>, rules: seq<Rule>, now: int, created: string -> int, large: nat, p: nat)
    requires Lists(listing, ns) && IntervalsDivide(rules, large)
    requires p < |Select(listing, IsConsidered(ns))|
    requires NewestOfBucket(Select(listing, IsConsidered(ns)), created, large, p)
    ensures Stays(ns, listing, rules, now, created, Select(listing, IsConsidered(ns))[p])
  {
    var considered := Select(listing, IsConsidered(ns));
    SelectNoDuplicates(listing, IsConsidered(ns));
    SelectMembers(listing, IsConsidered(ns));
    NewestSurvives(considered, rules, now - 1, created, large, p);
    assert considered[p] in considered;
  }

  /** A successful or running backup that expires "never" stays under any policy. */
  lemma NeverStays(ns: Backups, listing: seq<string>, rules: seq<Rule>, now: int, created: string -> int, id: string)
    requires id in ns && !Unfinished(ns[id]) && ns[id].expires.Never?
    ensures Stays(ns, listing, rules, now, created, id)
  {
    SelectMembers(listing, IsConsidered(ns));
    var considered := Select(listing, IsConsidered(ns));
    assert id !in considered;
    forall rule | rule in rules
      ensures !RuleApplies(considered, rule, now - 1, created, id)
    {
      var ops := Covered(considered, now - 1 - rule.start, created);
      assert id !in ops;
    }
  }

  // ------------------------------------- does a successful backup stay?

  /** The backups the rules look at, in listing order. */
  ghost function Considered(ns: Backups, listing: seq<string>): seq<string> {
    Select(listing, IsConsidered(ns))
  }

  ghost predicate SuccessfulStays(ns: Backups, listing: seq<string>, rules: seq<Rule>, now: int, created: string -> int) {
    exists id :: SuccessfulAt(ns, id) && Stays(ns, listing, rules, now, created, id)
  }

  /** Some successful backup expires "never". */
  ghost predicate HasNever(ns: Backups) {
    exists id :: SuccessfulAt(ns, id) && ns[id].expires.Never?
  }

  /** A successful backup that no rule finds outdated by true buckets. */
  ghost predicate StillDue(ns: Backups, listing: seq<string>, rules: seq<Rule>, now: int, created: string -> int, p: nat) {
    var considered := Considered(ns, listing);
    p < |considered| && SuccessfulAt(ns, considered[p]) && !ShouldGo(considered, rules, now - 1, created, p)
  }

  /** For a considered backup of a time-sorted listing, staying is not being
      outdated. */
  lemma StaysIff(ns: Backups, listing: seq<string>, rules: seq<Rule>, now: int, created: string -> int, p: nat)
    requires Lists(listing, ns) && TimeSorted(Considered(ns, listing), created) && p < |Considered(ns, listing)|
    ensures Stays(ns, listing, rules, now, created, Considered(ns, listing)[p]) <==>
            !ShouldGo(Considered(ns, listing), rules, now - 1, created, p)
  {
    hide ShouldGo, EvictedBy, TimeSorted;
    var considered := Considered(ns, listing);
    SelectNoDuplicates(listing, IsConsidered(ns));
    SelectMembers(listing, IsConsidered(ns));
    EvictionMatchesSpec(considered, rules, now - 1, created, p);
    assert considered[p] in considered;
  }

  /** On a time-sorted listing a successful backup stays exactly if one expires
      "never", or some rule-bound one is not outdated: no "delete" rule covers it
      and no rule covers it together with a newer one, running or successful, of
      the same bucket. */
  lemma SuccessfulStaysIff(ns: Backups, listing: seq<string>, rules: seq<Rule>, now: int, created: string -> int)
    requires Lists(listing, ns) && TimeSorted(Considered(ns, listing), created)
    ensures SuccessfulStays(ns, listing, rules, now, created) <==>
            HasNever(ns) || exists p: nat :: StillDue(ns, listing, rules, now, created, p)
  {
    hide ShouldGo, EvictedBy, TimeSorted, Stays;
    var considered := Considered(ns, listing);
    if SuccessfulStays(ns, listing, rules, now, created) {
      var id :| SuccessfulAt(ns, id) && Stays(ns, listing, rules, now, created, id);
      if !ns[id].expires.Never? {
        SelectMembers(listing, IsConsidered(ns));
        var p: nat :| p < |considered| && considered[p] == id;
        StaysIff(ns, listing, rules, now, created, p);
        assert StillDue(ns, listing, rules, now, created, p);
      }
    }
    if p: nat :| StillDue(ns, listing, rules, now, created, p) {
      StaysIff(ns, listing, rules, now, created, p);
    }
    if id :| SuccessfulAt(ns, id) && ns[id].expires.Never? {
      NeverStays(ns, listing, rules, now, created, id);
    }
  }

  /** In any listing order: one large bucket whose newest considered backup is
      successful is enough. */
  lemma SuccessfulNewestSuffices(ns: Backups, listing: seq<string>, rules: seq<Rule>, now: int, created: string -> int, large: nat, p: nat)
    requires Lists(listing, ns) && IntervalsDivide(rules, large) && p < |Considered(ns, listing)|
    requires NewestOfBucket(Considered(ns, listing), created, large, p) && SuccessfulAt(ns, Considered(ns, listing)[p])
    ensures SuccessfulStays(ns, listing, rules, now, created)
  {
    hide NewestOfBucket, Stays, IntervalsDivide;
    NewestStays(ns, listing, rules, now, created, large, p);
  }

  /** What stays, on the fields and in plain numbers, for a time-sorted listing:
      backups that are successful or running, and that expire "never" or are given
      up by no rule. A rule looks at backups made strictly before its cutoff. */
  lemma StaysInNumbers(ns: Backups, listing: seq<string>, rules: seq<Rule>, now: int, created: string -> int, id: string)
    requires Lists(listing, ns) && TimeSorted(Considered(ns, listing), created)
    ensures forall x :: x in Considered(ns, listing) <==>
              x in ns && ns[x].Recorded? && (ns[x].status == Successful || ns[x].status == InProgress) && ns[x].expires != Never
    ensures Stays(ns, listing, rules, now, created, id) <==>
              && id in ns && ns[id].Recorded? && (ns[id].status == Successful || ns[id].status == InProgress)
              && forall p: nat, rule :: p < |Considered(ns, listing)| && Considered(ns, listing)[p] == id && rule in rules ==>
                   !GivesUp(Considered(ns, listing), rule, now - 1, created, p)
  {
    hide GivesUp, EvictedBy, TimeSorted, ShouldGo;
    var considered := Considered(ns, listing);
    SelectMembers(listing, IsConsidered(ns));
    SelectNoDuplicates(listing, IsConsidered(ns));
    if id in considered {
      var p: nat :| p < |considered| && considered[p] == id;
      EvictionInNumbers(considered, rules, now - 1, created, p);
    } else if id in ns && ns[id].Recorded? && (ns[id].status == Successful || ns[id].status == InProgress) {
      NeverStays(ns, listing, rules, now, created, id);
    }
  }

  /** A "delete" rule of age d, in any listing order: a finished or running backup
      that does not expire "never" stays exactly if it was made at now - d or
      later. */
  lemma DeleteRuleInNumbers(ns: Backups, listing: seq<string>, d: nat, now: int, created: string -> int, id: string)
    requires Lists(listing, ns) && id in ns && ns[id].Recorded? && ns[id].expires != Never
    requires ns[id].status == Successful || ns[id].status == InProgress
    ensures Stays(ns, listing, [Rule(d, Delete)], now, created, id) <==> created(id) >= now - d
  {
    SelectMembers(listing, IsConsidered(ns));
    var rule := Rule(d, Delete);
    assert rule in [rule];
    assert RuleApplies(Select(listing, IsConsidered(ns)), rule, now - 1, created, id) <==> created(id) <= now - 1 - d;
  }

  function CreatedByName(id: string): int {
    THURSDAY + |id|
  }

  const TWO: Backups := map["a" := Recorded(Successful, At(0), 0), "ab" := Recorded(InProgress, At(0), 0)]

  lemma TwoConsidered()
    ensures Lists(["a", "ab"], TWO) && HasSuccessful(TWO)
    ensures Select(["a", "ab"], IsConsidered(TWO)) == ["a", "ab"]
  {
    var listing := ["a", "ab"];
    assert SuccessfulAt(TWO, "a") && listing[0] != listing[1];
    assert listing[..1] == ["a"] && listing[..1][..0] == [];
    assert Select(listing[..1], IsConsidered(TWO)) == ["a"];
  }

  lemma OlderGoes(listing: seq<string>)
    requires listing == ["a", "ab"]
    ensures EvictedBy(listing, [HOURLY], THURSDAY + 8, CreatedByName, "a")
  {
    OlderOfTwoGoes(listing, HOURLY, THURSDAY + 8, CreatedByName);
    assert HOURLY in [HOURLY];
  }

  /** Unlike the keep sweeper, a policy can remove the last successful backup:
      a newer one that is still running counts as the newest of the bucket. */
  lemma PolicyCanDropLastSuccessful()
    ensures HasSuccessful(TWO) && Lists(["a", "ab"], TWO)
    ensures !SuccessfulStays(TWO, ["a", "ab"], [HOURLY], THURSDAY + 9, CreatedByName)
  {
    TwoConsidered();
    OlderGoes(["a", "ab"]);
  }
}
