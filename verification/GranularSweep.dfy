/** The sweepers of granular backups
    (services/backup-daemon/docker/granular/backups.py, filesystem branch). */
module GranularSweep {
  import opened Sequences
  import opened Eviction

  datatype Status = Successful | InProgress | Planned | Failed | OtherStatus

  /** The "expires" field: the word "never", a number, or something that cannot
      be compared with a number. */
  datatype Expiry = Never | At(seconds: int) | Incomparable

  datatype Entry =
    | NoStatusFile
    | Recorded(status: Status, expires: Expiry, timestamp: int)

  /** One namespace directory: backup id to the state of its status file. */
  type Backups = map<string, Entry>

  /** os.listdir: every id once, in no particular order. */
  ghost predicate Lists(listing: seq<string>, ns: Backups) {
    NoDuplicates(listing) && forall id :: id in listing <==> id in ns
  }

  // ------------------------------------------------------------- list filter

  function Select<T>(s: seq<T>, p: T -> bool): seq<T> {
    if s == [] then []
    else
      var n := |s| - 1;
      Select(s[..n], p) + (if p(s[n]) then [s[n]] else [])
  }

  lemma {:induction false} SelectMembers<T(!new)>(s: seq<T>, p: T -> bool)
    ensures forall x :: x in Select(s, p) <==> x in s && p(x)
  {
    if s != [] {
      var n := |s| - 1;
      SelectMembers(s[..n], p);
      assert s == s[..n] + [s[n]];
    }
  }

  lemma {:induction false} SelectNoDuplicates<T(!new)>(s: seq<T>, p: T -> bool)
    requires NoDuplicates(s)
    ensures NoDuplicates(Select(s, p))
  {
    if s != [] {
      var n := |s| - 1;
      SelectNoDuplicates(s[..n], p);
      SelectMembers(s[..n], p);
      assert s[n] !in s[..n];
    }
  }

  /** A stricter filter that drops nothing more selects the same elements. */
  lemma {:induction false} SelectEqualLength<T(!new)>(s: seq<T>, strict: T -> bool, loose: T -> bool)
    requires forall x :: x in s && strict(x) ==> loose(x)
    ensures |Select(s, strict)| <= |Select(s, loose)|
    ensures |Select(s, strict)| == |Select(s, loose)| ==> forall x :: x in s && loose(x) ==> strict(x)
  {
    if s != [] {
      var n := |s| - 1;
      assert s == s[..n] + [s[n]];
      SelectEqualLength(s[..n], strict, loose);
    }
  }

  // ------------------------------------------------------------ keep periods

  predicate Expired(e: Entry, now: int) {
    e.Recorded? && e.expires.At? && e.expires.seconds < now
  }

  /** A successful backup that is counted as healthy: "never" ones are skipped. */
  predicate Countable(e: Entry) {
    e.Recorded? && e.status.Successful? && !e.expires.Never?
  }

  /** Comparing "expires" with the clock raises. */
  predicate Uncomparable(e: Entry) {
    e.Recorded? && (e.expires.Incomparable? || (e.expires.Never? && !e.status.Successful?))
  }

  function IsCountable(ns: Backups): string -> bool {
    id => id in ns && Countable(ns[id])
  }

  function IsExpiredHealthy(ns: Backups, now: int): string -> bool {
    id => id in ns && Countable(ns[id]) && Expired(ns[id], now)
  }

  function IsFailedExpired(ns: Backups, now: int): string -> bool {
    id => id in ns && (ns[id].NoStatusFile? || (!ns[id].status.Successful? && Expired(ns[id], now)))
  }

  function Timestamp(ns: Backups): string -> int {
    id => if id in ns && ns[id].Recorded? then ns[id].timestamp else 0
  }

  ghost predicate Raises(listing: seq<string>, ns: Backups) {
    exists id :: id in listing && id in ns && Uncomparable(ns[id])
  }

  /** The successful backups that go: all expired ones, except that the
      freshest stays when no other healthy backup would be left. */
  function ExpiredVictims(listing: seq<string>, ns: Backups, now: int): seq<string> {
    var expired := Select(listing, IsExpiredHealthy(ns, now));
    if expired != [] && |expired| == |Select(listing, IsCountable(ns))|
    then StableSort(expired, Timestamp(ns))[..|expired| - 1]
    else expired
  }

  function Victims(listing: seq<string>, ns: Backups, now: int): seq<string> {
    Select(listing, IsFailedExpired(ns, now)) + ExpiredVictims(listing, ns, now)
  }

  function Removed(ns: Backups, victims: seq<string>): Backups {
    map id | id in ns && id !in victims :: ns[id]
  }

  /** What one sweep leaves when the clock reads `now` and the sweep is cut
      short after `done` of its deletions. */
  ghost function AfterSweep(ns: Backups, listing: seq<string>, now: int, done: nat): Backups {
    if Raises(listing, ns) then ns
    else
      var victims := Victims(listing, ns, now);
      Removed(ns, if done <= |victims| then victims[..done] else victims)
  }

  lemma SelectSnoc<T(!new)>(s: seq<T>, i: nat, p: T -> bool)
    requires i < |s|
    ensures Select(s[..i + 1], p) == Select(s[..i], p) + (if p(s[i]) then [s[i]] else [])
  {
    assert s[..i + 1][..i] == s[..i];
  }

  /** The classification loop of sweep_by_keep: the lists it grows and the
      number of healthy backups it counts. */
  method ClassifyForKeep(listing: seq<string>, ns: Backups, now: int)
    returns (raised: bool, failed: seq<string>, expired: seq<string>, healthy: nat)
    requires forall id :: id in listing ==> id in ns
    ensures raised <==> Raises(listing, ns)
    ensures !raised ==> expired == Select(listing, IsExpiredHealthy(ns, now))
    ensures !raised ==> failed == Select(listing, IsFailedExpired(ns, now))
    ensures !raised ==> healthy == |Select(listing, IsCountable(ns))|
  {
    expired, failed, healthy, raised := [], [], 0, false;
    var i := 0;
    while i < |listing|
      invariant 0 <= i <= |listing|
      invariant forall k :: 0 <= k < i ==> !Uncomparable(ns[listing[k]])
      invariant expired == Select(listing[..i], IsExpiredHealthy(ns, now))
      invariant failed == Select(listing[..i], IsFailedExpired(ns, now))
      invariant healthy == |Select(listing[..i], IsCountable(ns))|
    {
      var id := listing[i];
      SelectSnoc(listing, i, IsExpiredHealthy(ns, now));
      SelectSnoc(listing, i, IsFailedExpired(ns, now));
      SelectSnoc(listing, i, IsCountable(ns));
      var e := ns[id];
      if e.NoStatusFile? {
        failed := failed + [id];
      } else if !(e.status.Successful? && e.expires.Never?) {
        if e.status.Successful? {
          healthy := healthy + 1;
        }
        if !e.expires.At? {
          assert id in listing && Uncomparable(ns[id]);
          raised := true;
          return;
        }
        if e.expires.seconds < now {
          if e.status.Successful? {
            expired := expired + [id];
          } else {
            failed := failed + [id];
          }
        }
      }
      i := i + 1;
    }
    assert listing[..i] == listing;
  }

  class Namespace {
    var backups: Backups

    /** rmtree of each victim in turn, the first `deletions` of which succeed. */
    method Delete(victims: seq<string>, deletions: nat)
      modifies this
      ensures backups == Removed(old(backups), if deletions <= |victims| then victims[..deletions] else victims)
    {
      var k := 0;
      while k < |victims| && k < deletions
        invariant 0 <= k <= |victims| && k <= deletions
        invariant backups == Removed(old(backups), victims[..k])
      {
        assert victims[..k + 1] == victims[..k] + [victims[k]];
        backups := backups - {victims[k]};
        k := k + 1;
      }
      assert victims[..|victims|] == victims;
    }

    /** sweep_by_keep for one namespace. `deletions` bounds the rmtree calls
        that succeed before one raises. */
    method SweepByKeep(listing: seq<string>, now: int, deletions: nat)
      requires Lists(listing, backups)
      modifies this
      ensures backups == AfterSweep(old(backups), listing, now, deletions)
    {
      var raised, failed, expired, healthy := ClassifyForKeep(listing, backups, now);
      if raised {
        return;
      }
      if expired != [] && |expired| == healthy {
        expired := StableSort(expired, Timestamp(backups));
        expired := expired[..|expired| - 1];
      }
      Delete(failed + expired, deletions);
    }
  }

  // ------------------------------------------------- safety over whole runs

  ghost predicate SuccessfulAt(ns: Backups, id: string) {
    id in ns && ns[id].Recorded? && ns[id].status.Successful?
  }

  ghost predicate HasSuccessful(ns: Backups) {
    exists id :: SuccessfulAt(ns, id)
  }

  lemma VictimsExpired(ns: Backups, listing: seq<string>, now: int, id: string)
    requires id in Victims(listing, ns, now)
    ensures id in ns && (ns[id].NoStatusFile? || Expired(ns[id], now))
    ensures SuccessfulAt(ns, id) ==> id in ExpiredVictims(listing, ns, now)
  {
    SelectMembers(listing, IsFailedExpired(ns, now));
    SelectMembers(listing, IsExpiredHealthy(ns, now));
    var expired := Select(listing, IsExpiredHealthy(ns, now));
    SortPermutes(expired, Timestamp(ns));
    SameMembers(StableSort(expired, Timestamp(ns)), expired, id);
  }

  /** A sweep gives up only backups that expired or lack a status file (so
      never a successful one that expires "never"), and alters no other. */
  lemma OnlyExpiredGo(ns: Backups, listing: seq<string>, now: int, done: nat, id: string)
    requires id in ns
    ensures var after := AfterSweep(ns, listing, now, done);
            if id in after then after[id] == ns[id] else ns[id].NoStatusFile? || Expired(ns[id], now)
  {
    if id in Victims(listing, ns, now) {
      VictimsExpired(ns, listing, now, id);
    }
  }

  /** All countable backups expired: one of them stays, and it is the freshest. */
  lemma FreshestStays(ns: Backups, listing: seq<string>, now: int, done: nat) returns (saved: string)
    requires Lists(listing, ns)
    requires exists id :: id in ns && Countable(ns[id])
    requires forall id :: id in ns && Countable(ns[id]) ==> Expired(ns[id], now)
    ensures saved in ns && saved in AfterSweep(ns, listing, now, done) && Countable(ns[saved])
    ensures forall id :: id in ns && Countable(ns[id]) ==> ns[id].timestamp <= ns[saved].timestamp
  {
    var expired, ts := Select(listing, IsExpiredHealthy(ns, now)), Timestamp(ns);
    SelectMembers(listing, IsExpiredHealthy(ns, now));
    SelectNoDuplicates(listing, IsExpiredHealthy(ns, now));
    SelectSame(listing, IsExpiredHealthy(ns, now), IsCountable(ns));
    var id :| id in ns && Countable(ns[id]);
    assert id in expired;
    var n := Newest(expired, ts);
    saved := expired[n];
    assert saved in expired;
    assert saved !in ExpiredVictims(listing, ns, now) by {
      SortedButLast(expired, ts, saved);
      WithoutIs(expired, n, saved);
    }
    SavedIsFreshest(ns, expired, n);
    if saved in Victims(listing, ns, now) {
      VictimsExpired(ns, listing, now, saved);
    }
  }

  lemma SavedIsFreshest(ns: Backups, expired: seq<string>, n: nat)
    requires expired != [] && n == Newest(expired, Timestamp(ns))
    requires forall id :: id in expired <==> id in ns && Countable(ns[id])
    ensures expired[n] in ns && Countable(ns[expired[n]])
    ensures forall id :: id in ns && Countable(ns[id]) ==> ns[id].timestamp <= ns[expired[n]].timestamp
  {
    assert expired[n] in expired;
    forall id | id in ns && Countable(ns[id])
      ensures ns[id].timestamp <= ns[expired[n]].timestamp
    {
      assert id in expired;
      var i: nat :| i < |expired| && expired[i] == id;
      if i != n {
        NewestIsNewer(expired, Timestamp(ns), i);
      }
    }
  }

  lemma {:induction false} SelectSame<T(!new)>(s: seq<T>, p: T -> bool, q: T -> bool)
    requires forall x :: x in s ==> p(x) == q(x)
    ensures Select(s, p) == Select(s, q)
  {
    if s != [] {
      var n := |s| - 1;
      assert s == s[..n] + [s[n]];
      SelectSame(s[..n], p, q);
    }
  }

  /** Every countable backup has expired, so the freshest must be spared. */
  ghost predicate NoHealthyLeft(ns: Backups, now: int) {
    forall id :: id in ns && Countable(ns[id]) ==> Expired(ns[id], now)
  }

  /** The one spared: the last listed of the newest countable backups. */
  ghost predicate Spared(listing: seq<string>, ns: Backups, now: int, id: string) {
    && NoHealthyLeft(ns, now)
    && Select(listing, IsCountable(ns)) != []
    && id == Select(listing, IsCountable(ns))[Newest(Select(listing, IsCountable(ns)), Timestamp(ns))]
  }

  /** An undisturbed sweep leaves exactly the recorded backups that have not
      expired, plus the one that is spared. */
  lemma SweepExactly(ns: Backups, listing: seq<string>, now: int, done: nat, id: string)
    requires Lists(listing, ns) && !Raises(listing, ns) && done >= |Victims(listing, ns, now)| && id in ns
    ensures id in AfterSweep(ns, listing, now, done) <==>
            (ns[id].Recorded? && !Expired(ns[id], now)) || Spared(listing, ns, now, id)
  {
    var victims, expired, countable :=
      Victims(listing, ns, now), Select(listing, IsExpiredHealthy(ns, now)), Select(listing, IsCountable(ns));
    SelectMembers(listing, IsFailedExpired(ns, now));
    SelectMembers(listing, IsExpiredHealthy(ns, now));
    SelectMembers(listing, IsCountable(ns));
    SelectEqualLength(listing, IsExpiredHealthy(ns, now), IsCountable(ns));
    if NoHealthyLeft(ns, now) {
      SelectSame(listing, IsExpiredHealthy(ns, now), IsCountable(ns));
      if countable != [] {
        SparedOrGone(listing, ns, now, id);
      }
    } else {
      var other :| other in ns && Countable(ns[other]) && !Expired(ns[other], now);
      assert other in listing && |expired| != |countable|;
    }
    assert id in AfterSweep(ns, listing, now, done) <==> id !in victims;
  }

  lemma SparedOrGone(listing: seq<string>, ns: Backups, now: int, id: string)
    requires Lists(listing, ns) && NoHealthyLeft(ns, now)
    requires Select(listing, IsCountable(ns)) == Select(listing, IsExpiredHealthy(ns, now)) != []
    ensures id in ExpiredVictims(listing, ns, now) <==>
            id in Select(listing, IsCountable(ns)) && !Spared(listing, ns, now, id)
  {
    var countable := Select(listing, IsCountable(ns));
    SelectNoDuplicates(listing, IsCountable(ns));
    SortedButLast(countable, Timestamp(ns), id);
    WithoutIs(countable, Newest(countable, Timestamp(ns)), id);
  }

  /** One sweep never takes the last successful backup. */
  lemma SweepKeepsSuccessful(ns: Backups, listing: seq<string>, now: int, done: nat)
    requires Lists(listing, ns) && HasSuccessful(ns)
    ensures HasSuccessful(AfterSweep(ns, listing, now, done))
  {
    var id :| SuccessfulAt(ns, id);
    if id !in AfterSweep(ns, listing, now, done) {
      OnlyExpiredGo(ns, listing, now, done, id);
      if other :| other in ns && Countable(ns[other]) && !Expired(ns[other], now) {
        OnlyExpiredGo(ns, listing, now, done, other);
        assert SuccessfulAt(AfterSweep(ns, listing, now, done), other);
      } else {
        assert Countable(ns[id]);
        var saved := FreshestStays(ns, listing, now, done);
        OnlyExpiredGo(ns, listing, now, done, saved);
        assert SuccessfulAt(AfterSweep(ns, listing, now, done), saved);
      }
    } else {
      OnlyExpiredGo(ns, listing, now, done, id);
      assert SuccessfulAt(AfterSweep(ns, listing, now, done), id);
    }
  }

  // ------------------------------------------------------------ on the fields

  /** One expiry that cannot be compared with the clock and the sweep of the
      namespace deletes nothing. */
  lemma BadExpiryStopsSweep(ns: Backups, listing: seq<string>, now: int, done: nat, bad: string)
    requires Lists(listing, ns) && bad in ns && ns[bad].Recorded?
    requires ns[bad].expires == Incomparable || (ns[bad].expires == Never && ns[bad].status != Successful)
    ensures AfterSweep(ns, listing, now, done) == ns
  {
    assert bad in listing;
  }

  /** All expiries can be compared with the clock. */
  ghost predicate Comparable(ns: Backups) {
    forall id :: id in ns && ns[id].Recorded? ==> ns[id].expires.At? || (ns[id].expires == Never && ns[id].status == Successful)
  }

  /** A successful backup with a numeric expiry. */
  ghost predicate Dated(ns: Backups, id: string) {
    id in ns && ns[id].Recorded? && ns[id].status == Successful && ns[id].expires.At?
  }

  /** An undisturbed sweep, on the fields: a backup without a status file goes; one
      that expires "never", now or later stays; an expired one that did not
      succeed goes. An expired successful one stays exactly if all dated ones are
      expired and it is the one spared, which no dated one outdates; backups that
      expire "never" do not count. */
  lemma SweepOnFields(ns: Backups, listing: seq<string>, now: int, done: nat, id: string)
    requires Lists(listing, ns) && Comparable(ns) && done >= |Victims(listing, ns, now)| && id in ns
    ensures var after := AfterSweep(ns, listing, now, done);
      match ns[id]
      case NoStatusFile => id !in after
      case Recorded(_, Never, _) => id in after
      case Recorded(status, At(x), timestamp) =>
        && (x >= now ==> id in after)
        && (x < now && status != Successful ==> id !in after)
        && (x < now && status == Successful && id in after ==>
              forall other :: Dated(ns, other) ==> ns[other].expires.seconds < now && ns[other].timestamp <= timestamp)
      case Recorded(_, Incomparable, _) => true
  {
    hide AfterSweep, Select, StableSort, Newest, Victims;
    assert !Raises(listing, ns);
    SweepExactly(ns, listing, now, done, id);
    if Spared(listing, ns, now, id) {
      var countable := Select(listing, IsCountable(ns));
      SelectMembers(listing, IsCountable(ns));
      SavedIsFreshest(ns, countable, Newest(countable, Timestamp(ns)));
    }
  }

  /** When a sweep is cut short, backups without success went first: if a successful
      one is gone, so are all that lack a status file or expired unsuccessfully. */
  lemma FailedGoFirst(ns: Backups, listing: seq<string>, now: int, done: nat, id: string, bad: string)
    requires Lists(listing, ns) && SuccessfulAt(ns, id) && id !in AfterSweep(ns, listing, now, done)
    requires bad in ns
    requires match ns[bad] case NoStatusFile => true case Recorded(status, expires, _) => status != Successful && expires.At? && expires.seconds < now
    ensures bad !in AfterSweep(ns, listing, now, done)
  {
    hide StableSort, Select;
    var first, victims := Select(listing, IsFailedExpired(ns, now)), Victims(listing, ns, now);
    SelectMembers(listing, IsFailedExpired(ns, now));
    assert bad in first && id !in first;
    var n := if done <= |victims| then done else |victims|;
    assert victims[..n][..|first|] == first;
  }

  /** And exactly one dated backup is left when all of them are expired. */
  lemma ExactlyOneSpared(ns: Backups, listing: seq<string>, now: int, done: nat) returns (saved: string)
    requires Lists(listing, ns) && Comparable(ns) && done >= |Victims(listing, ns, now)|
    requires exists id :: Dated(ns, id)
    requires forall id :: Dated(ns, id) ==> ns[id].expires.seconds < now
    ensures forall id :: Dated(ns, id) ==> (id in AfterSweep(ns, listing, now, done) <==> id == saved)
    ensures Dated(ns, saved)
  {
    hide AfterSweep, Select, StableSort, Newest, Victims;
    assert !Raises(listing, ns);
    var id :| Dated(ns, id);
    assert Countable(ns[id]);
    saved := FreshestStays(ns, listing, now, done);
    forall other | Dated(ns, other)
      ensures other in AfterSweep(ns, listing, now, done) <==> other == saved
    {
      SweepExactly(ns, listing, now, done, other);
      SweepExactly(ns, listing, now, done, saved);
    }
  }

  /** Between sweeps, backups may appear or change, but a successful backup is
      not overwritten. */
  datatype Event =
    | Sweep(listing: seq<string>, now: int, done: nat)
    | Write(id: string, entry: Entry)

  ghost function Step(ns: Backups, e: Event): Backups {
    match e
    case Sweep(listing, now, done) => AfterSweep(ns, listing, now, done)
    case Write(id, entry) => ns[id := entry]
  }

  ghost predicate Possible(ns: Backups, e: Event) {
    match e
    case Sweep(listing, _, _) => Lists(listing, ns)
    case Write(id, entry) => !SuccessfulAt(ns, id)
  }

  ghost predicate PossibleRun(ns: Backups, events: seq<Event>)
    decreases events
  {
    events == [] || (Possible(ns, events[0]) && PossibleRun(Step(ns, events[0]), events[1..]))
  }

  ghost function Run(ns: Backups, events: seq<Event>): Backups
    decreases events
  {
    if events == [] then ns else Run(Step(ns, events[0]), events[1..])
  }

  /** Over any run of sweeps, at any clock values and however often they are
      cut short, a namespace with a successful backup always has one, and
      successful "never" backups stay untouched. */
  lemma {:induction false} RunKeepsSuccessful(ns: Backups, events: seq<Event>)
    requires PossibleRun(ns, events)
    ensures HasSuccessful(ns) ==> HasSuccessful(Run(ns, events))
    ensures forall id :: SuccessfulAt(ns, id) && ns[id].expires.Never? ==> id in Run(ns, events) && Run(ns, events)[id] == ns[id]
    decreases events
  {
    if events != [] {
      var next := Step(ns, events[0]);
      if HasSuccessful(ns) {
        match events[0] {
          case Sweep(listing, now, done) => SweepKeepsSuccessful(ns, listing, now, done);
          case Write(id, entry) =>
            var s :| SuccessfulAt(ns, s);
            assert SuccessfulAt(next, s);
        }
      }
      forall id | SuccessfulAt(ns, id) && ns[id].expires.Never?
        ensures id in next && next[id] == ns[id]
      {
        if events[0].Sweep? {
          OnlyExpiredGo(ns, events[0].listing, events[0].now, events[0].done, id);
        }
      }
      RunKeepsSuccessful(next, events[1..]);
    }
  }
}
