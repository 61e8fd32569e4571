/** What an eviction policy guarantees, for all lists of backups. */
module EvictionLaws {
  import opened Sequences
  import opened Eviction

  // ---------------------------------------- the newest of a bucket survives

  /** Interval rules only, each interval dividing one common large interval. */
  predicate IntervalsDivide(rules: seq<Rule>, large: nat) {
    large > 0 && forall rule :: rule in rules ==>
      rule.interval.Every? && rule.interval.seconds > 0 && large % rule.interval.seconds == 0
  }

  ghost predicate NewestOfBucket<T(!new)>(items: seq<T>, time: T -> int, large: nat, p: nat)
    requires large > 0 && p < |items|
  {
    forall q: nat :: q < |items| && q != p && Bucket(time(items[q]), large) == Bucket(time(items[p]), large) ==>
      Newer(items, time, p, q)
  }

  /** Listed in any order, the newest backup of every large bucket survives:
      no interval rule of the policy gives it up, and nothing is divided by 0. */
  lemma NewestSurvives<T(!new)>(items: seq<T>, rules: seq<Rule>, now: int, time: T -> int, large: nat, p: nat)
    requires NoDuplicates(items) && IntervalsDivide(rules, large)
    requires p < |items| && NewestOfBucket(items, time, large, p)
    ensures !Divides0(items, rules, now, time)
    ensures !EvictedBy(items, rules, now, time, items[p])
  {
    forall rule | rule in rules
      ensures !RuleApplies(items, rule, now, time, items[p])
    {
      var cutoff, small := now - rule.start, rule.interval.seconds;
      forall a: nat, b: nat | a < |Covered(items, cutoff, time)| && b < |Covered(items, cutoff, time)|
        ensures var ops := Covered(items, cutoff, time);
                ops[a] == items[p] && SameRun(ops, time, small, a, b) ==> !Newer(ops, time, b, a)
      {
        if Covered(items, cutoff, time)[a] == items[p] && SameRun(Covered(items, cutoff, time), time, small, a, b) {
          NotOutlived(items, cutoff, time, small, large, p, a, b);
        }
      }
    }
  }

  lemma NotOutlived<T(!new)>(items: seq<T>, cutoff: int, time: T -> int, small: nat, large: nat, p: nat, a: nat, b: nat)
    requires NoDuplicates(items) && small > 0 && large > 0 && large % small == 0
    requires p < |items| && NewestOfBucket(items, time, large, p)
    requires a < |Covered(items, cutoff, time)| && b < |Covered(items, cutoff, time)|
    requires Covered(items, cutoff, time)[a] == items[p]
    requires SameRun(Covered(items, cutoff, time), time, small, a, b)
    ensures !Newer(Covered(items, cutoff, time), time, b, a)
  {
    var ops, origin := Covered(items, cutoff, time), Origin(items, cutoff, time);
    assert origin[a] == p;
    BucketNested(time(ops[a]), time(ops[b]), small, large);
    if a != b {
      assert Newer(items, time, p, origin[b]);
    }
  }

  /** So every backup is outlasted, within its large bucket, by a survivor at
      least as new. */
  lemma {:induction false} BucketKeepsSurvivor<T(!new)>(
    items: seq<T>, rules: seq<Rule>, now: int, time: T -> int, large: nat, q: nat) returns (p: nat)
    requires NoDuplicates(items) && IntervalsDivide(rules, large) && q < |items|
    ensures p < |items| && Bucket(time(items[p]), large) == Bucket(time(items[q]), large)
    ensures p == q || Newer(items, time, p, q)
    ensures !EvictedBy(items, rules, now, time, items[p])
  {
    p := q;
    ghost var i: nat := 0;
    while i < |items|
      invariant i <= |items| && p < |items|
      invariant Bucket(time(items[p]), large) == Bucket(time(items[q]), large)
      invariant p == q || Newer(items, time, p, q)
      invariant forall k: nat :: k < i && k != p && Bucket(time(items[k]), large) == Bucket(time(items[q]), large) ==>
        Newer(items, time, p, k)
    {
      if Bucket(time(items[i]), large) == Bucket(time(items[q]), large) && Newer(items, time, i, p) {
        p := i;
      }
      i := i + 1;
    }
    NewestSurvives(items, rules, now, time, large, p);
  }

  // ------------------------------------------------------- time-sorted lists

  ghost predicate TimeSorted<T(!new)>(items: seq<T>, time: T -> int) {
    Ascending(items, time) || Descending(items, time)
  }

  ghost predicate Covers<T(!new)>(items: seq<T>, rule: Rule, now: int, time: T -> int, p: nat)
    requires p < |items|
  {
    time(items[p]) <= now - rule.start
  }

  ghost predicate Outlives<T(!new)>(items: seq<T>, rule: Rule, now: int, time: T -> int, q: nat, p: nat)
    requires q < |items| && p < |items| && rule.interval.Every? && rule.interval.seconds > 0
  {
    && Covers(items, rule, now, time, q)
    && Newer(items, time, q, p)
    && Bucket(time(items[q]), rule.interval.seconds) == Bucket(time(items[p]), rule.interval.seconds)
  }

  /** The rule covers both p and a newer item of the same true bucket. */
  ghost predicate Outdated<T(!new)>(items: seq<T>, rule: Rule, now: int, time: T -> int, p: nat)
    requires p < |items|
  {
    && Covers(items, rule, now, time, p)
    && (rule.interval.Delete? ||
        (rule.interval.seconds > 0 && (exists q: nat :: q < |items| && Outlives(items, rule, now, time, q, p))))
  }

  /** The declarative policy: some rule finds the item outdated. */
  ghost predicate ShouldGo<T(!new)>(items: seq<T>, rules: seq<Rule>, now: int, time: T -> int, p: nat)
    requires p < |items|
  {
    exists rule :: rule in rules && Outdated(items, rule, now, time, p)
  }

  /** In a time-sorted list equal buckets are contiguous, so the runs that
      groupby sees are the true buckets. */
  lemma SortedRuns<T(!new)>(s: seq<T>, time: T -> int, interval: nat, i: nat, j: nat)
    requires TimeSorted(s, time) && interval > 0 && i < |s| && j < |s|
    requires Bucket(time(s[i]), interval) == Bucket(time(s[j]), interval)
    ensures SameRun(s, time, interval, i, j)
  {
    forall k | i <= k <= j || j <= k <= i
      ensures Bucket(time(s[k]), interval) == Bucket(time(s[i]), interval)
    {
      if time(s[i]) <= time(s[k]) <= time(s[j]) {
        BucketMonotone(time(s[i]), time(s[k]), interval);
        BucketMonotone(time(s[k]), time(s[j]), interval);
      } else {
        BucketMonotone(time(s[k]), time(s[i]), interval);
        BucketMonotone(time(s[j]), time(s[k]), interval);
      }
    }
  }

  lemma CoveredSorted<T(!new)>(items: seq<T>, cutoff: int, time: T -> int)
    requires TimeSorted(items, time)
    ensures TimeSorted(Covered(items, cutoff, time), time)
  {
    var ops, origin := Covered(items, cutoff, time), Origin(items, cutoff, time);
    assert forall a :: 0 <= a < |ops| ==> ops[a] == items[origin[a]];
  }

  /** A newer item of the same true bucket supersedes p in its run ... */
  lemma BucketToRun<T(!new)>(items: seq<T>, rule: Rule, now: int, time: T -> int, q: nat, p: nat)
    requires TimeSorted(items, time) && p < |items| && q < |items|
    requires rule.interval.Every? && rule.interval.seconds > 0
    requires Covers(items, rule, now, time, p) && Outlives(items, rule, now, time, q, p)
    ensures RuleApplies(items, rule, now, time, items[p])
  {
    hide Bucket, Covered, Origin;
    var cutoff, interval := now - rule.start, rule.interval.seconds;
    var ops, origin := Covered(items, cutoff, time), Origin(items, cutoff, time);
    var a := OriginHits(items, cutoff, time, p);
    var b := OriginHits(items, cutoff, time, q);
    assert SameRun(ops, time, interval, a, b) by {
      CoveredSorted(items, cutoff, time);
      SortedRuns(ops, time, interval, a, b);
    }
    assert Newer(ops, time, b, a);
  }

  /** ... and whatever supersedes p in its run is newer and of its bucket. */
  lemma RunToBucket<T(!new)>(items: seq<T>, rule: Rule, now: int, time: T -> int, p: nat) returns (q: nat)
    requires NoDuplicates(items) && p < |items|
    requires rule.interval.Every? && RuleApplies(items, rule, now, time, items[p])
    ensures rule.interval.seconds > 0 && Covers(items, rule, now, time, p)
    ensures q < |items| && Outlives(items, rule, now, time, q, p)
  {
    hide Bucket, Covered, Origin;
    var cutoff, interval := now - rule.start, rule.interval.seconds;
    var ops, origin := Covered(items, cutoff, time), Origin(items, cutoff, time);
    var a: nat :| a < |ops| && ops[a] == items[p] && Superseded(ops, time, interval, a);
    var b: nat :| b < |ops| && SameRun(ops, time, interval, a, b) && Newer(ops, time, b, a);
    assert ops[a] in ops && ops[b] in ops;
    q := origin[b];
    assert origin[a] == p;
  }

  /** For one rule: eviction by runs is eviction by true buckets. */
  lemma RuleMatchesSpec<T(!new)>(items: seq<T>, rule: Rule, now: int, time: T -> int, p: nat)
    requires NoDuplicates(items) && TimeSorted(items, time) && p < |items|
    ensures RuleApplies(items, rule, now, time, items[p]) <==> Outdated(items, rule, now, time, p)
  {
    if rule.interval.Every? {
      if Outdated(items, rule, now, time, p) {
        var q: nat :| q < |items| && Outlives(items, rule, now, time, q, p);
        BucketToRun(items, rule, now, time, q, p);
      }
      if RuleApplies(items, rule, now, time, items[p]) {
        var q := RunToBucket(items, rule, now, time, p);
      }
    }
  }

  /** On time-sorted backups the groupby-based eviction is exactly the
      declarative policy. */
  lemma EvictionMatchesSpec<T(!new)>(items: seq<T>, rules: seq<Rule>, now: int, time: T -> int, p: nat)
    requires NoDuplicates(items) && TimeSorted(items, time) && p < |items|
    ensures EvictedBy(items, rules, now, time, items[p]) <==> ShouldGo(items, rules, now, time, p)
  {
    forall rule | rule in rules
      ensures RuleApplies(items, rule, now, time, items[p]) <==> Outdated(items, rule, now, time, p)
    {
      RuleMatchesSpec(items, rule, now, time, p);
    }
  }

  // ------------------------------------------------------------- idempotence

  /** The first n items without the given ones, in their old order. */
  ghost function Kept<T(!new)>(all: seq<T>, n: nat, gone: iset<T>): seq<T>
    requires n <= |all|
  {
    if n == 0 then []
    else if all[n - 1] in gone then Kept(all, n - 1, gone) else Kept(all, n - 1, gone) + [all[n - 1]]
  }

  /** `kept` sits inside `all`, in order, at positions below n. */
  ghost predicate Embedded<T(!new)>(kept: seq<T>, pos: seq<nat>, all: seq<T>, n: nat)
    requires n <= |all|
  {
    && |pos| == |kept|
    && (forall a :: 0 <= a < |pos| ==> pos[a] < n && all[pos[a]] == kept[a])
    && (forall a, b :: 0 <= a < b < |pos| ==> pos[a] < pos[b])
  }

  lemma EmbeddedSnoc<T(!new)>(kept: seq<T>, pos: seq<nat>, all: seq<T>, n: nat)
    requires n < |all| && Embedded(kept, pos, all, n)
    ensures Embedded(kept, pos, all, n + 1) && Embedded(kept + [all[n]], pos + [n], all, n + 1)
  {
  }

  lemma {:induction false} KeptPositions<T(!new)>(all: seq<T>, n: nat, gone: iset<T>) returns (pos: seq<nat>)
    requires n <= |all|
    ensures Embedded(Kept(all, n, gone), pos, all, n)
    ensures forall x :: x in Kept(all, n, gone) ==> x !in gone
    ensures forall m :: 0 <= m < n && all[m] !in gone ==> m in pos
  {
    hide Embedded;
    if n == 0 {
      pos := [];
      EmbeddedNone(all);
    } else {
      pos := KeptPositions(all, n - 1, gone);
      EmbeddedSnoc(Kept(all, n - 1, gone), pos, all, n - 1);
      if all[n - 1] !in gone {
        pos := pos + [n - 1];
      }
    }
  }

  lemma EmbeddedNone<T(!new)>(all: seq<T>)
    ensures Embedded([], [], all, 0)
  {
  }

  /** What is left of the list after eviction. */
  ghost function Survivors<T(!new)>(items: seq<T>, rules: seq<Rule>, now: int, time: T -> int): seq<T> {
    Kept(items, |items|, iset x | EvictedBy(items, rules, now, time, x))
  }

  // ----------------------------------------------------- the newest of a run

  /** The newest item of the run of k is superseded by nothing. */
  lemma NewestOfRun<T(!new)>(ops: seq<T>, time: T -> int, interval: nat, k: nat) returns (p: nat)
    requires interval > 0 && k < |ops|
    ensures p < |ops| && SameRun(ops, time, interval, k, p) && !Superseded(ops, time, interval, p)
  {
    hide Bucket;
    p := k;
    ghost var i: nat := 0;
    while i < |ops|
      invariant i <= |ops| && p < |ops| && SameRun(ops, time, interval, k, p)
      invariant forall j: nat :: j < i && j != p && SameRun(ops, time, interval, k, j) ==> Newer(ops, time, p, j)
    {
      if SameRun(ops, time, interval, k, i) && Newer(ops, time, i, p) {
        p := i;
      }
      i := i + 1;
    }
    forall j: nat | j < |ops| && SameRun(ops, time, interval, p, j)
      ensures SameRun(ops, time, interval, k, j)
    {
      RunsChain(ops, time, interval, k, p, j);
    }
  }

  lemma RunsChain<T(!new)>(s: seq<T>, time: T -> int, interval: nat, i: nat, j: nat, k: nat)
    requires interval > 0 && i < |s| && j < |s| && k < |s|
    requires SameRun(s, time, interval, i, j) && SameRun(s, time, interval, j, k)
    ensures SameRun(s, time, interval, i, k)
  {
    hide Bucket;
    assert Bucket(time(s[j]), interval) == Bucket(time(s[i]), interval);
  }

  /** Between two unsuperseded positions of one bucket lies an unsuperseded one of
      another bucket. */
  lemma UnsupersededBetween<T(!new)>(ops: seq<T>, time: T -> int, interval: nat, u: nat, v: nat) returns (n: nat)
    requires interval > 0 && u < v < |ops| && Bucket(time(ops[u]), interval) == Bucket(time(ops[v]), interval)
    requires !Superseded(ops, time, interval, u) && !Superseded(ops, time, interval, v)
    ensures u < n < v && !Superseded(ops, time, interval, n)
    ensures Bucket(time(ops[n]), interval) != Bucket(time(ops[u]), interval)
  {
    hide Bucket, Superseded;
    if k :| u < k < v && Bucket(time(ops[k]), interval) != Bucket(time(ops[u]), interval) {
      n := NewestOfRun(ops, time, interval, k);
    } else {
      OneOfTwo(ops, time, interval, u, v);
    }
  }

  /** Of two positions of one run one is superseded. */
  lemma OneOfTwo<T(!new)>(ops: seq<T>, time: T -> int, interval: nat, u: nat, v: nat)
    requires interval > 0 && u < v < |ops|
    requires forall k :: u <= k <= v ==> Bucket(time(ops[k]), interval) == Bucket(time(ops[u]), interval)
    ensures Superseded(ops, time, interval, u) || Superseded(ops, time, interval, v)
  {
    hide Bucket;
    assert SameRun(ops, time, interval, u, v) && SameRun(ops, time, interval, v, u);
    assert Newer(ops, time, u, v) || Newer(ops, time, v, u);
  }

  // -------------------------------------------------------- the second pass

  /** Position k holds a survivor that the rule covers. */
  ghost predicate StillCovered<T(!new)>(items: seq<T>, rules: seq<Rule>, now: int, time: T -> int, rule: Rule, k: nat)
    requires k < |items|
  {
    time(items[k]) <= now - rule.start && !EvictedBy(items, rules, now, time, items[k])
  }

  /** Two covered survivors of one bucket, and every covered survivor between
      them is of that bucket too: what held their runs apart was evicted. */
  ghost predicate Rejoined<T(!new)>(items: seq<T>, rules: seq<Rule>, now: int, time: T -> int, rule: Rule, p: nat, q: nat) {
    && rule in rules && rule.interval.Every? && rule.interval.seconds > 0 && p < q < |items|
    && StillCovered(items, rules, now, time, rule, p) && StillCovered(items, rules, now, time, rule, q)
    && forall k: nat :: p <= k <= q && StillCovered(items, rules, now, time, rule, k) ==>
         Bucket(time(items[k]), rule.interval.seconds) == Bucket(time(items[p]), rule.interval.seconds)
  }

  /** `s` holds, at positions `pos`, exactly the survivors. */
  ghost predicate Remain<T(!new)>(items: seq<T>, rules: seq<Rule>, now: int, time: T -> int, s: seq<T>, pos: seq<nat>) {
    && Embedded(s, pos, items, |items|)
    && forall m: nat :: m < |items| ==> (!EvictedBy(items, rules, now, time, items[m]) <==> m in pos)
  }

  lemma StillCoveredTime<T(!new)>(items: seq<T>, rules: seq<Rule>, now: int, time: T -> int, rule: Rule, k: nat)
    requires k < |items| && StillCovered(items, rules, now, time, rule, k)
    ensures time(items[k]) <= now - rule.start && !EvictedBy(items, rules, now, time, items[k])
  {
  }

  lemma CoveredSurvivor<T(!new)>(
    items: seq<T>, rules: seq<Rule>, now: int, time: T -> int, s: seq<T>, pos: seq<nat>, rule: Rule, c: nat)
    requires Remain(items, rules, now, time, s, pos) && c < |Covered(s, now - rule.start, time)|
    ensures var k := pos[Origin(s, now - rule.start, time)[c]];
            k < |items| && items[k] == Covered(s, now - rule.start, time)[c] && StillCovered(items, rules, now, time, rule, k)
  {
    hide Covered, Origin, EvictedBy;
    var left := Covered(s, now - rule.start, time);
    assert left[c] in left;
    assert pos[Origin(s, now - rule.start, time)[c]] in pos;
  }

  /** Rejoined survivors share a run of the second pass ... */
  lemma RejoinedEvicts<T(!new)>(
    items: seq<T>, rules: seq<Rule>, now: int, time: T -> int, s: seq<T>, pos: seq<nat>, rule: Rule, p: nat, q: nat) returns (x: T)
    requires Remain(items, rules, now, time, s, pos) && Rejoined(items, rules, now, time, rule, p, q)
    ensures RuleApplies(s, rule, now, time, x)
  {
    hide Bucket, Covered, Origin, EvictedBy, Superseded, StillCovered;
    StillCoveredTime(items, rules, now, time, rule, p);
    StillCoveredTime(items, rules, now, time, rule, q);
    var cutoff, interval := now - rule.start, rule.interval.seconds;
    var left, origin := Covered(s, cutoff, time), Origin(s, cutoff, time);
    var i: nat :| i < |pos| && pos[i] == p;
    var j: nat :| j < |pos| && pos[j] == q;
    var a := OriginHits(s, cutoff, time, i);
    var b := OriginHits(s, cutoff, time, j);
    assert a < b;
    forall c | a <= c <= b
      ensures Bucket(time(left[c]), interval) == Bucket(time(left[a]), interval)
    {
      CoveredSurvivor(items, rules, now, time, s, pos, rule, c);
      assert origin[a] <= origin[c] <= origin[b];
    }
    OneOfTwo(left, time, interval, a, b);
    x := if Superseded(left, time, interval, a) then left[a] else left[b];
  }

  /** ... and survivors that share such a run are rejoined. */
  lemma EvictsRejoined<T(!new)>(
    items: seq<T>, rules: seq<Rule>, now: int, time: T -> int, s: seq<T>, pos: seq<nat>, rule: Rule, a: nat, b: nat)
    requires Remain(items, rules, now, time, s, pos)
    requires rule in rules && rule.interval.Every? && rule.interval.seconds > 0
    requires a < b < |Covered(s, now - rule.start, time)|
    requires SameRun(Covered(s, now - rule.start, time), time, rule.interval.seconds, a, b)
             || SameRun(Covered(s, now - rule.start, time), time, rule.interval.seconds, b, a)
    ensures var origin := Origin(s, now - rule.start, time);
            Rejoined(items, rules, now, time, rule, pos[origin[a]], pos[origin[b]])
  {
    hide Bucket, Covered, Origin, EvictedBy;
    var cutoff, interval := now - rule.start, rule.interval.seconds;
    var left, origin := Covered(s, cutoff, time), Origin(s, cutoff, time);
    var p, q := pos[origin[a]], pos[origin[b]];
    assert left[a] in left && left[b] in left && p in pos && q in pos && p < q;
    forall k: nat | p <= k <= q && StillCovered(items, rules, now, time, rule, k)
      ensures Bucket(time(items[k]), interval) == Bucket(time(items[p]), interval)
    {
      var i: nat :| i < |pos| && pos[i] == k;
      var c := OriginHits(s, cutoff, time, i);
      assert a <= c <= b;
      assert Bucket(time(left[c]), interval) == Bucket(time(left[a]), interval);
    }
  }

  lemma SurvivorsRemain<T(!new)>(items: seq<T>, rules: seq<Rule>, now: int, time: T -> int) returns (pos: seq<nat>)
    ensures Remain(items, rules, now, time, Survivors(items, rules, now, time), pos)
  {
    hide Kept, EvictedBy;
    pos := KeptPositions(items, |items|, iset x | EvictedBy(items, rules, now, time, x));
    var s := Survivors(items, rules, now, time);
    assert forall a :: 0 <= a < |s| ==> s[a] in s;
  }

  /** Evicting the survivors again, at the same instant, evicts something exactly
      if two survivors were rejoined: for any list in any order and any policy. */
  lemma SecondPassEvictsIff<T(!new)>(items: seq<T>, rules: seq<Rule>, now: int, time: T -> int)
    ensures (exists x :: EvictedBy(Survivors(items, rules, now, time), rules, now, time, x)) <==>
            (exists rule, p: nat, q: nat :: Rejoined(items, rules, now, time, rule, p, q))
  {
    hide Rejoined, Survivors, Remain, RuleApplies;
    var s := Survivors(items, rules, now, time);
    var pos := SurvivorsRemain(items, rules, now, time);
    if rule, p: nat, q: nat :| Rejoined(items, rules, now, time, rule, p, q) {
      var x := RejoinedEvicts(items, rules, now, time, s, pos, rule, p, q);
      RejoinedRule(items, rules, now, time, rule, p, q);
      assert EvictedBy(s, rules, now, time, x);
    }
    if x :| EvictedBy(s, rules, now, time, x) {
      var rule :| rule in rules && RuleApplies(s, rule, now, time, x);
      var p, q := AppliesAgain(items, rules, now, time, s, pos, rule, x);
    }
  }

  lemma RejoinedRule<T(!new)>(items: seq<T>, rules: seq<Rule>, now: int, time: T -> int, rule: Rule, p: nat, q: nat)
    requires Rejoined(items, rules, now, time, rule, p, q)
    ensures rule in rules
  {
  }

  lemma SurvivorsStay<T(!new)>(items: seq<T>, rules: seq<Rule>, now: int, time: T -> int, s: seq<T>, pos: seq<nat>)
    requires Remain(items, rules, now, time, s, pos)
    ensures forall x :: x in s ==> x in items && !EvictedBy(items, rules, now, time, x)
  {
    hide EvictedBy;
    forall i | 0 <= i < |s|
      ensures s[i] in items && !EvictedBy(items, rules, now, time, s[i])
    {
      assert pos[i] in pos && items[pos[i]] == s[i];
    }
  }

  lemma AppliesAgain<T(!new)>(
    items: seq<T>, rules: seq<Rule>, now: int, time: T -> int, s: seq<T>, pos: seq<nat>, rule: Rule, x: T) returns (p: nat, q: nat)
    requires Remain(items, rules, now, time, s, pos) && rule in rules && RuleApplies(s, rule, now, time, x)
    ensures Rejoined(items, rules, now, time, rule, p, q)
  {
    hide Covered, Origin, SameRun, Newer, Rejoined;
    var cutoff := now - rule.start;
    var left, origin := Covered(s, cutoff, time), Origin(s, cutoff, time);
    match rule.interval
    case Delete =>
      SurvivorsStay(items, rules, now, time, s, pos);
    case Every(interval) =>
      var a: nat :| a < |left| && left[a] == x && Superseded(left, time, interval, a);
      var b: nat :| b < |left| && SameRun(left, time, interval, a, b) && Newer(left, time, b, a);
      NotNewerThanItself(left, time, a);
      if a < b {
        EvictsRejoined(items, rules, now, time, s, pos, rule, a, b);
        p, q := pos[origin[a]], pos[origin[b]];
      } else {
        EvictsRejoined(items, rules, now, time, s, pos, rule, b, a);
        p, q := pos[origin[b]], pos[origin[a]];
      }
  }

  lemma NotNewerThanItself<T(!new)>(s: seq<T>, time: T -> int, a: nat)
    requires a < |s|
    ensures !Newer(s, time, a, a)
  {
  }

  /** So a time-sorted list is settled by one pass ... */
  lemma EvictionIsIdempotent<T(!new)>(items: seq<T>, rules: seq<Rule>, now: int, time: T -> int, x: T)
    requires TimeSorted(items, time)
    ensures !EvictedBy(Survivors(items, rules, now, time), rules, now, time, x)
  {
    hide TimeSorted, Survivors, Bucket, EvictedBy, RuleApplies;
    SecondPassEvictsIff(items, rules, now, time);
    forall rule, p: nat, q: nat | Rejoined(items, rules, now, time, rule, p, q)
      ensures false
    {
      if Newer(items, time, q, p) {
        BucketToRun(items, rule, now, time, q, p);
        EvictedByRule(items, rules, now, time, rule, items[p]);
      } else {
        BucketToRun(items, rule, now, time, p, q);
        EvictedByRule(items, rules, now, time, rule, items[q]);
      }
    }
  }

  lemma EvictedByRule<T(!new)>(items: seq<T>, rules: seq<Rule>, now: int, time: T -> int, rule: Rule, x: T)
    requires rule in rules && RuleApplies(items, rule, now, time, x)
    ensures EvictedBy(items, rules, now, time, x)
  {
  }

  /** ... and so is any list of distinct items, in any order, if the policy has
      only one rule. */
  lemma OneRuleIsIdempotent<T(!new)>(items: seq<T>, rule: Rule, now: int, time: T -> int, x: T)
    requires NoDuplicates(items)
    ensures !EvictedBy(Survivors(items, [rule], now, time), [rule], now, time, x)
  {
    hide Survivors, Bucket, Rejoined;
    SecondPassEvictsIff(items, [rule], now, time);
    forall r, p: nat, q: nat | Rejoined(items, [rule], now, time, r, p, q)
      ensures false
    {
      OneRuleKeepsApart(items, rule, now, time, r, p, q);
    }
  }

  lemma OneRuleKeepsApart<T(!new)>(items: seq<T>, rule: Rule, now: int, time: T -> int, r: Rule, p: nat, q: nat)
    requires NoDuplicates(items)
    ensures !Rejoined(items, [rule], now, time, r, p, q)
  {
    hide Bucket, Superseded, Covered, Origin, RuleEvicts, EvictedBy;
    if Rejoined(items, [rule], now, time, r, p, q) {
      assert r == rule;
      var cutoff, interval := now - rule.start, rule.interval.seconds;
      var ops, origin := Covered(items, cutoff, time), Origin(items, cutoff, time);
      var u := OriginHits(items, cutoff, time, p);
      var v := OriginHits(items, cutoff, time, q);
      OneRuleEvicts(items, rule, now, time, u);
      OneRuleEvicts(items, rule, now, time, v);
      assert u < v;
      var n := UnsupersededBetween(ops, time, interval, u, v);
      OneRuleKeeps(items, rule, now, time, n);
    }
  }

  lemma OneRuleKeeps<T(!new)>(items: seq<T>, rule: Rule, now: int, time: T -> int, n: nat)
    requires NoDuplicates(items) && rule.interval.Every? && rule.interval.seconds > 0
    requires n < |Covered(items, now - rule.start, time)|
    requires !Superseded(Covered(items, now - rule.start, time), time, rule.interval.seconds, n)
    ensures StillCovered(items, [rule], now, time, rule, Origin(items, now - rule.start, time)[n])
  {
    hide Superseded, Covered, Origin, EvictedBy;
    var ops := Covered(items, now - rule.start, time);
    OneRuleEvicts(items, rule, now, time, n);
    assert ops[n] in ops;
  }

  /** In a list without repetitions one interval rule evicts what is superseded. */
  lemma OneRuleEvicts<T(!new)>(items: seq<T>, rule: Rule, now: int, time: T -> int, n: nat)
    requires NoDuplicates(items) && rule.interval.Every? && rule.interval.seconds > 0
    requires n < |Covered(items, now - rule.start, time)|
    ensures var ops := Covered(items, now - rule.start, time);
            EvictedBy(items, [rule], now, time, ops[n]) <==> Superseded(ops, time, rule.interval.seconds, n)
  {
    hide Superseded, Covered;
    var ops, origin := Covered(items, now - rule.start, time), Origin(items, now - rule.start, time);
    assert forall a :: 0 <= a < |ops| && ops[a] == ops[n] ==> a == n;
    assert rule in [rule];
  }

  /** With pairwise different times the reported list is strictly descending. */
  lemma StrictlyDescending<T(!new)>(items: seq<T>, rules: seq<Rule>, now: int, time: T -> int, out: seq<T>)
    requires forall i, j :: 0 <= i < j < |items| ==> time(items[i]) != time(items[j])
    requires NoDuplicates(out) && Descending(out, time)
    requires forall x :: x in out ==> EvictedBy(items, rules, now, time, x)
    ensures forall i, j :: 0 <= i < j < |out| ==> time(out[i]) > time(out[j])
  {
    forall i, j | 0 <= i < j < |out|
      ensures time(out[i]) > time(out[j])
    {
      assert out[i] in items && out[j] in items by {
        assert EvictedBy(items, rules, now, time, out[i]) && EvictedBy(items, rules, now, time, out[j]);
      }
    }
  }

  function Identity(t: int): int { t }

  const NOW := THURSDAY + 3700
  const HOURLY := Rule(0, Every(3600))
  const OLD := Rule(3000, Delete)
  const UNSORTED := [THURSDAY + 3610, THURSDAY + 1, THURSDAY + 3611]
  const LEFT := [THURSDAY + 3610, THURSDAY + 3611]

  /** An item whose neighbours lie in other buckets is alone in its run. */
  lemma LonelyRun<T(!new)>(s: seq<T>, time: T -> int, interval: nat, i: nat)
    requires interval > 0 && i < |s|
    requires i > 0 ==> Bucket(time(s[i - 1]), interval) != Bucket(time(s[i]), interval)
    requires i + 1 < |s| ==> Bucket(time(s[i + 1]), interval) != Bucket(time(s[i]), interval)
    ensures !Superseded(s, time, interval, i)
  {
  }

  lemma HourlyKeepsAll(x: int)
    ensures !RuleApplies(UNSORTED, HOURLY, NOW, Identity, x)
  {
    hide Superseded;
    CoveredAll(UNSORTED, NOW, Identity);
    forall i: nat | i < 3
      ensures !Superseded(UNSORTED, Identity, 3600, i)
    {
      LonelyRun(UNSORTED, Identity, 3600, i);
    }
  }

  lemma OldTakesOne(x: int)
    ensures RuleApplies(UNSORTED, OLD, NOW, Identity, x) <==> x == THURSDAY + 1
  {
  }

  lemma FirstPass(x: int)
    ensures EvictedBy(UNSORTED, [HOURLY, OLD], NOW, Identity, x) <==> x == THURSDAY + 1
  {
    hide RuleApplies;
    assert HOURLY in [HOURLY, OLD] && OLD in [HOURLY, OLD];
    HourlyKeepsAll(x);
    OldTakesOne(x);
  }

  lemma OlderOfTwoGoes<T(!new)>(items: seq<T>, rule: Rule, now: int, time: T -> int)
    requires |items| == 2 && time(items[0]) <= time(items[1]) <= now - rule.start
    requires rule.interval.Every? && rule.interval.seconds > 0
    requires Bucket(time(items[0]), rule.interval.seconds) == Bucket(time(items[1]), rule.interval.seconds)
    ensures RuleApplies(items, rule, now, time, items[0])
  {
    hide Bucket, Covered;
    var interval := rule.interval.seconds;
    CoveredAll(items, now - rule.start, time);
    assert SameRun(items, time, interval, 0, 1) && Newer(items, time, 1, 0);
    assert Superseded(items, time, interval, 0);
  }

  lemma SecondPass()
    ensures EvictedBy(LEFT, [HOURLY, OLD], NOW, Identity, THURSDAY + 3610)
  {
    OlderOfTwoGoes(LEFT, HOURLY, NOW, Identity);
    assert HOURLY in [HOURLY, OLD];
  }

  /** On an unsorted list a second pass can evict more: deleting the oldest
      backup makes two runs of one bucket adjacent. */
  lemma UnsortedIsNotIdempotent()
    ensures Survivors(UNSORTED, [HOURLY, OLD], NOW, Identity) == LEFT
    ensures EvictedBy(LEFT, [HOURLY, OLD], NOW, Identity, THURSDAY + 3610)
  {
    hide EvictedBy, Kept;
    FirstPass(THURSDAY + 3610);
    FirstPass(THURSDAY + 1);
    FirstPass(THURSDAY + 3611);
    KeptOfThree(UNSORTED, iset y | EvictedBy(UNSORTED, [HOURLY, OLD], NOW, Identity, y));
    SecondPass();
  }

  lemma KeptOfThree<T(!new)>(items: seq<T>, gone: iset<T>)
    requires |items| == 3 && items[1] in gone && items[0] !in gone && items[2] !in gone
    ensures Kept(items, 3, gone) == [items[0], items[2]]
  {
    assert Kept(items, 1, gone) == [items[0]];
    assert Kept(items, 2, gone) == [items[0]];
  }

  lemma {:induction false} CoveredAll<T(!new)>(items: seq<T>, cutoff: int, time: T -> int)
    requires forall x :: x in items ==> time(x) <= cutoff
    ensures Covered(items, cutoff, time) == items
  {
    if items != [] {
      var n := |items| - 1;
      CoveredAll(items[..n], cutoff, time);
      assert items == items[..n] + [items[n]];
    }
  }
}
