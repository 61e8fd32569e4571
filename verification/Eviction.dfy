/** Rule-driven thinning of timestamped backups
    (services/backup-daemon/docker/postgres/eviction.py).

    Items are arbitrary values with a creation time; a policy is a list of
    parsed rules.  A rule looks at the items that are old enough, walks their
    runs of equal time buckets in list order, and gives up every item of a run
    but the newest one. */
module Eviction {
  import opened Division
  import opened Sequences

  datatype Interval = Delete | Every(seconds: nat)

  datatype Rule = Rule(start: nat, interval: Interval)

  datatype Outcome<T> = Evicted(items: seq<T>) | ZeroDivision

  const THURSDAY: int := 3 * 24 * 60 * 60

  // ---------------------------------------------------------------- buckets

  /** Python's int(x / d): division that truncates toward zero. */
  function TruncDiv(x: int, d: int): int
    requires d > 0
  {
    if x >= 0 then x / d else -((-x) / d)
  }

  function Bucket(t: int, interval: int): int
    requires interval > 0
  {
    TruncDiv(t - THURSDAY, interval)
  }

  lemma TruncMonotone(x: int, y: int, d: int)
    requires d > 0 && x <= y
    ensures TruncDiv(x, d) <= TruncDiv(y, d)
  {
    if x >= 0 {
      DivMonotone(x, y, d);
    } else if y < 0 {
      DivMonotone(-y, -x, d);
    } else {
      DivMonotone(0, y, d);
      DivMonotone(0, -x, d);
    }
  }

  lemma BucketMonotone(s: int, t: int, interval: int)
    requires interval > 0 && s <= t
    ensures Bucket(s, interval) <= Bucket(t, interval)
  {
    TruncMonotone(s - THURSDAY, t - THURSDAY, interval);
  }

  /** Truncation nests: if a small interval divides a large one, a bucket of
      the small interval lies inside one bucket of the large interval. */
  lemma BucketNested(s: int, t: int, small: int, large: int)
    requires small > 0 && large > 0 && large % small == 0
    requires Bucket(s, small) == Bucket(t, small)
    ensures Bucket(s, large) == Bucket(t, large)
  {
    var k := large / small;
    assert k * small == large;
    MulOrder(k, 0, small);
    TruncNested(s - THURSDAY, small, k);
    TruncNested(t - THURSDAY, small, k);
  }

  lemma TruncNested(x: int, d: int, k: int)
    requires d > 0 && k > 0
    ensures k * d > 0
    ensures TruncDiv(x, k * d) == TruncDiv(TruncDiv(x, d), k)
  {
    MulPositive(k, d);
    if x >= 0 {
      DivNested(x, d, k, k * d);
      DivMonotone(0, x, d);
    } else {
      DivNested(-x, d, k, k * d);
      DivMonotone(0, -x, d);
    }
  }

  // ---------------------------------------------------- filtering by cutoff

  /** The items created at or before the cutoff, in list order. */
  function Covered<T(!new)>(items: seq<T>, cutoff: int, time: T -> int): (ops: seq<T>)
    ensures forall x :: x in ops <==> x in items && time(x) <= cutoff
  {
    if items == [] then []
    else
      var n := |items| - 1;
      var rest := Covered(items[..n], cutoff, time);
      assert items == items[..n] + [items[n]];
      if time(items[n]) <= cutoff then rest + [items[n]] else rest
  }

  /** Where each item of Covered came from. */
  ghost function Origin<T(!new)>(items: seq<T>, cutoff: int, time: T -> int): (pos: seq<nat>)
    ensures |pos| == |Covered(items, cutoff, time)|
    ensures forall a :: 0 <= a < |pos| ==> pos[a] < |items| && items[pos[a]] == Covered(items, cutoff, time)[a]
    ensures forall a, b :: 0 <= a < b < |pos| ==> pos[a] < pos[b]
  {
    if items == [] then []
    else
      var n := |items| - 1;
      var rest := Origin(items[..n], cutoff, time);
      if time(items[n]) <= cutoff then rest + [n] else rest
  }

  /** Every covered position of the list is the origin of some filtered one. */
  lemma {:induction false} OriginHits<T(!new)>(items: seq<T>, cutoff: int, time: T -> int, p: nat) returns (a: nat)
    requires p < |items| && time(items[p]) <= cutoff
    ensures a < |Covered(items, cutoff, time)| && Origin(items, cutoff, time)[a] == p
  {
    hide Covered;
    var n := |items| - 1;
    var rest := Origin(items[..n], cutoff, time);
    assert Origin(items, cutoff, time) == if time(items[n]) <= cutoff then rest + [n] else rest;
    if p == n {
      a := |rest|;
    } else {
      a := OriginHits(items[..n], cutoff, time, p);
      assert rest[a] == p;
    }
  }

  // ----------------------------------------------------------- runs and ages

  /** Position j is newer than position i; on equal times the later listed wins. */
  predicate Newer<T(!new)>(s: seq<T>, time: T -> int, j: nat, i: nat)
    requires i < |s| && j < |s|
  {
    time(s[j]) > time(s[i]) || (time(s[j]) == time(s[i]) && j > i)
  }

  /** Positions i and j belong to one run of consecutive equal buckets. */
  ghost predicate SameRun<T(!new)>(s: seq<T>, time: T -> int, interval: int, i: nat, j: nat)
    requires interval > 0 && i < |s| && j < |s|
  {
    && (forall k :: i <= k <= j ==> Bucket(time(s[k]), interval) == Bucket(time(s[i]), interval))
    && (forall k :: j <= k <= i ==> Bucket(time(s[k]), interval) == Bucket(time(s[i]), interval))
  }

  /** Position i shares its run with a newer item. */
  ghost predicate Superseded<T(!new)>(s: seq<T>, time: T -> int, interval: int, i: nat)
    requires interval > 0 && i < |s|
  {
    exists j: nat :: j < |s| && SameRun(s, time, interval, i, j) && Newer(s, time, j, i)
  }

  // -------------------------------------------------------------- stable sort

  function Insert<T(!new)>(x: T, s: seq<T>, time: T -> int): (r: seq<T>)
    ensures |r| == |s| + 1
  {
    if s == [] || time(x) <= time(s[0]) then [x] + s else [s[0]] + Insert(x, s[1..], time)
  }

  /** sorted(s, key=time), which is stable. */
  function StableSort<T(!new)>(s: seq<T>, time: T -> int): (r: seq<T>)
    ensures |r| == |s|
  {
    if s == [] then [] else Insert(s[0], StableSort(s[1..], time), time)
  }

  lemma {:induction false} InsertPermutes<T(!new)>(x: T, s: seq<T>, time: T -> int)
    ensures multiset(Insert(x, s, time)) == multiset(s) + multiset{x}
  {
    if s == [] || time(x) <= time(s[0]) {
    } else {
      assert s == [s[0]] + s[1..];
      InsertPermutes(x, s[1..], time);
    }
  }

  lemma {:induction false} SortPermutes<T(!new)>(s: seq<T>, time: T -> int)
    ensures multiset(StableSort(s, time)) == multiset(s)
  {
    if s != [] {
      assert s == [s[0]] + s[1..];
      SortPermutes(s[1..], time);
      InsertPermutes(s[0], StableSort(s[1..], time), time);
    }
  }

  predicate Ascending<T(!new)>(s: seq<T>, time: T -> int) {
    forall i, j :: 0 <= i < j < |s| ==> time(s[i]) <= time(s[j])
  }

  lemma {:induction false} InsertAscending<T(!new)>(x: T, s: seq<T>, time: T -> int)
    requires Ascending(s, time)
    ensures Ascending(Insert(x, s, time), time)
    ensures Insert(x, s, time)[|s|] == if s == [] || time(s[|s| - 1]) < time(x) then x else s[|s| - 1]
    ensures Insert(x, s, time)[0] == if s == [] || time(x) <= time(s[0]) then x else s[0]
  {
    if s == [] || time(x) <= time(s[0]) {
    } else {
      InsertAscending(x, s[1..], time);
      ConsAscending(s[0], Insert(x, s[1..], time), time);
    }
  }

  lemma ConsAscending<T(!new)>(x: T, s: seq<T>, time: T -> int)
    requires Ascending(s, time) && (s == [] || time(x) <= time(s[0]))
    ensures Ascending([x] + s, time)
  {
    assert forall j :: 0 <= j < |s| ==> time(x) <= time(s[j]);
  }

  /** The position of the newest item. */
  function Newest<T(!new)>(s: seq<T>, time: T -> int): (n: nat)
    requires s != []
    ensures n < |s|
  {
    if |s| == 1 then 0
    else
      var n := 1 + Newest(s[1..], time);
      if time(s[0]) > time(s[n]) then 0 else n
  }

  lemma {:induction false} NewestIsNewer<T(!new)>(s: seq<T>, time: T -> int, i: nat)
    requires i < |s| && i != Newest(s, time)
    ensures Newer(s, time, Newest(s, time), i)
  {
    var m := Newest(s[1..], time);
    if i > 0 && i - 1 != m {
      NewestIsNewer(s[1..], time, i - 1);
    }
  }

  /** The stable sort puts the newest item last. */
  lemma {:induction false} SortEndsWithNewest<T(!new)>(s: seq<T>, time: T -> int)
    requires s != []
    ensures Ascending(StableSort(s, time), time)
    ensures StableSort(s, time)[|s| - 1] == s[Newest(s, time)]
  {
    if |s| == 1 {
      assert StableSort(s[1..], time) == [];
    } else {
      SortEndsWithNewest(s[1..], time);
      InsertAscending(s[0], StableSort(s[1..], time), time);
    }
  }

  function Without<T(!new)>(s: seq<T>, n: nat): seq<T>
    requires n < |s|
  {
    s[..n] + s[n + 1..]
  }

  lemma WithoutIs<T(!new)>(s: seq<T>, n: nat, x: T)
    requires n < |s|
    ensures multiset(s) == multiset(Without(s, n)) + multiset{s[n]}
    ensures x in Without(s, n) <==> exists i: nat :: i < |s| && i != n && s[i] == x
  {
    assert s == s[..n] + [s[n]] + s[n + 1..];
    var others := Without(s, n);
    if x in others {
      var o :| 0 <= o < |others| && others[o] == x;
      assert s[if o < n then o else o + 1] == x;
    }
    if i: nat :| i < |s| && i != n && s[i] == x {
      assert x == others[if i < n then i else i - 1];
    }
  }

  lemma CancelLast<T(!new)>(r: seq<T>, others: seq<T>, y: T)
    requires r != [] && r[|r| - 1] == y && multiset(r) == multiset(others) + multiset{y}
    ensures multiset(r[..|r| - 1]) == multiset(others)
  {
    assert r == r[..|r| - 1] + [y];
    assert multiset(r[..|r| - 1]) == multiset(r) - multiset{y};
  }

  lemma SameMembers<T(!new)>(a: seq<T>, b: seq<T>, x: T)
    requires multiset(a) == multiset(b)
    ensures x in a <==> x in b
  {
    assert x in multiset(a) <==> x in multiset(b);
  }

  /** Dropping the last element of the sorted group leaves exactly the items
      that stand at some position other than the newest one. */
  lemma SortedButLast<T(!new)>(s: seq<T>, time: T -> int, x: T)
    requires s != []
    ensures x in StableSort(s, time)[..|s| - 1] <==> x in Without(s, Newest(s, time))
  {
    hide StableSort, Newest, Without, Ascending;
    var r, n := StableSort(s, time), Newest(s, time);
    var others := Without(s, n);
    SortPermutes(s, time);
    WithoutIs(s, n, x);
    SortEndsWithNewest(s, time);
    CancelLast(r, others, s[n]);
    SameMembers(r[..|s| - 1], others, x);
  }

  // ------------------------------------------------------------ specification

  /** One rule, applied to the items it covers, gives up x. */
  ghost predicate RuleEvicts<T(!new)>(ops: seq<T>, interval: Interval, time: T -> int, x: T) {
    match interval
    case Delete => x in ops
    case Every(i) => i > 0 && exists p: nat :: p < |ops| && ops[p] == x && Superseded(ops, time, i, p)
  }

  ghost predicate RuleApplies<T(!new)>(items: seq<T>, rule: Rule, now: int, time: T -> int, x: T) {
    RuleEvicts(Covered(items, now - rule.start, time), rule.interval, time, x)
  }

  ghost predicate EvictedBy<T(!new)>(items: seq<T>, rules: seq<Rule>, now: int, time: T -> int, x: T) {
    exists rule :: rule in rules && RuleApplies(items, rule, now, time, x)
  }

  /** int(... / 0) is evaluated exactly when a zero interval covers something. */
  ghost predicate Divides0<T(!new)>(items: seq<T>, rules: seq<Rule>, now: int, time: T -> int) {
    exists rule :: rule in rules && rule.interval == Every(0) && Covered(items, now - rule.start, time) != []
  }

  predicate Descending<T(!new)>(s: seq<T>, time: T -> int) {
    forall i, j :: 0 <= i < j < |s| ==> time(s[i]) >= time(s[j])
  }

  // ------------------------------------------------------------ the algorithm

  /** The inner loop: one interval rule over the items it covers. */
  method ThinRuns<T(!new)>(ops: seq<T>, interval: nat, time: T -> int) returns (gone: seq<T>)
    requires interval > 0
    ensures forall x :: x in gone <==> RuleEvicts(ops, Every(interval), time, x)
  {
    gone := [];
    var start := 0;
    while start < |ops|
      invariant 0 <= start <= |ops|
      invariant 0 < start < |ops| ==> Bucket(time(ops[start]), interval) != Bucket(time(ops[start - 1]), interval)
      invariant forall x :: x in gone <==> exists p: nat :: p < start && ops[p] == x && Superseded(ops, time, interval, p)
    {
      var end := start + 1;
      while end < |ops| && Bucket(time(ops[end]), interval) == Bucket(time(ops[start]), interval)
        invariant start < end <= |ops|
        invariant forall k :: start <= k < end ==> Bucket(time(ops[k]), interval) == Bucket(time(ops[start]), interval)
      {
        end := end + 1;
      }
      var group := ops[start..end];
      var grouped := StableSort(group, time);
      var outdated := grouped[..|grouped| - 1];
      forall x
        ensures x in outdated <==>
                exists p: nat :: start <= p < end && ops[p] == x && Superseded(ops, time, interval, p)
      {
        GroupGivesUp(ops, interval, time, start, end, x);
      }
      gone := gone + outdated;
      start := end;
    }
  }

  /** For one maximal run, "not last after sorting" and "superseded" agree. */
  lemma GroupGivesUp<T(!new)>(ops: seq<T>, interval: nat, time: T -> int, start: nat, end: nat, x: T)
    requires interval > 0 && start < end <= |ops|
    requires forall k :: start <= k < end ==> Bucket(time(ops[k]), interval) == Bucket(time(ops[start]), interval)
    requires start > 0 ==> Bucket(time(ops[start]), interval) != Bucket(time(ops[start - 1]), interval)
    requires end < |ops| ==> Bucket(time(ops[end]), interval) != Bucket(time(ops[start]), interval)
    ensures var grouped := StableSort(ops[start..end], time);
            x in grouped[..|grouped| - 1] <==>
            exists p: nat :: start <= p < end && ops[p] == x && Superseded(ops, time, interval, p)
  {
    hide StableSort, Newest, Without, Bucket, Superseded;
    var group := ops[start..end];
    var n := Newest(group, time);
    SortedButLast(group, time, x);
    WithoutIs(group, n, x);
    forall p: nat | start <= p < end
      ensures p - start != n <==> Superseded(ops, time, interval, p)
    {
      SupersededInRun(ops, interval, time, start, end, p - start);
    }
    if i: nat :| i < |group| && i != n && group[i] == x {
      assert ops[start + i] == x && Superseded(ops, time, interval, start + i);
    }
    if p: nat :| start <= p < end && ops[p] == x && Superseded(ops, time, interval, p) {
      assert start + (p - start) == p;
      assert group[p - start] == x && p - start != n;
    }
  }

  lemma SupersededInRun<T(!new)>(ops: seq<T>, interval: nat, time: T -> int, start: nat, end: nat, i: nat)
    requires interval > 0 && start < end <= |ops| && i < end - start
    requires forall k :: start <= k < end ==> Bucket(time(ops[k]), interval) == Bucket(time(ops[start]), interval)
    requires start > 0 ==> Bucket(time(ops[start]), interval) != Bucket(time(ops[start - 1]), interval)
    requires end < |ops| ==> Bucket(time(ops[end]), interval) != Bucket(time(ops[start]), interval)
    ensures i != Newest(ops[start..end], time) <==> Superseded(ops, time, interval, start + i)
  {
    hide Newest, Bucket;
    var group := ops[start..end];
    var n := Newest(group, time);
    if i != n {
      NewestIsNewer(group, time, i);
      assert SameRun(ops, time, interval, start + i, start + n) && Newer(ops, time, start + n, start + i);
    }
    var p := start + i;
    forall j: nat | j < |ops| && SameRun(ops, time, interval, p, j)
      ensures i == n ==> !Newer(ops, time, j, p)
    {
      if j - start != n {
        NewestIsNewer(group, time, j - start);
      }
    }
  }

  function InsertDown<T(!new)>(x: T, s: seq<T>, time: T -> int): (r: seq<T>)
    ensures multiset(r) == multiset(s) + multiset{x}
  {
    if s == [] || time(x) >= time(s[0]) then [x] + s
    else
      assert s == [s[0]] + s[1..];
      [s[0]] + InsertDown(x, s[1..], time)
  }

  lemma {:induction false} InsertDownOrdered<T(!new)>(x: T, s: seq<T>, time: T -> int)
    requires Descending(s, time)
    ensures Descending(InsertDown(x, s, time), time)
    ensures |InsertDown(x, s, time)| == |s| + 1
    ensures forall y :: y in InsertDown(x, s, time) <==> y == x || y in s
  {
    if s == [] || time(x) >= time(s[0]) {
    } else {
      InsertDownOrdered(x, s[1..], time);
      assert s == [s[0]] + s[1..];
      ConsDescending(s[0], s[1..], InsertDown(x, s[1..], time), time);
    }
  }

  lemma ConsDescending<T(!new)>(y: T, before: seq<T>, s: seq<T>, time: T -> int)
    requires Descending(s, time) && Descending([y] + before, time)
    requires forall z :: z in s ==> z in before || time(y) >= time(z)
    ensures Descending([y] + s, time)
  {
    forall j | 0 <= j < |s|
      ensures time(y) >= time(s[j])
    {
      assert s[j] in s;
      if s[j] in before {
        var i :| 0 <= i < |before| && before[i] == s[j];
        assert ([y] + before)[0] == y && ([y] + before)[i + 1] == s[j];
      }
    }
  }

  lemma {:induction false} InsertDownFresh<T(!new)>(x: T, s: seq<T>, time: T -> int)
    requires Descending(s, time) && NoDuplicates(s) && x !in s
    ensures NoDuplicates(InsertDown(x, s, time))
  {
    InsertDownOrdered(x, s, time);
    if s == [] || time(x) >= time(s[0]) {
    } else {
      InsertDownFresh(x, s[1..], time);
      InsertDownOrdered(x, s[1..], time);
      assert s[0] !in s[1..];
    }
  }

  /** sorted(list(set(s)), reverse=True), items being ordered by their time. */
  function DescendingSet<T(==, !new)>(s: seq<T>, time: T -> int): seq<T> {
    if s == [] then []
    else
      var rest := DescendingSet(s[1..], time);
      if s[0] in s[1..] then rest else InsertDown(s[0], rest, time)
  }

  lemma {:induction false} DescendingSetCorrect<T(!new)>(s: seq<T>, time: T -> int)
    ensures var r := DescendingSet(s, time);
            && Descending(r, time) && NoDuplicates(r)
            && (forall x :: x in r <==> x in s)
  {
    if s != [] {
      DescendingSetCorrect(s[1..], time);
      var rest := DescendingSet(s[1..], time);
      if s[0] !in s[1..] {
        InsertDownOrdered(s[0], rest, time);
        InsertDownFresh(s[0], rest, time);
      }
    }
  }

  /** evict(items, rules, now, accessor): what the policy gives up, newest first. */
  method Evict<T(==, !new)>(items: seq<T>, rules: seq<Rule>, now: int, time: T -> int) returns (r: Outcome<T>)
    ensures r.ZeroDivision? <==> Divides0(items, rules, now, time)
    ensures r.Evicted? ==> forall x :: x in r.items <==> EvictedBy(items, rules, now, time, x)
    ensures r.Evicted? ==> NoDuplicates(r.items) && Descending(r.items, time)
  {
    var versions: seq<T> := [];
    var k := 0;
    while k < |rules|
      invariant 0 <= k <= |rules|
      invariant !Divides0(items, rules[..k], now, time)
      invariant forall x :: x in versions <==> EvictedBy(items, rules[..k], now, time, x)
    {
      var rule := rules[k];
      assert rules[..k + 1] == rules[..k] + [rule];
      var ops := Covered(items, now - rule.start, time);
      var gone: seq<T>;
      if rule.interval == Delete {
        gone := ops;
      } else if ops == [] {
        gone := [];
      } else if rule.interval == Every(0) {
        assert rule in rules;
        return ZeroDivision;
      } else {
        gone := ThinRuns(ops, rule.interval.seconds, time);
      }
      forall x
        ensures x in gone <==> RuleApplies(items, rule, now, time, x)
        ensures x in versions + gone <==> EvictedBy(items, rules[..k + 1], now, time, x)
      {
        EvictedByOneMore(items, rules[..k], rule, now, time, x);
      }
      versions := versions + gone;
      k := k + 1;
    }
    assert rules[..k] == rules;
    DescendingSetCorrect(versions, time);
    r := Evicted(DescendingSet(versions, time));
  }

  lemma EvictedByOneMore<T(!new)>(items: seq<T>, rules: seq<Rule>, rule: Rule, now: int, time: T -> int, x: T)
    ensures EvictedBy(items, rules + [rule], now, time, x) <==>
            EvictedBy(items, rules, now, time, x) || RuleApplies(items, rule, now, time, x)
  {
    assert rule in rules + [rule];
  }
}
