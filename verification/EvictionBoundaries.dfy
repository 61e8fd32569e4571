/** Eviction in plain numbers: where the buckets of an interval begin, and what
    that means for the backups of a time-sorted list
    (services/backup-daemon/docker/postgres/eviction.py).

    The buckets are counted from Sunday 1970-01-04 00:00 UTC, that is from second
    259200. A new one begins at every later multiple of the interval, and right
    after every earlier one; the two buckets that touch the origin are one. */
module EvictionBoundaries {
  import opened Division
  import opened Sequences
  import opened Eviction
  import opened EvictionLaws

  /** The k-th boundary after or before the origin lies between s and t. */
  ghost predicate Separates(s: int, t: int, interval: int, k: int) {
    k >= 1 && (s < 259200 + k * interval <= t || s <= 259200 - k * interval < t)
  }

  ghost predicate Separated(s: int, t: int, interval: int) {
    exists k :: Separates(s, t, interval, k)
  }

  lemma QuotientAtLeast(x: nat, d: nat, k: int)
    requires d > 0
    ensures x / d >= k <==> x >= k * d
  {
    Quotient(x, d);
    MulOrder(k, x / d, d);
    MulOrder(x / d, k, d);
  }

  lemma TruncAtLeast(x: int, d: nat, k: int)
    requires d > 0 && k >= 1
    ensures TruncDiv(x, d) >= k <==> x >= k * d
    ensures TruncDiv(x, d) <= -k <==> x <= -(k * d)
  {
    MulPositive(k, d);
    if x >= 0 {
      QuotientAtLeast(x, d, k);
      DivMonotone(0, x, d);
    } else {
      QuotientAtLeast(-x, d, k);
      DivMonotone(0, -x, d);
    }
  }

  /** Two instants lie in different buckets exactly if a boundary separates them. */
  lemma BucketsDifferIff(s: int, t: int, interval: nat)
    requires interval > 0 && s <= t
    ensures Bucket(s, interval) != Bucket(t, interval) <==> Separated(s, t, interval)
  {
    hide TruncDiv;
    BucketMonotone(s, t, interval);
    var a, b := Bucket(s, interval), Bucket(t, interval);
    forall k | Separates(s, t, interval, k)
      ensures a != b
    {
      TruncAtLeast(s - 259200, interval, k);
      TruncAtLeast(t - 259200, interval, k);
    }
    if a < b {
      var k := if b >= 1 then b else -a;
      TruncAtLeast(s - 259200, interval, k);
      TruncAtLeast(t - 259200, interval, k);
      assert Separates(s, t, interval, k);
    }
  }

  /** Backup q was made after p, or at the same time and is listed later; the rule
      is old enough for both, and no boundary separates them. */
  ghost predicate Supplants<T(!new)>(items: seq<T>, rule: Rule, now: int, time: T -> int, q: nat, p: nat)
    requires q < |items| && p < |items| && rule.interval.Every?
  {
    && time(items[q]) + rule.start <= now
    && (time(items[p]) < time(items[q]) || (time(items[p]) == time(items[q]) && p < q))
    && !Separated(time(items[p]), time(items[q]), rule.interval.seconds)
  }

  ghost predicate GivesUp<T(!new)>(items: seq<T>, rule: Rule, now: int, time: T -> int, p: nat)
    requires p < |items|
  {
    && time(items[p]) + rule.start <= now
    && (rule.interval.Every? ==> rule.interval.seconds > 0 && exists q: nat :: q < |items| && Supplants(items, rule, now, time, q, p))
  }

  /** A time-sorted list without repetitions, in plain numbers: a backup is evicted
      exactly if some rule is old enough for it and either deletes, or is old
      enough for a newer backup that no boundary separates from it. */
  lemma EvictionInNumbers<T(!new)>(items: seq<T>, rules: seq<Rule>, now: int, time: T -> int, p: nat)
    requires NoDuplicates(items) && TimeSorted(items, time) && p < |items|
    ensures EvictedBy(items, rules, now, time, items[p]) <==>
            exists rule :: rule in rules && GivesUp(items, rule, now, time, p)
  {
    hide Bucket, EvictedBy, TimeSorted, Separated;
    EvictionMatchesSpec(items, rules, now, time, p);
    forall rule | rule in rules
      ensures Outdated(items, rule, now, time, p) <==> GivesUp(items, rule, now, time, p)
    {
      OutdatedInNumbers(items, rule, now, time, p);
    }
  }

  lemma OutdatedInNumbers<T(!new)>(items: seq<T>, rule: Rule, now: int, time: T -> int, p: nat)
    requires p < |items|
    ensures Outdated(items, rule, now, time, p) <==> GivesUp(items, rule, now, time, p)
  {
    hide Bucket, Separated;
    if rule.interval.Every? && rule.interval.seconds > 0 {
      forall q: nat | q < |items|
        ensures Outlives(items, rule, now, time, q, p) <==> Supplants(items, rule, now, time, q, p)
      {
        if time(items[p]) <= time(items[q]) {
          BucketsDifferIff(time(items[p]), time(items[q]), rule.interval.seconds);
        }
      }
    }
  }

  /** Eviction divides by zero exactly if a rule with interval zero is old enough for
      some backup, in whatever order they are listed. */
  lemma ZeroIntervalIff<T(!new)>(items: seq<T>, rules: seq<Rule>, now: int, time: T -> int)
    ensures Divides0(items, rules, now, time) <==>
      exists rule, x :: rule in rules && rule.interval == Every(0) && x in items && time(x) + rule.start <= now
  {
    hide Covered;
    forall rule | rule in rules
      ensures Covered(items, now - rule.start, time) != [] <==> exists x :: x in items && time(x) + rule.start <= now
    {
      var ops := Covered(items, now - rule.start, time);
      assert ops != [] ==> ops[0] in ops;
    }
  }

  /** One weekly rule and two backups, the second not older: the first goes exactly
      if no Sunday 00:00 UTC from the epoch's second one on lies in between. */
  lemma WeeklyPair<T(!new)>(a: T, b: T, now: int, time: T -> int)
    requires a != b && 259200 <= time(a) <= time(b) <= now
    ensures EvictedBy([a, b], [Rule(0, Every(604800))], now, time, a) <==>
            !exists k :: k >= 1 && time(a) < SundayNumber(k) <= time(b)
    ensures !EvictedBy([a, b], [Rule(0, Every(604800))], now, time, b)
  {
    hide EvictedBy, Separated;
    var rule := Rule(0, Every(604800));
    EvictionInNumbers([a, b], [rule], now, time, 0);
    EvictionInNumbers([a, b], [rule], now, time, 1);
    assert rule in [rule];
    assert GivesUp([a, b], rule, now, time, 0) <==> Supplants([a, b], rule, now, time, 1, 0);
    assert !GivesUp([a, b], rule, now, time, 1);
    SeparatedBySundays(time(a), time(b));
  }

  function SundayNumber(k: int): int {
    259200 + k * 604800
  }

  lemma SeparatedBySundays(s: int, t: int)
    requires 259200 <= s <= t
    ensures Separated(s, t, 604800) <==> exists k :: k >= 1 && s < SundayNumber(k) <= t
  {
    if k :| Separates(s, t, 604800, k) {
      assert s < SundayNumber(k) <= t;
    }
    if k :| k >= 1 && s < SundayNumber(k) <= t {
      assert Separates(s, t, 604800, k);
    }
  }

  /** The last second of Saturday 2025-08-02 and the first of Sunday 2025-08-03 are
      of different weeks; the seven days that follow are of one. */
  lemma SundaySplits(s: int, t: int)
    requires 1754179200 <= s <= t < 1754179200 + 604800
    ensures Separated(1754179199, 1754179200, 604800) && !Separated(s, t, 604800)
  {
    assert Separates(1754179199, 1754179200, 604800, 2900);
  }
}
