/** The summing histogram of the query exporter
    (services/query-exporter/collectors/histogram.go). */
module Histogram {
  import opened Texts
  import opened Labels

  const UINT64: int := 18446744073709551616

  /** Addition of uint64 values. */
  function Wrap(x: int): (r: nat)
    ensures r < UINT64
  {
    x % UINT64
  }

  lemma WrapAdd(x: int, y: int)
    ensures Wrap(Wrap(x) + y) == Wrap(x + y)
  {
    var q := x / UINT64;
    assert x == q * UINT64 + x % UINT64;
    var p := (Wrap(x) + y) / UINT64;
    assert x + y == (q + p) * UINT64 + Wrap(Wrap(x) + y);
  }

  datatype Bound = Finite(limit: real) | Infinity

  predicate Below(a: Bound, b: Bound) {
    b.Infinity? || (a.Finite? && a.limit <= b.limit)
  }

  /** One histogram, or one observation to be added to it. */
  datatype State = State(sum: real, cnt: nat, buckets: map<Bound, nat>)

  const EMPTY := State(0.0, 0, map[])

  function CountAt(s: State, b: Bound): nat {
    if b in s.buckets then s.buckets[b] else 0
  }

  // -------------------------------------------------------------- one update

  function AddedBuckets(was: map<Bound, nat>, added: map<Bound, nat>): map<Bound, nat> {
    map b | b in was.Keys + added.Keys ::
      if b !in added then was[b] else Wrap((if b in was then was[b] else 0) + added[b])
  }

  function Merged(summarize: bool, s: State, o: State): State {
    if summarize then State(s.sum + o.sum, Wrap(s.cnt + o.cnt), AddedBuckets(s.buckets, o.buckets))
    else State(o.sum, o.cnt, s.buckets + o.buckets)
  }

  /** The loop over the observed buckets, in any order. */
  method MergeBuckets(summarize: bool, was: map<Bound, nat>, added: map<Bound, nat>) returns (buckets: map<Bound, nat>)
    ensures buckets == if summarize then AddedBuckets(was, added) else was + added
  {
    buckets := was;
    var rest := added.Keys;
    while rest != {}
      invariant rest <= added.Keys
      invariant buckets.Keys == was.Keys + (added.Keys - rest)
      invariant forall b :: b in buckets ==>
        buckets[b] ==
        (if b in rest || b !in added then was[b]
         else if summarize then Wrap((if b in was then was[b] else 0) + added[b]) else added[b])
      decreases rest
    {
      var b :| b in rest;
      rest := rest - {b};
      buckets := buckets[b := if summarize then Wrap((if b in buckets then buckets[b] else 0) + added[b]) else added[b]];
    }
  }

  /** What is exported for one key. */
  datatype Published = Published(state: State, labelValues: seq<string>)

  /** GetOrderedMapValues; a missing label reads as the empty string. */
  function OrderedValues(labels: Labels, keys: seq<string>): (values: seq<string>)
    ensures |values| == |keys|
  {
    seq(|keys|, i requires 0 <= i < |keys| => if keys[i] in labels then labels[keys[i]] else "")
  }

  ghost predicate Matches(key: string, wanted: Labels) {
    forall k :: k in wanted ==> Contains(key, Wanted(k, wanted[k]))
  }

  ghost function AfterObserve(summarize: bool, states: map<string, State>, key: string, o: State): map<string, State> {
    states[key := Merged(summarize, if key in states then states[key] else EMPTY, o)]
  }

  ghost function AfterDelete(states: map<string, State>, wanted: Labels): map<string, State> {
    if wanted == map[] then states else map key | key in states && !Matches(key, wanted) :: states[key]
  }

  /** One call of the collector. */
  datatype Call = Observed(labels: Labels, labelKeys: seq<string>, o: State) | Deleted(wanted: Labels)

  ghost function StatesAfter(summarize: bool, states: map<string, State>, c: Call): map<string, State> {
    match c
    case Observed(labels, _, o) => AfterObserve(summarize, states, Canonical(labels), o)
    case Deleted(wanted) => AfterDelete(states, wanted)
  }

  ghost function PublishedAfter(summarize: bool, states: map<string, State>, published: map<string, Published>, c: Call): map<string, Published> {
    var after := StatesAfter(summarize, states, c);
    match c
    case Observed(labels, labelKeys, _) =>
      published[Canonical(labels) := Published(after[Canonical(labels)], OrderedValues(labels, labelKeys))]
    case Deleted(_) => map key | key in published && key in after :: published[key]
  }

  class CustomHistogram {
    const summarize: bool
    var states: map<string, State>
    var published: map<string, Published>

    /** Published entries have the keys and the counts of the state. */
    ghost predicate Valid()
      reads this
    {
      published.Keys == states.Keys && forall key :: key in states ==> published[key].state == states[key]
    }

    constructor (summarize: bool)
      ensures Valid() && states == map[] && this.summarize == summarize
    {
      this.summarize := summarize;
      states, published := map[], map[];
    }

    /** Merges one observation into the state of its labels, and publishes it with
        the label values in the order of the label keys. */
    method Observe(o: State, labels: Labels, labelKeys: seq<string>)
      requires Valid()
      modifies this
      ensures Valid()
      ensures states == AfterObserve(summarize, old(states), Canonical(labels), o)
      ensures published == PublishedAfter(summarize, old(states), old(published), Observed(labels, labelKeys, o))
    {
      hide Canonical;
      var key := MapToString(labels);
      var s := if key in states then states[key] else EMPTY;
      var buckets := MergeBuckets(summarize, s.buckets, o.buckets);
      var sum, cnt := if summarize then s.sum + o.sum else o.sum, if summarize then Wrap(s.cnt + o.cnt) else o.cnt;
      states := states[key := State(sum, cnt, buckets)];
      published := published[key := Published(states[key], OrderedValues(labels, labelKeys))];
    }

    method DeletePartialMatch(wanted: Labels)
      requires Valid()
      modifies this
      ensures Valid()
      ensures states == AfterDelete(old(states), wanted)
      ensures published == PublishedAfter(summarize, old(states), old(published), Deleted(wanted))
    {
      if wanted == map[] {
        return;
      }
      var doomed: set<string>, rest := {}, states.Keys;
      while rest != {}
        invariant rest <= states.Keys && unchanged(this)
        invariant forall key :: key in doomed <==> key in states && key !in rest && Matches(key, wanted)
        decreases rest
      {
        var key :| key in rest;
        rest := rest - {key};
        var all := AllPresent(key, wanted);
        if all {
          doomed := doomed + {key};
        }
      }
      var kept := map key | key in states && key !in doomed :: states[key];
      assert kept == AfterDelete(states, wanted);
      published := map key | key in published && key in kept :: published[key];
      states := kept;
    }
  }

  method AllPresent(key: string, wanted: Labels) returns (all: bool)
    ensures all <==> Matches(key, wanted)
  {
    hide Contains, Wanted;
    all := true;
    var rest := wanted.Keys;
    while rest != {}
      invariant rest <= wanted.Keys
      invariant all <==> forall k :: k in wanted && k !in rest ==> Contains(key, Wanted(k, wanted[k]))
      decreases rest
    {
      var k :| k in rest;
      var found := FindText(key, Wanted(k, wanted[k]));
      if !found {
        all := false;
      }
      rest := rest - {k};
    }
  }

  // -------------------------------------------------------------- whole runs

  datatype Event = Observe(key: string, o: State) | Delete(wanted: Labels)

  /** The state after the first n events. */
  ghost function Run(summarize: bool, events: seq<Event>, n: nat): map<string, State>
    requires n <= |events|
  {
    if n == 0 then map[]
    else
      var before := Run(summarize, events, n - 1);
      match events[n - 1]
      case Observe(key, o) => AfterObserve(summarize, before, key, o)
      case Delete(wanted) => AfterDelete(before, wanted)
  }

  ghost predicate Deletes(e: Event, key: string) {
    e.Delete? && e.wanted != map[] && Matches(key, e.wanted)
  }

  /** The observations of a key since its last deletion. */
  ghost function History(events: seq<Event>, n: nat, key: string): seq<State>
    requires n <= |events|
  {
    if n == 0 then []
    else
      var e := events[n - 1];
      if e.Observe? && e.key == key then History(events, n - 1, key) + [e.o]
      else if Deletes(e, key) then []
      else History(events, n - 1, key)
  }

  function SumCnt(h: seq<State>): nat {
    if h == [] then 0 else SumCnt(h[..|h| - 1]) + h[|h| - 1].cnt
  }

  function SumAt(h: seq<State>, b: Bound): nat {
    if h == [] then 0 else SumAt(h[..|h| - 1], b) + CountAt(h[|h| - 1], b)
  }

  function SumOfSums(h: seq<State>): real {
    if h == [] then 0.0 else SumOfSums(h[..|h| - 1]) + h[|h| - 1].sum
  }

  ghost predicate UsesBound(h: seq<State>, b: Bound) {
    exists i :: 0 <= i < |h| && b in h[i].buckets
  }

  /** s is the sum of the observations h. */
  ghost predicate IsSumOf(s: State, h: seq<State>) {
    && s.sum == SumOfSums(h)
    && s.cnt == Wrap(SumCnt(h))
    && (forall b :: b in s.buckets <==> UsesBound(h, b))
    && (forall b :: b in s.buckets ==> s.buckets[b] == Wrap(SumAt(h, b)))
  }

  lemma EmptySum()
    ensures IsSumOf(EMPTY, [])
  {
  }

  lemma SnocSums(h: seq<State>, o: State, b: Bound)
    ensures SumCnt(h + [o]) == SumCnt(h) + o.cnt
    ensures SumOfSums(h + [o]) == SumOfSums(h) + o.sum
    ensures SumAt(h + [o], b) == SumAt(h, b) + CountAt(o, b)
  {
    assert (h + [o])[..|h|] == h;
  }

  lemma BucketStep(s: State, h: seq<State>, o: State, b: Bound)
    requires IsSumOf(s, h)
    ensures b in AddedBuckets(s.buckets, o.buckets) <==> UsesBound(h + [o], b)
    ensures b in AddedBuckets(s.buckets, o.buckets) ==> AddedBuckets(s.buckets, o.buckets)[b] == Wrap(SumAt(h + [o], b))
  {
    hide Wrap, SumAt, SumCnt, SumOfSums;
    UsesSnoc(h, o, b);
    SnocSums(h, o, b);
    WrapAdd(SumAt(h, b), CountAt(o, b));
    if !UsesBound(h, b) {
      UnusedSum(h, b);
    }
  }

  lemma SumStep(s: State, h: seq<State>, o: State)
    requires IsSumOf(s, h)
    ensures IsSumOf(Merged(true, s, o), h + [o])
  {
    hide Wrap, SumAt, SumCnt, SumOfSums, UsesBound, AddedBuckets;
    SnocSums(h, o, Infinity);
    WrapAdd(SumCnt(h), o.cnt);
    forall b
      ensures b in AddedBuckets(s.buckets, o.buckets) <==> UsesBound(h + [o], b)
      ensures b in AddedBuckets(s.buckets, o.buckets) ==> AddedBuckets(s.buckets, o.buckets)[b] == Wrap(SumAt(h + [o], b))
    {
      BucketStep(s, h, o, b);
    }
  }

  lemma UsesSnoc(h: seq<State>, o: State, b: Bound)
    ensures UsesBound(h + [o], b) <==> UsesBound(h, b) || b in o.buckets
  {
    var g := h + [o];
    if UsesBound(h, b) {
      var i :| 0 <= i < |h| && b in h[i].buckets;
      assert b in g[i].buckets;
    }
    assert g[|h|] == o;
  }

  lemma {:induction false} UnusedSum(h: seq<State>, b: Bound)
    requires !UsesBound(h, b)
    ensures SumAt(h, b) == 0
  {
    if h != [] {
      var front := h[..|h| - 1];
      assert forall i :: 0 <= i < |front| ==> front[i] == h[i];
      assert b !in h[|h| - 1].buckets;
      UnusedSum(front, b);
    }
  }

  /** In summarize mode, after any run, a key is exported exactly if it was
      observed since its last deletion, and all its counts are the sums of those
      observations (as uint64). */
  lemma {:induction false} RunSummarizes(events: seq<Event>, n: nat, key: string)
    requires n <= |events|
    ensures key in Run(true, events, n) <==> History(events, n, key) != []
    ensures key in Run(true, events, n) ==> IsSumOf(Run(true, events, n)[key], History(events, n, key))
  {
    hide IsSumOf, Matches, Merged;
    if n > 0 {
      RunSummarizes(events, n - 1, key);
      EmptySum();
      var e, h := events[n - 1], History(events, n - 1, key);
      if e.Observe? && e.key == key {
        var before := Run(true, events, n - 1);
        SumStep(if key in before then before[key] else EMPTY, h, e.o);
      }
    }
  }

  /** Otherwise a key shows its latest observation. */
  lemma {:induction false} RunReplaces(events: seq<Event>, n: nat, key: string)
    requires n <= |events|
    ensures key in Run(false, events, n) <==> History(events, n, key) != []
    ensures key in Run(false, events, n) ==>
      var s, h := Run(false, events, n)[key], History(events, n, key);
      && s.sum == h[|h| - 1].sum && s.cnt == h[|h| - 1].cnt
      && (forall b :: b in s.buckets <==> UsesBound(h, b))
      && (forall b :: b in h[|h| - 1].buckets ==> b in s.buckets && s.buckets[b] == h[|h| - 1].buckets[b])
  {
    hide Matches;
    if n > 0 {
      RunReplaces(events, n - 1, key);
      var e, h := events[n - 1], History(events, n - 1, key);
      if e.Observe? && e.key == key {
        forall b
          ensures UsesBound(h + [e.o], b) <==> UsesBound(h, b) || b in e.o.buckets
        {
          UsesSnoc(h, e.o, b);
        }
      }
    }
  }

  // -------------------------------------------------------- cumulative shape

  /** A well-formed observation over the bounds bs: cumulative, and its +Inf
      bucket is its count. */
  ghost predicate Cumulative(s: State, bs: set<Bound>) {
    && s.buckets.Keys == bs
    && (forall a, b :: a in bs && b in bs && Below(a, b) ==> s.buckets[a] <= s.buckets[b])
    && Infinity in bs && s.buckets[Infinity] == s.cnt
  }

  lemma {:induction false} CumulativeSums(h: seq<State>, bs: set<Bound>, a: Bound, b: Bound)
    requires forall i :: 0 <= i < |h| ==> Cumulative(h[i], bs)
    requires a in bs && b in bs && Below(a, b)
    ensures SumAt(h, a) <= SumAt(h, b)
  {
    if h != [] {
      CumulativeSums(h[..|h| - 1], bs, a, b);
      assert Cumulative(h[|h| - 1], bs);
    }
  }

  /** The wrapped sums still grow with the bounds. */
  ghost predicate WrapsInOrder(h: seq<State>, bs: set<Bound>) {
    forall a, b :: a in bs && b in bs && Below(a, b) ==> Wrap(SumAt(h, a)) <= Wrap(SumAt(h, b))
  }

  /** Summing cumulative observations over fixed bounds keeps the bounds, and the
      +Inf bucket equal to the count, even when counts wrap around. The sum is
      cumulative exactly if the wrapped sums are still in order. */
  lemma SumIsCumulativeIff(s: State, h: seq<State>, bs: set<Bound>)
    requires h != [] && IsSumOf(s, h)
    requires forall i :: 0 <= i < |h| ==> Cumulative(h[i], bs)
    ensures s.buckets.Keys == bs && Infinity in bs && s.buckets[Infinity] == s.cnt
    ensures Cumulative(s, bs) <==> WrapsInOrder(h, bs)
  {
    hide SumAt, SumCnt, SumOfSums, Wrap;
    SameBounds(s, h, bs);
    InfinityCounts(h, bs);
  }

  lemma {:induction false} InfinityCounts(h: seq<State>, bs: set<Bound>)
    requires forall i :: 0 <= i < |h| ==> Cumulative(h[i], bs)
    ensures SumAt(h, Infinity) == SumCnt(h)
  {
    if h != [] {
      InfinityCounts(h[..|h| - 1], bs);
      assert Cumulative(h[|h| - 1], bs);
    }
  }

  /** As long as the total count fits into a uint64 they are. */
  lemma SmallTotalsInOrder(h: seq<State>, bs: set<Bound>)
    requires SumCnt(h) < UINT64 && forall i :: 0 <= i < |h| ==> Cumulative(h[i], bs)
    ensures WrapsInOrder(h, bs)
  {
    hide SumAt, SumCnt, Wrap, Cumulative;
    InfinityCounts(h, bs);
    forall a, b | a in bs && b in bs && Below(a, b)
      ensures Wrap(SumAt(h, a)) <= Wrap(SumAt(h, b))
    {
      CumulativeSums(h, bs, a, b);
      UpToInfinity(h, bs, b);
      Small(SumAt(h, a));
      Small(SumAt(h, b));
    }
  }

  lemma {:induction false} UpToInfinity(h: seq<State>, bs: set<Bound>, b: Bound)
    requires b in bs && forall i :: 0 <= i < |h| ==> Cumulative(h[i], bs)
    ensures SumAt(h, b) <= SumCnt(h)
  {
    if h != [] {
      UpToInfinity(h[..|h| - 1], bs, b);
      assert Cumulative(h[|h| - 1], bs);
      assert b == Infinity || Below(b, Infinity);
    }
  }

  lemma SameBounds(s: State, h: seq<State>, bs: set<Bound>)
    requires h != [] && forall b :: b in s.buckets <==> UsesBound(h, b)
    requires forall i :: 0 <= i < |h| ==> Cumulative(h[i], bs)
    ensures s.buckets.Keys == bs && Infinity in bs
  {
    assert Cumulative(h[0], bs);
    forall b
      ensures UsesBound(h, b) <==> b in bs
    {
      if UsesBound(h, b) {
        var i :| 0 <= i < |h| && b in h[i].buckets;
        assert Cumulative(h[i], bs);
      }
    }
  }

  lemma Small(x: nat)
    requires x < UINT64
    ensures Wrap(x) == x
  {
  }

  const EARLY := State(0.0, 18446744073709551615, map[Finite(1.0) := 1, Infinity := 18446744073709551615])
  const LATE := State(0.0, 1, map[Finite(1.0) := 1, Infinity := 1])

  /** When the total reaches 18446744073709551616 the sum of two well-formed observations is no
      longer cumulative: the +Inf bucket has wrapped around. */
  lemma OverflowBreaksShape()
    ensures Cumulative(EARLY, {Finite(1.0), Infinity}) && Cumulative(LATE, {Finite(1.0), Infinity})
    ensures var s := Merged(true, EARLY, LATE);
            s.buckets[Finite(1.0)] == 2 && s.buckets[Infinity] == 0 && !Cumulative(s, {Finite(1.0), Infinity})
  {
    assert Below(Finite(1.0), Infinity);
  }

  lemma LatestKeepsShape(s: State, h: seq<State>, bs: set<Bound>)
    requires h != [] && s.cnt == h[|h| - 1].cnt
    requires forall i :: 0 <= i < |h| ==> Cumulative(h[i], bs)
    requires forall b :: b in s.buckets <==> UsesBound(h, b)
    requires forall b :: b in h[|h| - 1].buckets ==> b in s.buckets && s.buckets[b] == h[|h| - 1].buckets[b]
    ensures Cumulative(s, bs) && s.buckets.Keys == bs && Infinity in bs && s.buckets[Infinity] == s.cnt
  {
    assert Cumulative(h[|h| - 1], bs);
    assert forall b :: b in s.buckets ==> b in bs;
  }

  /** Over any run: if every observation since the last deletion of a key was
      cumulative over the same bounds, the exported histogram has these bounds and
      a +Inf bucket equal to its count. It is cumulative, in summing mode exactly
      if the wrapped sums are in order, and so whenever the total fits. */
  lemma RunKeepsShape(summarize: bool, events: seq<Event>, n: nat, key: string, bs: set<Bound>)
    requires n <= |events| && key in Run(summarize, events, n)
    requires forall i :: 0 <= i < |History(events, n, key)| ==> Cumulative(History(events, n, key)[i], bs)
    ensures var s := Run(summarize, events, n)[key];
            s.buckets.Keys == bs && Infinity in bs && s.buckets[Infinity] == s.cnt
    ensures Cumulative(Run(summarize, events, n)[key], bs) <==> (summarize ==> WrapsInOrder(History(events, n, key), bs))
    ensures SumCnt(History(events, n, key)) < 18446744073709551616 ==> Cumulative(Run(summarize, events, n)[key], bs)
  {
    var h := History(events, n, key);
    if summarize {
      hide *;
      RunSummarizes(events, n, key);
      SumIsCumulativeIff(Run(true, events, n)[key], h, bs);
      if SumCnt(h) < UINT64 {
        SmallTotalsInOrder(h, bs);
      }
    } else {
      hide *;
      RunReplaces(events, n, key);
      LatestKeepsShape(Run(false, events, n)[key], h, bs);
    }
  }

  // ------------------------------------------------------ published label values

  ghost function RunStates(summarize: bool, calls: seq<Call>, n: nat): map<string, State>
    requires n <= |calls|
  {
    if n == 0 then map[] else StatesAfter(summarize, RunStates(summarize, calls, n - 1), calls[n - 1])
  }

  ghost function RunPublished(summarize: bool, calls: seq<Call>, n: nat): map<string, Published>
    requires n <= |calls|
  {
    if n == 0 then map[]
    else PublishedAfter(summarize, RunStates(summarize, calls, n - 1), RunPublished(summarize, calls, n - 1), calls[n - 1])
  }

  /** The i-th value is that of the i-th label key; a missing label reads as "". */
  ghost predicate InOrder(labels: Labels, labelKeys: seq<string>, values: seq<string>) {
    |values| == |labelKeys| &&
    forall i :: 0 <= i < |labelKeys| ==> (if labelKeys[i] in labels then values[i] == labels[labelKeys[i]] else values[i] == "")
  }

  /** Call i observed the key, and no later one of the first n did. */
  ghost predicate LastObserved(calls: seq<Call>, n: nat, i: nat, key: string) {
    && i < n <= |calls| && calls[i].Observed? && Canonical(calls[i].labels) == key
    && forall j :: i < j < n && calls[j].Observed? ==> Canonical(calls[j].labels) != key
  }

  /** Over any run of observations and deletions: exactly the keys of the state are
      published, each with the counts of the state, and with the label values of
      its last observation in the order of the label keys. */
  lemma {:induction false} RunPublishes(summarize: bool, calls: seq<Call>, n: nat, key: string) returns (i: nat)
    requires n <= |calls|
    ensures var states, published := RunStates(summarize, calls, n), RunPublished(summarize, calls, n);
      && (key in published <==> key in states)
      && (key in states ==>
            && published[key].state == states[key]
            && LastObserved(calls, n, i, key) && InOrder(calls[i].labels, calls[i].labelKeys, published[key].labelValues))
  {
    hide Canonical, Matches, Merged;
    i := 0;
    if n > 0 {
      i := RunPublishes(summarize, calls, n - 1, key);
      var c := calls[n - 1];
      if c.Observed? && Canonical(c.labels) == key {
        i := n - 1;
      }
    }
  }

  ghost function EventOf(c: Call): Event {
    match c
    case Observed(labels, _, o) => Observe(Canonical(labels), o)
    case Deleted(wanted) => Delete(wanted)
  }

  /** The state of such a run is the one that the laws on events speak of. */
  lemma {:induction false} CallsAreEvents(summarize: bool, calls: seq<Call>, n: nat)
    requires n <= |calls|
    ensures RunStates(summarize, calls, n) == Run(summarize, seq(|calls|, i requires 0 <= i < |calls| => EventOf(calls[i])), n)
  {
    hide Canonical, Matches, Merged;
    if n > 0 {
      CallsAreEvents(summarize, calls, n - 1);
    }
  }

  /** So pairing the label keys with the published values gives the labels back,
      if the keys name all of them. */
  lemma ValuesGiveLabels(labels: Labels, labelKeys: seq<string>, values: seq<string>, k: string)
    requires InOrder(labels, labelKeys, values) && k in labels && k in labelKeys
    ensures exists i :: 0 <= i < |labelKeys| && labelKeys[i] == k && values[i] == labels[k]
  {
    var i :| 0 <= i < |labelKeys| && labelKeys[i] == k;
  }

  // ------------------------------------------------------------- order-free

  lemma {:induction false} SumSplit(a: seq<State>, b: seq<State>, bound: Bound)
    ensures SumCnt(a + b) == SumCnt(a) + SumCnt(b)
    ensures SumAt(a + b, bound) == SumAt(a, bound) + SumAt(b, bound)
    ensures SumOfSums(a + b) == SumOfSums(a) + SumOfSums(b)
  {
    if b == [] {
      assert a + b == a;
    } else {
      var front := b[..|b| - 1];
      SumSplit(a, front, bound);
      assert (a + b)[..|a + b| - 1] == a + front;
    }
  }

  lemma RemoveOne(g: seq<State>, i: nat, b: Bound)
    requires i < |g|
    ensures var rest := g[..i] + g[i + 1..];
            && multiset(rest) == multiset(g) - multiset{g[i]}
            && SumCnt(g) == SumCnt(rest) + g[i].cnt
            && SumAt(g, b) == SumAt(rest, b) + CountAt(g[i], b)
            && SumOfSums(g) == SumOfSums(rest) + g[i].sum
  {
    hide SumAt, SumCnt, SumOfSums;
    assert g == g[..i] + [g[i]] + g[i + 1..];
    SumSplit(g[..i] + [g[i]], g[i + 1..], b);
    SnocSums(g[..i], g[i], b);
    SumSplit(g[..i], g[i + 1..], b);
  }

  /** The sums do not depend on the order of the observations. */
  lemma {:induction false} SumsIgnoreOrder(h: seq<State>, g: seq<State>, b: Bound)
    requires multiset(h) == multiset(g)
    ensures SumCnt(h) == SumCnt(g) && SumAt(h, b) == SumAt(g, b) && SumOfSums(h) == SumOfSums(g)
    decreases |h|
  {
    hide SumAt, SumCnt, SumOfSums;
    if h == [] {
      assert |multiset(g)| == 0;
    } else {
      assert h[0] in multiset(g);
      var i :| 0 <= i < |g| && g[i] == h[0];
      RemoveOne(h, 0, b);
      RemoveOne(g, i, b);
      SumsIgnoreOrder(h[..0] + h[1..], g[..i] + g[i + 1..], b);
    }
  }

  // --------------------------------------------------------- exact deletion

  /** Deletion by labels removes exactly the series that carry all the wanted
      labels, when no other label name ends in a wanted name. */
  lemma DeletionIsExact(labels: Labels, wanted: Labels)
    requires Searchable(labels)
    requires forall k :: k in wanted ==> Free(k, ',') && Free(wanted[k], '\"')
    requires forall k, name :: k in wanted && name in labels && EndsWith(name, k) ==> name == k
    ensures Matches(Canonical(labels), wanted) <==> forall k :: k in wanted ==> k in labels && labels[k] == wanted[k]
  {
    hide Canonical, Contains, Wanted;
    forall k | k in wanted
      ensures Contains(Canonical(labels), Wanted(k, wanted[k])) <==> k in labels && labels[k] == wanted[k]
    {
      SubstringTestExact(labels, k, wanted[k]);
    }
  }
}
