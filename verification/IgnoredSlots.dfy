/** The cache of replication slots that Patroni shall ignore
    (operator/pkg/scheduler/slots.go). */
module IgnoredSlots {
  import opened Sequences

  datatype Slot = Slot(name: string, kind: string, database: string, plugin: string)

  const PREFIX := "cdc_rs_"

  /** What the slot query returned. */
  datatype Answer = QueryFailed | Rows(rows: seq<Slot>)

  predicate IsPrefixed(s: Slot) {
    PREFIX <= s.name
  }

  /** The rows with the prefix, in order: the first n of them. */
  function Prefixed(rows: seq<Slot>, n: nat): seq<Slot>
    requires n <= |rows|
  {
    if n == 0 then []
    else Prefixed(rows, n - 1) + (if IsPrefixed(rows[n - 1]) then [rows[n - 1]] else [])
  }

  ghost function Names(slots: seq<Slot>): set<string> {
    set s | s in slots :: s.name
  }

  predicate DistinctNames(slots: seq<Slot>) {
    forall i, j :: 0 <= i < j < |slots| ==> slots[i].name != slots[j].name
  }

  /** The slots whose names are not cached yet: among the first n. */
  ghost function New(slots: seq<Slot>, n: nat, cached: set<string>): seq<Slot>
    requires n <= |slots|
  {
    if n == 0 then []
    else New(slots, n - 1, cached) + (if slots[n - 1].name in cached then [] else [slots[n - 1]])
  }

  /** The cache and Patroni's ignore_slots. */
  datatype State = State(ignored: seq<Slot>, config: seq<Slot>)

  datatype Outcome = Outcome(ok: bool, state: State)

  /** Writing an empty list is skipped; a failed patch writes nothing. */
  function Patched(s: State, slots: seq<Slot>, patchOk: bool): Outcome {
    if slots == [] then Outcome(true, State([], s.config))
    else if patchOk then Outcome(true, State(slots, slots))
    else Outcome(false, s)
  }

  ghost function Ticked(s: State, answer: Answer, patchOk: bool): Outcome {
    if answer.QueryFailed? then Outcome(false, s)
    else
      var slots := Prefixed(answer.rows, |answer.rows|);
      if |slots| < |s.ignored| then Patched(s, slots, patchOk)
      else
        var added := New(slots, |slots|, Names(s.ignored));
        if added == [] then Outcome(true, s) else Patched(s, s.ignored + added, patchOk)
  }

  class Scheduler {
    var ignored: seq<Slot>
    var config: seq<Slot>

    ghost function Current(): State
      reads this
    {
      State(ignored, config)
    }

    method UpdateIgnoreSlotsInConfig(slots: seq<Slot>, patchOk: bool) returns (ok: bool)
      modifies this`config
      ensures ok <==> slots == [] || patchOk
      ensures config == if slots != [] && patchOk then slots else old(config)
    {
      if |slots| == 0 {
        return true;
      }
      if !patchOk {
        return false;
      }
      config := slots;
      return true;
    }

    /** updateIgnoredReplicationSlots */
    method Tick(answer: Answer, patchOk: bool) returns (ok: bool)
      modifies this
      ensures Outcome(ok, Current()) == Ticked(old(Current()), answer, patchOk)
    {
      if answer.QueryFailed? {
        return false;
      }
      var slots := SelectPrefixed(answer.rows);
      if |slots| < |ignored| {
        ok := UpdateIgnoreSlotsInConfig(slots, patchOk);
        if !ok {
          return;
        }
        ignored := slots;
        return true;
      }
      var added := NewSlots(slots, ignored);
      if |added| > 0 {
        var result := ignored + added;
        ok := UpdateIgnoreSlotsInConfig(result, patchOk);
        if !ok {
          return;
        }
        ignored := result;
      }
      return true;
    }
  }

  /** getReplicationSlots */
  method SelectPrefixed(rows: seq<Slot>) returns (slots: seq<Slot>)
    ensures slots == Prefixed(rows, |rows|)
  {
    slots := [];
    for i := 0 to |rows|
      invariant slots == Prefixed(rows, i)
    {
      if IsPrefixed(rows[i]) {
        slots := slots + [rows[i]];
      }
    }
  }

  /** getNewSlotsForIgnore */
  method NewSlots(slots: seq<Slot>, ignored: seq<Slot>) returns (added: seq<Slot>)
    ensures added == New(slots, |slots|, Names(ignored))
  {
    added := [];
    for i := 0 to |slots|
      invariant added == New(slots, i, Names(ignored))
    {
      var exist := false;
      for j := 0 to |ignored|
        invariant exist <==> exists k :: 0 <= k < j && ignored[k].name == slots[i].name
      {
        if ignored[j].name == slots[i].name {
          exist := true;
        }
      }
      if exist {
        ghost var k :| 0 <= k < |ignored| && ignored[k].name == slots[i].name;
        assert ignored[k] in ignored;
      }
      if !exist {
        added := added + [slots[i]];
      }
    }
  }

  // -------------------------------------------------------------------- laws

  /** The database never lists a slot name twice. */
  ghost predicate ValidAnswer(a: Answer) {
    a.Rows? ==> DistinctNames(a.rows)
  }

  lemma {:induction false} PrefixedIs(rows: seq<Slot>, n: nat)
    requires n <= |rows| && DistinctNames(rows)
    ensures DistinctNames(Prefixed(rows, n))
    ensures forall s :: s in Prefixed(rows, n) <==> s in rows[..n] && IsPrefixed(s)
  {
    if n > 0 {
      PrefixedIs(rows, n - 1);
      assert rows[..n] == rows[..n - 1] + [rows[n - 1]];
      assert forall s :: s in rows[..n - 1] ==> s.name != rows[n - 1].name;
    }
  }

  lemma {:induction false} NewIs(slots: seq<Slot>, n: nat, cached: set<string>)
    requires n <= |slots| && DistinctNames(slots)
    ensures DistinctNames(New(slots, n, cached))
    ensures forall s :: s in New(slots, n, cached) <==> s in slots[..n] && s.name !in cached
  {
    if n > 0 {
      NewIs(slots, n - 1, cached);
      assert slots[..n] == slots[..n - 1] + [slots[n - 1]];
      assert forall s :: s in slots[..n - 1] ==> s.name != slots[n - 1].name;
    }
  }

  ghost function Current(a: Answer): seq<Slot>
    requires a.Rows?
  {
    Prefixed(a.rows, |a.rows|)
  }

  lemma CurrentDistinct(a: Answer)
    requires a.Rows? && ValidAnswer(a)
    ensures DistinctNames(Current(a))
  {
    PrefixedIs(a.rows, |a.rows|);
  }

  lemma ExtendDistinct(a: seq<Slot>, b: seq<Slot>)
    requires DistinctNames(a) && DistinctNames(b) && Names(a) !! Names(b)
    ensures DistinctNames(a + b) && Names(a + b) == Names(a) + Names(b)
  {
    assert forall i :: 0 <= i < |a| ==> a[i] in a && a[i].name in Names(a);
    assert forall i :: 0 <= i < |b| ==> b[i] in b && b[i].name in Names(b);
  }

  /** One tick: names stay distinct; success covers all current slots. */
  lemma TickCovers(s: State, a: Answer, patchOk: bool)
    requires DistinctNames(s.ignored) && ValidAnswer(a)
    ensures DistinctNames(Ticked(s, a, patchOk).state.ignored)
    ensures Ticked(s, a, patchOk).ok ==> a.Rows? && Names(Current(a)) <= Names(Ticked(s, a, patchOk).state.ignored)
  {
    if a.Rows? {
      var slots := Current(a);
      CurrentDistinct(a);
      var added := New(slots, |slots|, Names(s.ignored));
      NewIs(slots, |slots|, Names(s.ignored));
      assert slots[..|slots|] == slots;
      ExtendDistinct(s.ignored, added);
      assert added == [] ==> forall x :: x in slots ==> x !in added;
      assert Names(slots) <= Names(s.ignored) + Names(added);
    }
  }

  lemma {:induction false} NameCount(slots: seq<Slot>)
    requires DistinctNames(slots)
    ensures |Names(slots)| == |slots|
  {
    if slots != [] {
      var front, last := slots[..|slots| - 1], slots[|slots| - 1];
      NameCount(front);
      assert slots == front + [last];
      assert Names(slots) == Names(front) + {last.name};
      assert last.name !in Names(front);
    }
  }

  /** A second successful tick that finds the same slots leaves exactly their
      names in the cache: stale names are gone. */
  lemma SecondTickIsExact(s: State, a: Answer, p: bool, b: Answer, q: bool)
    requires DistinctNames(s.ignored) && ValidAnswer(a) && ValidAnswer(b)
    requires Ticked(s, a, p).ok && Ticked(Ticked(s, a, p).state, b, q).ok
    requires a.Rows? && b.Rows? && Names(Current(a)) == Names(Current(b))
    ensures Names(Ticked(Ticked(s, a, p).state, b, q).state.ignored) == Names(Current(b))
  {
    var one := Ticked(s, a, p).state;
    TickCovers(s, a, p);
    CurrentDistinct(b);
    var slots := Current(b);
    NameCount(slots);
    NameCount(one.ignored);
    if |slots| >= |one.ignored| {
      SubsetSize(Names(slots), Names(one.ignored));
      NothingNew(slots, |slots|, Names(one.ignored));
    }
  }

  lemma {:induction false} NothingNew(slots: seq<Slot>, n: nat, cached: set<string>)
    requires n <= |slots| && Names(slots) <= cached
    ensures New(slots, n, cached) == []
  {
    if n > 0 {
      NothingNew(slots, n - 1, cached);
      assert slots[n - 1] in slots;
    }
  }

  // -------------------------------------------------------------- whole runs

  datatype Event = Event(answer: Answer, patchOk: bool)

  ghost function Run(s: State, events: seq<Event>, n: nat): State
    requires n <= |events|
  {
    if n == 0 then s else Ticked(Run(s, events, n - 1), events[n - 1].answer, events[n - 1].patchOk).state
  }

  /** Over any run of ticks, failed ones included, names stay distinct and
      Patroni ignores exactly the cached slots, unless the cache is empty. */
  lemma {:induction false} RunKeeps(s: State, events: seq<Event>, n: nat)
    requires n <= |events| && DistinctNames(s.ignored) && (s.ignored != [] ==> s.config == s.ignored)
    requires forall k :: 0 <= k < |events| ==> ValidAnswer(events[k].answer)
    ensures DistinctNames(Run(s, events, n).ignored)
    ensures Run(s, events, n).ignored != [] ==> Run(s, events, n).config == Run(s, events, n).ignored
  {
    hide DistinctNames, ValidAnswer, New, Prefixed;
    if n > 0 {
      RunKeeps(s, events, n - 1);
      TickCovers(Run(s, events, n - 1), events[n - 1].answer, events[n - 1].patchOk);
    }
  }

  // ------------------------------------- when Patroni's list and the cache part

  /** The last slot has disappeared: the cache is emptied, but an empty list is
      never written to Patroni. */
  ghost predicate Empties(s: State, a: Answer) {
    a.Rows? && Current(a) == [] && s.ignored != []
  }

  /** The tick cannot write anything into Patroni's list from an empty cache. */
  ghost predicate Idle(e: Event) {
    e.answer.QueryFailed? || Current(e.answer) == [] || !e.patchOk
  }

  /** One tick: equal lists part exactly when the cache is emptied, and parted
      ones stay so exactly while ticks are idle. */
  lemma TickPartsIff(s: State, e: Event)
    requires s.ignored != [] ==> s.config == s.ignored
    ensures var t := Ticked(s, e.answer, e.patchOk).state;
            && (t.ignored != [] ==> t.config == t.ignored)
            && (s.config == s.ignored ==> (t.config == t.ignored <==> !Empties(s, e.answer)))
            && (s.config != s.ignored ==> (t.config == t.ignored <==> !Idle(e)))
  {
  }

  /** The cache was emptied by tick k, and idle ticks followed. */
  ghost predicate EmptiedAt(s: State, events: seq<Event>, n: nat, k: nat)
    requires n <= |events|
  {
    k < n && Empties(Run(s, events, k), events[k].answer) && forall j :: k < j < n ==> Idle(events[j])
  }

  /** Over any run that starts with equal lists: Patroni ignores something else
      than the cache exactly if the cache was emptied and all ticks since then
      were idle. */
  lemma {:induction false} RunPartsIff(s: State, events: seq<Event>, n: nat)
    requires n <= |events| && s.config == s.ignored
    ensures Run(s, events, n).ignored != [] ==> Run(s, events, n).config == Run(s, events, n).ignored
    ensures Run(s, events, n).config != Run(s, events, n).ignored <==> exists k: nat :: EmptiedAt(s, events, n, k)
  {
    hide Ticked, Empties, Idle;
    if n > 0 {
      RunPartsIff(s, events, n - 1);
      var m: nat, t, e := n - 1, Run(s, events, n - 1), events[n - 1];
      TickPartsIff(t, e);
      if k: nat :| EmptiedAt(s, events, m, k) {
        assert Idle(e) ==> EmptiedAt(s, events, n, k);
      }
      if Empties(t, e.answer) {
        assert EmptiedAt(s, events, n, m);
      }
      if k: nat :| EmptiedAt(s, events, n, k) {
        assert k < m ==> EmptiedAt(s, events, m, k) && Idle(e);
      }
      EmptyingIsNoPart(t, e.answer);
    }
  }

  lemma EmptyingIsNoPart(s: State, a: Answer)
    ensures Empties(s, a) ==> s.ignored != []
  {
  }

  /** In particular, when the only slot disappears. */
  lemma LastSlotStaysInConfig(slot: Slot, patchOk: bool)
    ensures Ticked(State([slot], [slot]), Rows([]), patchOk) == Outcome(true, State([], [slot]))
  {
  }

  // ------------------------------------------------------------ on the fields

  /** The rows that matter. */
  ghost predicate HasRow(a: Answer, name: string) {
    a.Rows? && "cdc_rs_" <= name && exists i :: 0 <= i < |a.rows| && a.rows[i].name == name
  }

  ghost predicate Cached(s: State, name: string) {
    exists i :: 0 <= i < |s.ignored| && s.ignored[i].name == name
  }

  lemma NamesOnFields(s: State, a: Answer, name: string)
    requires ValidAnswer(a)
    ensures name in Names(s.ignored) <==> Cached(s, name)
    ensures a.Rows? ==> (name in Names(Current(a)) <==> HasRow(a, name))
  {
    if a.Rows? {
      PrefixedIs(a.rows, |a.rows|);
      assert a.rows[..|a.rows|] == a.rows;
    }
  }

  /** A tick: whatever it caches was cached before or is a row whose name begins
      with "cdc_rs_"; on success every such row is cached by name, in place of the
      cache if they are fewer, else after it; on failure nothing changes. */
  lemma TickOnFields(s: State, a: Answer, patchOk: bool, name: string)
    requires DistinctNames(s.ignored) && ValidAnswer(a)
    ensures var t := Ticked(s, a, patchOk);
      && (forall slot :: slot in t.state.ignored ==> slot in s.ignored || (a.Rows? && slot in a.rows && "cdc_rs_" <= slot.name))
      && (t.ok && HasRow(a, name) ==> Cached(t.state, name))
      && (!t.ok ==> t.state == s)
      && (t.ok && |Current(a)| < |s.ignored| ==> t.state.ignored == Current(a))
      && (t.ok && |Current(a)| >= |s.ignored| ==> s.ignored <= t.state.ignored)
  {
    TickCovers(s, a, patchOk);
    NamesOnFields(s, a, name);
    NamesOnFields(Ticked(s, a, patchOk).state, a, name);
    if a.Rows? {
      PrefixedIs(a.rows, |a.rows|);
      CurrentDistinct(a);
      NewIs(Current(a), |Current(a)|, Names(s.ignored));
      assert a.rows[..|a.rows|] == a.rows && Current(a)[..|Current(a)|] == Current(a);
    }
  }

  /** It fails exactly if the query fails, or Patroni refuses a list that has to be
      written: there are slots, and they are fewer than the cached ones or one of
      them is not cached. */
  lemma TickFailsIff(s: State, a: Answer, patchOk: bool)
    requires ValidAnswer(a)
    ensures !Ticked(s, a, patchOk).ok <==>
      || a.QueryFailed?
      || (!patchOk && Current(a) != [] && (|Current(a)| < |s.ignored| || exists slot :: slot in Current(a) && !Cached(s, slot.name)))
  {
    if a.Rows? {
      var slots := Current(a);
      CurrentDistinct(a);
      NewIs(slots, |slots|, Names(s.ignored));
      assert slots[..|slots|] == slots;
      var added := New(slots, |slots|, Names(s.ignored));
      forall slot | slot in slots
        ensures Cached(s, slot.name) <==> slot.name in Names(s.ignored)
      {
        NamesOnFields(s, a, slot.name);
      }
      assert added != [] ==> added[0] in added;
    }
  }

  /** Two successful ticks over the same slots cache exactly the names of the rows
      that begin with "cdc_rs_". */
  lemma SecondTickOnFields(s: State, a: Answer, p: bool, b: Answer, q: bool, name: string)
    requires DistinctNames(s.ignored) && ValidAnswer(a) && ValidAnswer(b) && a.Rows? && b.Rows?
    requires Ticked(s, a, p).ok && Ticked(Ticked(s, a, p).state, b, q).ok
    requires forall x :: HasRow(a, x) <==> HasRow(b, x)
    ensures Cached(Ticked(Ticked(s, a, p).state, b, q).state, name) <==> HasRow(b, name)
  {
    hide Ticked, HasRow, Cached;
    var t := Ticked(Ticked(s, a, p).state, b, q).state;
    forall x
      ensures x in Names(Current(a)) <==> x in Names(Current(b))
    {
      NamesOnFields(s, a, x);
      NamesOnFields(s, b, x);
    }
    SecondTickIsExact(s, a, p, b, q);
    NamesOnFields(t, b, name);
  }
}
