/** Making databases read-only around a major upgrade, and writable again
    (operator/pkg/upgrade/replication.go). */
module UpgradeReadOnly {
  import opened Sequences
  import opened Texts

  datatype Slot = Slot(name: string, kind: string, database: string, active: bool, lag: int)

  datatype Option<T> = None | Some(value: T)

  ghost function Named(s: seq<string>): set<string> {
    set x | x in s && x != ""
  }

  ghost predicate LogicalSlot(s: Slot) {
    s.kind == "logical" && s.database != ""
  }

  /** The databases of the logical slots. */
  ghost function Logical(slots: seq<Slot>): set<string> {
    set s | s in slots && LogicalSlot(s) :: s.database
  }

  /** An inactive slot that lags forbids the upgrade. */
  ghost predicate Blocked(slots: seq<Slot>) {
    exists s :: s in slots && !s.active && s.lag > 0
  }

  /** The databases of the first n slots, in order of first occurrence. */
  ghost function Unique(slots: seq<Slot>, n: nat): (databases: seq<string>)
    requires n <= |slots|
  {
    if n == 0 then []
    else
      var before, s := Unique(slots, n - 1), slots[n - 1];
      if LogicalSlot(s) && s.database !in before then before + [s.database] else before
  }

  lemma {:induction false} UniqueIs(slots: seq<Slot>, n: nat)
    requires n <= |slots|
    ensures NoDuplicates(Unique(slots, n)) && "" !in Unique(slots, n)
    ensures Elements(Unique(slots, n)) == Logical(slots[..n])
  {
    if n > 0 {
      UniqueIs(slots, n - 1);
      var before, s := Unique(slots, n - 1), slots[n - 1];
      assert slots[..n] == slots[..n - 1] + [s];
      assert Logical(slots[..n]) == Logical(slots[..n - 1]) + (if LogicalSlot(s) then {s.database} else {});
      assert s.database in before <==> s.database in Elements(before);
    }
  }

  /** uniqueLogicalDatabases */
  method UniqueLogicalDatabases(slots: seq<Slot>) returns (databases: seq<string>)
    ensures databases == Unique(slots, |slots|)
    ensures NoDuplicates(databases) && "" !in databases && Elements(databases) == Logical(slots)
  {
    hide NoDuplicates, Logical;
    databases := [];
    var seen: set<string> := {};
    for i := 0 to |slots|
      invariant databases == Unique(slots, i)
      invariant forall d :: d in databases <==> d in seen
    {
      var slot := slots[i];
      if slot.kind == "logical" && slot.database != "" && slot.database !in seen {
        seen := seen + {slot.database};
        databases := databases + [slot.database];
      }
    }
    UniqueIs(slots, |slots|);
    assert slots[..|slots|] == slots;
  }

  /** Which databases are read-only, and the saved record, if any. */
  datatype State = State(readOnly: set<string>, record: Option<string>)

  // ------------------------------------------------------ before the upgrade

  /** How the cluster answers one preparation: for the i-th database the two
      statements may fail; the slots may be unreadable, the record unsavable,
      and the lag may never vanish. */
  datatype PrepareAnswers = PrepareAnswers(
    slots: Option<seq<Slot>>,
    setFails: nat -> bool,
    terminateFails: nat -> bool,
    saveFails: bool,
    lagVanishes: bool)

  /** The databases made read-only before the first failing statement. */
  function MadeReadOnly(databases: seq<string>, w: PrepareAnswers, i: nat): (n: nat)
    requires i <= |databases|
    ensures i <= n <= |databases|
    decreases |databases| - i
  {
    if i == |databases| || w.setFails(i) then i
    else if w.terminateFails(i) then i + 1
    else MadeReadOnly(databases, w, i + 1)
  }

  predicate PrepareFails(databases: seq<string>, w: PrepareAnswers, i: nat)
    requires i <= |databases|
    decreases |databases| - i
  {
    i < |databases| && (w.setFails(i) || w.terminateFails(i) || PrepareFails(databases, w, i + 1))
  }

  /** The databases a preparation turns to: none if it stops before. */
  ghost function Databases(w: PrepareAnswers): seq<string> {
    if w.slots.None? || Blocked(w.slots.value) then [] else Unique(w.slots.value, |w.slots.value|)
  }

  /** The databases a preparation makes read-only. */
  ghost function Touched(w: PrepareAnswers): set<string> {
    Elements(Databases(w)[..MadeReadOnly(Databases(w), w, 0)])
  }

  /** The preparation gets as far as saving its record. */
  ghost predicate Saves(w: PrepareAnswers) {
    Databases(w) != [] && !PrepareFails(Databases(w), w, 0) && !w.saveFails
  }

  ghost predicate PreparationSucceeds(w: PrepareAnswers) {
    && w.slots.Some?
    && (w.slots.value == [] || (!Blocked(w.slots.value) && w.lagVanishes && (Databases(w) != [] ==> Saves(w))))
  }

  /** The state after a preparation. */
  ghost function Prepared(s: State, w: PrepareAnswers): State {
    State(s.readOnly + Touched(w), if Saves(w) then Some(Join(Databases(w), ',')) else s.record)
  }

  class Upgrade {
    var readOnly: set<string>
    var record: Option<string>

    ghost function Current(): State
      reads this
    {
      State(readOnly, record)
    }

    /** prepareRODatabases */
    method PrepareRODatabases(databases: seq<string>, w: PrepareAnswers) returns (ok: bool)
      modifies this`readOnly
      ensures ok <==> !PrepareFails(databases, w, 0)
      ensures readOnly == old(readOnly) + Elements(databases[..MadeReadOnly(databases, w, 0)])
      ensures ok ==> MadeReadOnly(databases, w, 0) == |databases|
    {
      var i := 0;
      while i < |databases|
        invariant 0 <= i <= |databases|
        invariant readOnly == old(readOnly) + Elements(databases[..i])
        invariant PrepareFails(databases, w, 0) <==> PrepareFails(databases, w, i)
        invariant MadeReadOnly(databases, w, 0) == MadeReadOnly(databases, w, i)
      {
        if w.setFails(i) {
          return false;
        }
        assert databases[..i + 1] == databases[..i] + [databases[i]];
        readOnly := readOnly + {databases[i]};
        if w.terminateFails(i) {
          return false;
        }
        i := i + 1;
      }
      return true;
    }

    /** HandleReplicationSlotsBeforeUpgrade */
    method HandleReplicationSlots(w: PrepareAnswers) returns (ok: bool)
      modifies this
      ensures Current() == Prepared(old(Current()), w)
      ensures ok <==> PreparationSucceeds(w)
    {
      hide NoDuplicates, PrepareFails, MadeReadOnly;
      if w.slots.None? {
        return false;
      }
      var slots := w.slots.value;
      if |slots| == 0 {
        return true;
      }
      for i := 0 to |slots|
        invariant unchanged(this)
        invariant forall k :: 0 <= k < i ==> slots[k].active || slots[k].lag <= 0
      {
        if !slots[i].active && slots[i].lag > 0 {
          assert slots[i] in slots;
          return false;
        }
      }
      assert !Blocked(slots);
      var databases := UniqueLogicalDatabases(slots);
      assert databases == Databases(w);
      if |databases| > 0 {
        ok := PrepareRODatabases(databases, w);
        if !ok {
          return;
        }
        if w.saveFails {
          return false;
        }
        record := Some(Join(databases, ','));
      }
      return w.lagVanishes;
    }

    /** RestoreRODatabases */
    method RestoreRODatabases(a: RestoreAnswers) returns (ok: bool)
      modifies this
      ensures (ok, Current()) == Restored(old(Current()), a)
    {
      if a.getFails {
        return false;
      }
      if record.None? {
        return true;
      }
      hide Split;
      var databases := Split(record.value, ',');
      if databases[0] != "" {
        var i := 0;
        while i < |databases|
          invariant 0 <= i <= |databases|
          invariant record == old(record)
          invariant readOnly == old(readOnly) - Named(databases[..i])
          invariant FirstFailure(databases, a, 0) == FirstFailure(databases, a, i)
        {
          assert databases[..i + 1] == databases[..i] + [databases[i]];
          if databases[i] != "" {
            if a.unsetFails(i) {
              return false;
            }
            readOnly := readOnly - {databases[i]};
          }
          i := i + 1;
        }
      } else {
        assert readOnly == readOnly - Named(databases[..0]);
      }
      if a.deleteFails {
        return false;
      }
      record := None;
      return true;
    }
  }

  // ------------------------------------------------------- after the upgrade

  datatype RestoreAnswers = RestoreAnswers(getFails: bool, unsetFails: nat -> bool, deleteFails: bool)

  function FirstFailure(databases: seq<string>, a: RestoreAnswers, i: nat): (n: nat)
    requires i <= |databases|
    ensures i <= n <= |databases|
    decreases |databases| - i
  {
    if i == |databases| || (databases[i] != "" && a.unsetFails(i)) then i else FirstFailure(databases, a, i + 1)
  }

  ghost function Restored(s: State, a: RestoreAnswers): (bool, State) {
    if a.getFails then (false, s)
    else if s.record.None? then (true, s)
    else
      var databases := Split(s.record.value, ',');
      var n := if databases[0] == "" then 0 else FirstFailure(databases, a, 0);
      var after := s.readOnly - Named(databases[..n]);
      if databases[0] != "" && n < |databases| then (false, State(after, s.record))
      else if a.deleteFails then (false, State(after, s.record))
      else (true, State(after, None))
  }

  // -------------------------------------------------------------------- laws

  lemma DatabasesAre(w: PrepareAnswers)
    ensures NoDuplicates(Databases(w)) && "" !in Databases(w)
    ensures Elements(Databases(w)) == if w.slots.None? || Blocked(w.slots.value) then {} else Logical(w.slots.value)
  {
    hide Unique, Logical;
    if w.slots.Some? {
      UniqueIs(w.slots.value, |w.slots.value|);
      assert w.slots.value[..|w.slots.value|] == w.slots.value;
    }
  }

  lemma {:induction false} MadeAll(databases: seq<string>, w: PrepareAnswers, i: nat)
    requires i <= |databases| && !PrepareFails(databases, w, i)
    ensures MadeReadOnly(databases, w, i) == |databases|
    decreases |databases| - i
  {
    if i < |databases| {
      MadeAll(databases, w, i + 1);
    }
  }

  /** A saved record lists exactly the databases made read-only, none of them
      twice, whether or not the lag vanishes afterwards. */
  lemma RecordIsExact(s: State, w: PrepareAnswers)
    requires Saves(w)
    ensures Prepared(s, w) == State(s.readOnly + Elements(Databases(w)), Some(Join(Databases(w), ',')))
    ensures Touched(w) == Elements(Databases(w)) == Logical(w.slots.value)
    ensures NoDuplicates(Databases(w)) && "" !in Databases(w) && Databases(w) != []
  {
    hide NoDuplicates, Logical, Unique, Join;
    DatabasesAre(w);
    MadeAll(Databases(w), w, 0);
    assert Databases(w)[..|Databases(w)|] == Databases(w);
  }

  ghost predicate CommaFree(databases: seq<string>) {
    forall i :: 0 <= i < |databases| ==> Free(databases[i], ',')
  }

  /** Reading the record back returns the saved list exactly if no name holds a
      comma. */
  lemma RecordRoundTrip(databases: seq<string>)
    requires databases != []
    ensures Split(Join(databases, ','), ',') == databases <==> CommaFree(databases)
  {
    hide Split, Join, Free;
    SplitJoinIff(databases, ',');
  }

  /** With a comma in a name the record names other databases. */
  lemma CommaBreaksRecord()
    ensures Split(Join(["a,b"], ','), ',') == ["a", "b"]
  {
    assert "a,b" == "a" + ([','] + "b");
    SplitFirst("a", ',', "b");
    SplitFree("b", ',');
  }

  /** Non-empty database names that the record can hold. */
  ghost predicate Recordable(databases: seq<string>) {
    databases != [] && "" !in databases && CommaFree(databases)
  }

  ghost predicate RestoreSucceeds(databases: seq<string>, a: RestoreAnswers) {
    !a.getFails && !a.deleteFails && FirstFailure(databases, a, 0) == |databases|
  }

  /** One restore of a recorded state: if it goes through, everything recorded is
      writable and the record is gone; otherwise the record is kept and nothing
      else became writable. */
  lemma OneRestore(s: State, databases: seq<string>, a: RestoreAnswers)
    requires Recordable(databases) && s.record == Some(Join(databases, ','))
    ensures var (ok, t) := Restored(s, a);
            && s.readOnly - Elements(databases) <= t.readOnly <= s.readOnly
            && (ok <==> RestoreSucceeds(databases, a))
            && (if ok then t == State(s.readOnly - Elements(databases), None) else t.record == s.record)
  {
    hide Split, Join, FirstFailure, CommaFree;
    RecordRoundTrip(databases);
    var n := FirstFailure(databases, a, 0);
    assert databases[0] in databases;
    assert Named(databases[..n]) <= Elements(databases) && Named(databases) == Elements(databases);
    assert databases[..|databases|] == databases;
  }

  /** After n restores. */
  ghost function AfterRestores(s: State, answers: seq<RestoreAnswers>, n: nat): State
    requires n <= |answers|
  {
    if n == 0 then s else Restored(AfterRestores(s, answers, n - 1), answers[n - 1]).1
  }

  /** Any number of restores, failing half-way as they like: the record is gone
      exactly once a restore has gone through, and then every recorded database
      is writable again; other databases are never touched. */
  lemma {:induction false} RestoresConverge(s: State, databases: seq<string>, answers: seq<RestoreAnswers>, n: nat)
    requires Recordable(databases) && s.record == Some(Join(databases, ',')) && n <= |answers|
    ensures var t := AfterRestores(s, answers, n);
            && s.readOnly - Elements(databases) <= t.readOnly <= s.readOnly
            && (t.record == s.record || t == State(s.readOnly - Elements(databases), None))
            && (t.record == None <==> exists k :: 0 <= k < n && RestoreSucceeds(databases, answers[k]))
  {
    hide Join, Restored, RestoreSucceeds, Recordable, Elements;
    if n > 0 {
      RestoresConverge(s, databases, answers, n - 1);
      var t, a := AfterRestores(s, answers, n - 1), answers[n - 1];
      if t.record == s.record {
        OneRestore(t, databases, a);
      } else {
        NothingToRestore(t, a);
      }
      OneMore(databases, answers, n);
    }
  }

  lemma OneMore(databases: seq<string>, answers: seq<RestoreAnswers>, n: nat)
    requires 0 < n <= |answers|
    ensures (exists k :: 0 <= k < n && RestoreSucceeds(databases, answers[k])) <==>
            (exists k :: 0 <= k < n - 1 && RestoreSucceeds(databases, answers[k])) || RestoreSucceeds(databases, answers[n - 1])
  {
  }

  lemma NothingToRestore(s: State, a: RestoreAnswers)
    requires s.record == None
    ensures Restored(s, a).1 == s
  {
  }

  /** The whole protocol: a preparation that saved its record, then any restore
      that reports success. The record is gone; what the preparation made
      read-only is writable again exactly if no name holds a comma. */
  lemma ProtocolRestores(s: State, w: PrepareAnswers, a: RestoreAnswers)
    requires Saves(w) && Restored(Prepared(s, w), a).0
    ensures var t := Restored(Prepared(s, w), a).1;
            && t.record == None
            && (t.readOnly !! Touched(w) <==> CommaFree(Databases(w)))
            && (CommaFree(Databases(w)) ==> t.readOnly == s.readOnly - Touched(w))
  {
    hide Restored, Join, Saves, Databases, CommaFree, Touched, Prepared;
    var p, databases := Prepared(s, w), Databases(w);
    RecordIsExact(s, w);
    if CommaFree(databases) {
      OneRestore(p, databases, a);
    } else {
      CommaStaysReadOnly(p, databases, a);
    }
  }

  /** A database with a comma in its name is never restored. */
  lemma CommaStaysReadOnly(p: State, databases: seq<string>, a: RestoreAnswers)
    requires databases != [] && !CommaFree(databases) && p.record == Some(Join(databases, ','))
    requires Elements(databases) <= p.readOnly && Restored(p, a).0
    ensures Restored(p, a).1.record == None && !(Restored(p, a).1.readOnly !! Elements(databases))
  {
    hide Split, Join, Free, FirstFailure;
    var i :| 0 <= i < |databases| && !Free(databases[i], ',');
    var parts := Split(Join(databases, ','), ',');
    SplitPartsFree(Join(databases, ','), ',');
    assert databases[i] in Elements(databases) && databases[i] !in parts;
  }

  /** Starting without a record, a preparation leaves a read-only database that
      no record names exactly if its first statement worked and preparing or
      saving failed later. */
  lemma StrandedIff(s: State, w: PrepareAnswers)
    requires s.record == None
    ensures (Prepared(s, w).record == None && Touched(w) != {}) <==>
            Databases(w) != [] && !w.setFails(0) && (PrepareFails(Databases(w), w, 0) || w.saveFails)
  {
    hide Join, Databases;
    var databases := Databases(w);
    var n := MadeReadOnly(databases, w, 0);
    assert n > 0 ==> databases[..n][0] in Elements(databases[..n]);
  }

  // ------------------------------------------------- preparing more than once

  /** After the first n of several preparations. */
  ghost function AfterPreparations(s: State, ws: seq<PrepareAnswers>, n: nat): State
    requires n <= |ws|
  {
    if n == 0 then s else Prepared(AfterPreparations(s, ws, n - 1), ws[n - 1])
  }

  /** All that they made read-only, and what the last record lists. */
  ghost function AllTouched(ws: seq<PrepareAnswers>, n: nat): set<string>
    requires n <= |ws|
  {
    if n == 0 then {} else AllTouched(ws, n - 1) + Touched(ws[n - 1])
  }

  ghost function LastSaved(ws: seq<PrepareAnswers>, n: nat): seq<string>
    requires n <= |ws|
  {
    if n == 0 then [] else if Saves(ws[n - 1]) then Databases(ws[n - 1]) else LastSaved(ws, n - 1)
  }

  lemma {:induction false} PreparationsAddUp(s: State, ws: seq<PrepareAnswers>, n: nat)
    requires n <= |ws| && s.record == None
    ensures AfterPreparations(s, ws, n).readOnly == s.readOnly + AllTouched(ws, n)
    ensures AfterPreparations(s, ws, n).record == if LastSaved(ws, n) == [] then None else Some(Join(LastSaved(ws, n), ','))
    ensures "" !in LastSaved(ws, n)
  {
    hide Touched, Databases, Join;
    if n > 0 {
      PreparationsAddUp(s, ws, n - 1);
      DatabasesAre(ws[n - 1]);
    }
  }

  /** Any preparations, failing or not, then a restore that goes through: what
      they made read-only is all writable again exactly if the last saved record
      lists all of it. A later preparation overwrites the record. */
  lemma AllWritableIff(s: State, ws: seq<PrepareAnswers>, n: nat, a: RestoreAnswers)
    requires n <= |ws| && s.record == None && LastSaved(ws, n) != [] && CommaFree(LastSaved(ws, n))
    requires RestoreSucceeds(LastSaved(ws, n), a)
    ensures Restored(AfterPreparations(s, ws, n), a)
            == (true, State(s.readOnly + AllTouched(ws, n) - Elements(LastSaved(ws, n)), None))
    ensures Restored(AfterPreparations(s, ws, n), a).1.readOnly !! AllTouched(ws, n)
            <==> AllTouched(ws, n) <= Elements(LastSaved(ws, n))
  {
    hide Restored, RestoreSucceeds, AfterPreparations, AllTouched, LastSaved, CommaFree, Join;
    PreparationsAddUp(s, ws, n);
    OneRestore(AfterPreparations(s, ws, n), LastSaved(ws, n), a);
  }

  /** For two saved preparations: the first one's databases come back exactly if
      the second one lists them too. */
  lemma SecondPreparationForgets(s: State, first: PrepareAnswers, second: PrepareAnswers, a: RestoreAnswers)
    requires s.record == None && Saves(first) && Saves(second) && CommaFree(Databases(second))
    requires RestoreSucceeds(Databases(second), a)
    ensures var t := Restored(Prepared(Prepared(s, first), second), a).1;
            t.record == None && (t.readOnly !! Touched(first) <==> Elements(Databases(first)) <= Elements(Databases(second)))
  {
    hide Restored, Join, CommaFree, Databases, Touched, Saves, RestoreSucceeds, Prepared;
    RecordIsExact(s, first);
    RecordIsExact(Prepared(s, first), second);
    OneRestore(Prepared(Prepared(s, first), second), Databases(second), a);
  }

  /** One logical slot, and nothing fails. */
  ghost function Smooth(database: string): PrepareAnswers {
    PrepareAnswers(Some([Slot(database, "logical", database, true, 0)]), (i: nat) => false, (i: nat) => false, false, true)
  }

  lemma SmoothSaves(database: string)
    requires database != ""
    ensures Saves(Smooth(database)) && Databases(Smooth(database)) == [database]
  {
    var w := Smooth(database);
    var slots := w.slots.value;
    assert !Blocked(slots);
    assert Unique(slots, 0) == [] && Unique(slots, 1) == [database];
    assert !PrepareFails([database], w, 1);
  }

  /** Two smooth preparations, the slot of "a" having gone in between, and a
      smooth restore: "a" stays read-only and no record names it. */
  lemma SecondPreparationStrands(a: RestoreAnswers)
    requires RestoreSucceeds(["b"], a)
    ensures Restored(Prepared(Prepared(State({}, None), Smooth("a")), Smooth("b")), a) == (true, State({"a"}, None))
  {
    hide Restored, Join, Databases, Touched, Saves, RestoreSucceeds, Prepared, Smooth;
    SmoothSaves("a");
    SmoothSaves("b");
    var s := State({}, None);
    RecordIsExact(s, Smooth("a"));
    RecordIsExact(Prepared(s, Smooth("a")), Smooth("b"));
    var p := Prepared(Prepared(s, Smooth("a")), Smooth("b"));
    OneRestore(p, ["b"], a);
    assert p.readOnly - Elements(["b"]) == {"a"} by {
      assert "a"[0] != "b"[0];
      assert p.readOnly == {} + Elements(["a"]) + Elements(["b"]);
    }
  }

  // ------------------------------------------------------------ on the fields

  /** An inactive slot that lags stops the preparation before it does anything; so
      do unreadable slots. */
  lemma LaggingSlotStops(s: State, w: PrepareAnswers)
    requires w.slots == None || exists i :: 0 <= i < |w.slots.value| && !w.slots.value[i].active && w.slots.value[i].lag > 0
    ensures Prepared(s, w) == s && !PreparationSucceeds(w)
  {
    if w.slots.Some? {
      assert Blocked(w.slots.value);
    }
    assert Databases(w) == [];
  }

  /** Slots that do not forbid the upgrade, and no statement fails. */
  ghost predicate Unhindered(w: PrepareAnswers) {
    && w.slots.Some? && (forall i :: 0 <= i < |w.slots.value| ==> w.slots.value[i].active || w.slots.value[i].lag <= 0)
    && !w.saveFails && forall i: nat :: !w.setFails(i) && !w.terminateFails(i)
  }

  lemma {:induction false} NothingFails(databases: seq<string>, w: PrepareAnswers, i: nat)
    requires Unhindered(w) && i <= |databases|
    ensures !PrepareFails(databases, w, i)
    decreases |databases| - i
  {
    if i < |databases| {
      NothingFails(databases, w, i + 1);
    }
  }

  /** An unhindered preparation makes read-only exactly the databases that some
      logical slot names; it saves a record exactly if there is one, and succeeds
      exactly if the lag vanishes or there are no slots at all. */
  lemma PreparesLogical(s: State, w: PrepareAnswers, d: string)
    requires Unhindered(w)
    ensures d in Prepared(s, w).readOnly <==> d in s.readOnly || (d != "" && NamedByLogical(w.slots.value, d))
    ensures Saves(w) <==> exists x :: x != "" && NamedByLogical(w.slots.value, x)
    ensures PreparationSucceeds(w) <==> w.slots.value == [] || w.lagVanishes
  {
    hide Unique, Join;
    var slots := w.slots.value;
    assert !Blocked(slots);
    DatabasesAre(w);
    NothingFails(Databases(w), w, 0);
    assert forall x :: x in Logical(slots) <==> x != "" && NamedByLogical(slots, x);
    assert Databases(w) != [] ==> Databases(w)[0] in Elements(Databases(w));
    if Saves(w) {
      RecordIsExact(s, w);
    }
  }

  ghost predicate NamedByLogical(slots: seq<Slot>, d: string) {
    exists i :: 0 <= i < |slots| && slots[i].kind == "logical" && slots[i].database == d
  }

  /** A restore goes through exactly if the record can be read and deleted and no
      statement for a recorded database fails. */
  lemma {:induction false} NoFailureIff(databases: seq<string>, a: RestoreAnswers, i: nat)
    requires i <= |databases| && "" !in databases
    ensures FirstFailure(databases, a, i) == |databases| <==> forall j :: i <= j < |databases| ==> !a.unsetFails(j)
    decreases |databases| - i
  {
    if i < |databases| {
      assert databases[i] in databases;
      NoFailureIff(databases, a, i + 1);
    }
  }

  lemma RestoreSucceedsIff(databases: seq<string>, a: RestoreAnswers)
    requires "" !in databases
    ensures RestoreSucceeds(databases, a) <==>
      !a.getFails && !a.deleteFails && forall j :: 0 <= j < |databases| ==> !a.unsetFails(j)
  {
    NoFailureIff(databases, a, 0);
  }

  /** A preparation fails exactly if one of its statements does. */
  lemma {:induction false} PrepareFailsIff(databases: seq<string>, w: PrepareAnswers, i: nat)
    requires i <= |databases|
    ensures PrepareFails(databases, w, i) <==> exists j :: i <= j < |databases| && (w.setFails(j) || w.terminateFails(j))
    decreases |databases| - i
  {
    if i < |databases| {
      PrepareFailsIff(databases, w, i + 1);
    }
  }

  /** Database j is made read-only exactly if that statement works and no statement
      of an earlier database fails. */
  lemma {:induction false} MadeReadOnlyIff(databases: seq<string>, w: PrepareAnswers, i: nat, j: nat)
    requires i <= j < |databases|
    ensures j < MadeReadOnly(databases, w, i) <==>
      !w.setFails(j) && forall k :: i <= k < j ==> !w.setFails(k) && !w.terminateFails(k)
    decreases |databases| - i
  {
    if i < j && !w.setFails(i) && !w.terminateFails(i) {
      MadeReadOnlyIff(databases, w, i + 1, j);
    }
  }
}
