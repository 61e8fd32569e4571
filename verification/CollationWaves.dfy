/** Concurrent collation fixes, in waves of at most ten workers
    (operator/pkg/reconciler/patroni.go: runLocaleFixScript,
    fixCollationVersionForDB), as a state machine over every interleaving. */
module CollationWaves {
  import opened Sequences

  const LIMIT: nat := 10

  /** The goroutine of one database. A failed worker first reports its error,
      and only then the deferred wg.Done runs. */
  datatype Worker =
    | NotStarted
    | Working
    | Reporting
    | Finishing(failed: bool)
    | Finished(failed: bool)

  /** Where the main goroutine is. */
  datatype Pc = Launching | WaveWait | FinalWait | Draining | Returned(ok: bool)

  /** `wg` is the wait group's counter, `errChan` the buffered error channel (its
      capacity is the number of databases), `errors` what was read from it. */
  datatype State = State(
    workers: seq<Worker>,
    pc: Pc,
    next: nat,
    connCount: nat,
    wg: nat,
    errChan: seq<nat>,
    errors: seq<nat>)

  datatype Step =
    | Launch                       // wg.Add, connCount++, go
    | EndWave                      // wg.Wait returned, connCount = 0
    | EndLoop
    | Close                        // the last wg.Wait returned, close(errChan)
    | Drain                        // one error read
    | Return
    | Work(i: nat, fails: bool)    // a worker's statements end
    | Send(i: nat)                 // errChan <- err
    | Done(i: nat)                 // wg.Done

  function Start(n: nat): State {
    State(seq(n, _ => NotStarted), Launching, 0, 0, 0, [], [])
  }

  predicate Enabled(s: State, step: Step) {
    match step
    case Launch => s.pc.Launching? && s.next < |s.workers|
    case EndWave => s.pc.WaveWait? && s.wg == 0
    case EndLoop => s.pc.Launching? && s.next == |s.workers|
    case Close => s.pc.FinalWait? && s.wg == 0
    case Drain => s.pc.Draining? && s.errChan != []
    case Return => s.pc.Draining? && s.errChan == []
    case Work(i, _) => i < |s.workers| && s.workers[i].Working?
    case Send(i) => i < |s.workers| && s.workers[i].Reporting? && |s.errChan| < |s.workers|
    case Done(i) => i < |s.workers| && s.workers[i].Finishing? && s.wg > 0
  }

  function Apply(s: State, step: Step): State
    requires Enabled(s, step)
  {
    match step
    case Launch =>
      s.(workers := s.workers[s.next := Working], next := s.next + 1, connCount := s.connCount + 1, wg := s.wg + 1,
         pc := if s.connCount + 1 >= LIMIT then WaveWait else Launching)
    case EndWave => s.(connCount := 0, pc := Launching)
    case EndLoop => s.(pc := FinalWait)
    case Close => s.(pc := Draining)
    case Drain => s.(errors := s.errors + [s.errChan[0]], errChan := s.errChan[1..])
    case Return => s.(pc := Returned(|s.errors| == 0))
    case Work(i, fails) => s.(workers := s.workers[i := if fails then Reporting else Finishing(false)])
    case Send(i) => s.(workers := s.workers[i := Finishing(true)], errChan := s.errChan + [i])
    case Done(i) => s.(workers := s.workers[i := Finished(s.workers[i].failed)], wg := s.wg - 1)
  }

  // --------------------------------------------------------------- invariant

  predicate Active(w: Worker) {
    w.Working? || w.Reporting? || w.Finishing?
  }

  function CountActive(workers: seq<Worker>): nat {
    if workers == [] then 0
    else CountActive(workers[..|workers| - 1]) + (if Active(workers[|workers| - 1]) then 1 else 0)
  }

  predicate Reported(w: Worker) {
    (w.Finishing? || w.Finished?) && w.failed
  }

  /** The main goroutine's bookkeeping. */
  ghost predicate MainInv(s: State) {
    && s.next <= |s.workers|
    && s.wg <= s.connCount <= LIMIT
    && (s.pc.Launching? ==> s.connCount < LIMIT)
    && (s.pc.FinalWait? || s.pc.Draining? || s.pc.Returned? ==> s.next == |s.workers|)
    && (s.pc.Draining? || s.pc.Returned? ==> s.wg == 0)
    && (!s.pc.Draining? && !s.pc.Returned? ==> s.errors == [])
    && (s.pc.Returned? ==> s.errChan == [] && (s.pc.ok <==> s.errors == []))
  }

  /** Workers start in order, and the wait group counts the active ones. */
  ghost predicate WorkerInv(s: State) {
    && (forall i :: 0 <= i < |s.workers| ==> (s.workers[i].NotStarted? <==> i >= s.next))
    && s.wg == CountActive(s.workers)
  }

  /** The reported errors are in the channel or already read, each once. */
  ghost predicate ErrorInv(s: State) {
    && NoDuplicates(s.errChan + s.errors)
    && (forall i: nat :: i in s.errChan + s.errors <==> i < |s.workers| && Reported(s.workers[i]))
  }

  ghost predicate Inv(s: State) {
    MainInv(s) && WorkerInv(s) && ErrorInv(s)
  }

  lemma {:induction false} NoneActive(workers: seq<Worker>)
    requires forall i :: 0 <= i < |workers| ==> !Active(workers[i])
    ensures CountActive(workers) == 0
  {
    if workers != [] {
      NoneActive(workers[..|workers| - 1]);
    }
  }

  lemma {:induction false} SomeActive(workers: seq<Worker>, i: nat)
    requires i < |workers| && Active(workers[i])
    ensures CountActive(workers) > 0
  {
    if i < |workers| - 1 {
      SomeActive(workers[..|workers| - 1], i);
    }
  }

  lemma {:induction false} FindActive(workers: seq<Worker>) returns (i: nat)
    requires CountActive(workers) > 0
    ensures i < |workers| && Active(workers[i])
  {
    if Active(workers[|workers| - 1]) {
      i := |workers| - 1;
    } else {
      i := FindActive(workers[..|workers| - 1]);
    }
  }

  lemma {:induction false} CountUpdate(workers: seq<Worker>, i: nat, w: Worker)
    requires i < |workers|
    ensures CountActive(workers[i := w]) ==
            CountActive(workers) - (if Active(workers[i]) then 1 else 0) + (if Active(w) then 1 else 0)
  {
    var n := |workers| - 1;
    if i == n {
      assert workers[i := w][..n] == workers[..n];
    } else {
      CountUpdate(workers[..n], i, w);
      assert workers[i := w][..n] == workers[..n][i := w];
    }
  }

  lemma StartInv(n: nat)
    ensures Inv(Start(n))
  {
    NoneActive(Start(n).workers);
  }

  lemma MainStep(s: State, step: Step)
    requires Inv(s) && Enabled(s, step)
    ensures MainInv(Apply(s, step))
  {
    if step.Work? {
      SomeActive(s.workers, step.i);
    } else if step.Send? {
      SomeActive(s.workers, step.i);
    }
  }

  lemma WorkerStep(s: State, step: Step)
    requires Inv(s) && Enabled(s, step)
    ensures WorkerInv(Apply(s, step))
  {
    hide ErrorInv, MainInv;
    match step {
      case Launch => CountUpdate(s.workers, s.next, Working);
      case Work(i, fails) => CountUpdate(s.workers, i, if fails then Reporting else Finishing(false));
      case Send(i) => CountUpdate(s.workers, i, Finishing(true));
      case Done(i) => CountUpdate(s.workers, i, Finished(s.workers[i].failed));
      case _ =>
    }
  }

  lemma ErrorStep(s: State, step: Step)
    requires Inv(s) && Enabled(s, step)
    ensures ErrorInv(Apply(s, step))
  {
    hide CountActive;
    var t := Apply(s, step);
    if step.Send? {
      assert step.i !in s.errChan + s.errors;
      SomeActive(s.workers, step.i);
      assert s.errors == [];
      assert t.errChan + t.errors == s.errChan + s.errors + [step.i];
    } else if step.Drain? {
      DrainKeeps(s.errChan, s.errors);
    } else {
      assert t.errChan + t.errors == s.errChan + s.errors;
    }
  }

  lemma DrainKeeps(a: seq<nat>, b: seq<nat>)
    requires a != [] && NoDuplicates(a + b)
    ensures NoDuplicates(a[1..] + (b + [a[0]]))
    ensures forall i :: i in a[1..] + (b + [a[0]]) <==> i in a + b
  {
    assert a == [a[0]] + a[1..];
    var before, after := a + b, a[1..] + (b + [a[0]]);
    assert forall k :: 0 <= k < |after| - 1 ==> after[k] == before[k + 1];
    assert after[|after| - 1] == before[0];
    forall i
      ensures i in after <==> i in before
    {
      assert i in before <==> i == a[0] || i in a[1..] || i in b;
    }
  }

  lemma InvStep(s: State, step: Step)
    requires Inv(s) && Enabled(s, step)
    ensures Inv(Apply(s, step))
  {
    MainStep(s, step);
    WorkerStep(s, step);
    ErrorStep(s, step);
  }

  // -------------------------------------------------------------- whole runs

  /** The first k steps of a schedule are possible from the start. */
  ghost predicate Possible(n: nat, steps: seq<Step>, k: nat)
    requires k <= |steps|
    decreases k, 0
  {
    k == 0 || (Possible(n, steps, k - 1) && Enabled(Reached(n, steps, k - 1), steps[k - 1]))
  }

  ghost function Reached(n: nat, steps: seq<Step>, k: nat): State
    requires k <= |steps| && Possible(n, steps, k)
    decreases k, 1
  {
    if k == 0 then Start(n) else Apply(Reached(n, steps, k - 1), steps[k - 1])
  }

  lemma {:induction false} RunInv(n: nat, steps: seq<Step>, k: nat)
    requires k <= |steps| && Possible(n, steps, k)
    ensures Inv(Reached(n, steps, k)) && |Reached(n, steps, k).workers| == n
  {
    if k == 0 {
      StartInv(n);
    } else {
      RunInv(n, steps, k - 1);
      InvStep(Reached(n, steps, k - 1), steps[k - 1]);
    }
  }

  /** At most ten workers are in flight, at every moment of every interleaving. */
  lemma AtMostTenInFlight(n: nat, steps: seq<Step>, k: nat)
    requires k <= |steps| && Possible(n, steps, k)
    ensures CountActive(Reached(n, steps, k).workers) <= 10
  {
    RunInv(n, steps, k);
  }

  // -------------------------------------------------------------------- waves

  /** Starts are grouped by ten: the loop pauses after every tenth start, and no
      worker of an earlier wave is active any more. */
  ghost predicate WaveInv(s: State) {
    && s.connCount <= s.next
    && (s.pc.WaveWait? ==> s.connCount == 10 && s.next % 10 == 0)
    && (!s.pc.WaveWait? ==> s.connCount == s.next % 10)
    && (forall i :: 0 <= i < |s.workers| && Active(s.workers[i]) ==> i >= s.next - s.connCount)
  }

  lemma WaveStep(s: State, step: Step)
    requires Inv(s) && WaveInv(s) && Enabled(s, step)
    ensures WaveInv(Apply(s, step))
  {
    hide ErrorInv, CountActive;
    if step.EndWave? {
      forall i | 0 <= i < |s.workers|
        ensures !Active(s.workers[i])
      {
        if Active(s.workers[i]) {
          SomeActive(s.workers, i);
        }
      }
    }
  }

  lemma {:induction false} RunWaves(n: nat, steps: seq<Step>, k: nat)
    requires k <= |steps| && Possible(n, steps, k)
    ensures WaveInv(Reached(n, steps, k))
  {
    if k > 0 {
      RunInv(n, steps, k - 1);
      RunWaves(n, steps, k - 1);
      WaveStep(Reached(n, steps, k - 1), steps[k - 1]);
    }
  }

  /** In every interleaving the loop pauses only when a multiple of ten databases
      is started, or all are; and whenever it goes on, the workers of all complete
      waves have finished. */
  lemma WavesOfTen(n: nat, steps: seq<Step>, k: nat)
    requires k <= |steps| && Possible(n, steps, k)
    ensures var s := Reached(n, steps, k);
      && (s.pc.WaveWait? ==> s.next > 0 && s.next % 10 == 0)
      && (s.pc.FinalWait? ==> s.next == n)
      && (s.pc.Launching? && s.next % 10 == 0 ==> CountActive(s.workers) == 0)
      && (s.pc.Launching? ==> forall i :: 0 <= i < s.next - s.next % 10 && i < |s.workers| ==> s.workers[i].Finished?)
  {
    hide ErrorInv, CountActive;
    RunInv(n, steps, k);
    RunWaves(n, steps, k);
    var s := Reached(n, steps, k);
    if s.pc.Launching? && s.next % 10 == 0 {
      NoneActive(s.workers);
    }
  }

  /** The bound is met: with ten databases or more, ten starts in a row lead to ten
      active workers. */
  lemma {:induction false} TenAtOnce(n: nat, k: nat)
    requires k <= 10 <= n
    ensures var steps := seq(10, _ => Launch);
      && Possible(n, steps, k)
      && CountActive(Reached(n, steps, k).workers) == k
      && Reached(n, steps, k).next == k
      && (k < 10 ==> Reached(n, steps, k).pc.Launching?)
  {
    hide CountActive;
    var steps := seq(10, _ => Launch);
    if k > 0 {
      TenAtOnce(n, k - 1);
      RunInv(n, steps, k - 1);
      RunWaves(n, steps, k - 1);
      var s := Reached(n, steps, k - 1);
      assert Enabled(s, Launch);
      CountUpdate(s.workers, s.next, Working);
    } else {
      NoneActive(Start(n).workers);
    }
  }

  /** A worker that wants to report never finds the channel full. */
  lemma SendNeverBlocks(n: nat, steps: seq<Step>, k: nat, i: nat)
    requires k <= |steps| && Possible(n, steps, k)
    requires i < n && |Reached(n, steps, k).workers| == n && Reached(n, steps, k).workers[i].Reporting?
    ensures |Reached(n, steps, k).errChan| < n && Enabled(Reached(n, steps, k), Send(i))
  {
    RunInv(n, steps, k);
    var s := Reached(n, steps, k);
    assert i !in s.errChan + s.errors;
    PrefixDifferent(s.errChan, s.errors);
    Pigeonhole(s.errChan, n, i);
  }

  lemma PrefixDifferent(a: seq<nat>, b: seq<nat>)
    requires NoDuplicates(a + b)
    ensures NoDuplicates(a) && forall x :: x in a ==> x in a + b
  {
    assert forall j :: 0 <= j < |a| ==> a[j] == (a + b)[j];
  }

  lemma Pigeonhole(s: seq<nat>, n: nat, missing: nat)
    requires NoDuplicates(s) && missing < n && missing !in s
    requires forall x :: x in s ==> x < n
    ensures |s| < n
  {
    var present := Elements(s);
    ElementsCount(s);
    RangeIs(n);
    assert present <= Range(n) - {missing};
    SubsetSize(present, Range(n) - {missing});
  }

  ghost function Range(n: nat): set<nat> {
    if n == 0 then {} else Range(n - 1) + {n - 1}
  }

  lemma {:induction false} RangeIs(n: nat)
    ensures |Range(n)| == n && forall x: nat :: x in Range(n) <==> x < n
  {
    if n > 0 {
      RangeIs(n - 1);
    }
  }

  /** How often database i is started within the first k steps. */
  ghost function Launches(n: nat, steps: seq<Step>, k: nat, i: nat): nat
    requires k <= |steps| && Possible(n, steps, k)
  {
    if k == 0 then 0
    else
      Launches(n, steps, k - 1, i) +
      (if steps[k - 1].Launch? && Reached(n, steps, k - 1).next == i then 1 else 0)
  }

  /** Databases are started in order, each at most once. */
  lemma {:induction false} StartedInOrder(n: nat, steps: seq<Step>, k: nat, i: nat)
    requires k <= |steps| && Possible(n, steps, k)
    ensures Launches(n, steps, k, i) == if i < Reached(n, steps, k).next then 1 else 0
  {
    if k > 0 {
      StartedInOrder(n, steps, k - 1, i);
    }
  }

  ghost predicate SomeFailed(s: State) {
    exists i :: 0 <= i < |s.workers| && s.workers[i] == Finished(true)
  }

  /** When the fix returns, every database was started exactly once and has
      finished, and the result is nil exactly if no worker failed. */
  lemma ReturnIsFaithful(n: nat, steps: seq<Step>, k: nat)
    requires k <= |steps| && Possible(n, steps, k) && Reached(n, steps, k).pc.Returned?
    ensures forall i: nat :: i < n ==> Launches(n, steps, k, i) == 1
    ensures var s := Reached(n, steps, k);
            && |s.workers| == n
            && (forall i :: 0 <= i < n ==> s.workers[i].Finished?)
            && (s.pc.ok <==> !SomeFailed(s))
  {
    RunInv(n, steps, k);
    var s := Reached(n, steps, k);
    forall i: nat | i < n
      ensures s.workers[i].Finished? && Launches(n, steps, k, i) == 1
    {
      StartedInOrder(n, steps, k, i);
      if Active(s.workers[i]) {
        SomeActive(s.workers, i);
      }
    }
    if s.errors != [] {
      assert s.errors[0] in s.errChan + s.errors;
    }
    if SomeFailed(s) {
      var i :| 0 <= i < |s.workers| && s.workers[i] == Finished(true);
      assert i in s.errChan + s.errors;
    }
  }

  /** The statements of database i failed within the first k steps. */
  ghost predicate FailedIn(steps: seq<Step>, k: nat, i: nat)
    requires k <= |steps|
  {
    exists j :: 0 <= j < k && steps[j] == Work(i, true)
  }

  ghost predicate Troubled(w: Worker) {
    w.Reporting? || Reported(w)
  }

  lemma TroubleStep(s: State, step: Step, i: nat)
    requires WorkerInv(s) && Enabled(s, step) && i < |s.workers|
    ensures |Apply(s, step).workers| == |s.workers|
    ensures Troubled(Apply(s, step).workers[i]) <==> Troubled(s.workers[i]) || step == Work(i, true)
  {
    hide CountActive;
  }

  lemma FailedOneMore(steps: seq<Step>, k: nat, i: nat)
    requires 0 < k <= |steps|
    ensures FailedIn(steps, k, i) <==> FailedIn(steps, k - 1, i) || steps[k - 1] == Work(i, true)
  {
  }

  lemma {:induction false} TroubleIsFailure(n: nat, steps: seq<Step>, k: nat, i: nat)
    requires k <= |steps| && Possible(n, steps, k) && i < n
    ensures |Reached(n, steps, k).workers| == n
    ensures Troubled(Reached(n, steps, k).workers[i]) <==> FailedIn(steps, k, i)
  {
    hide Troubled, FailedIn, MainInv, WorkerInv, ErrorInv, Apply, Enabled;
    if k > 0 {
      TroubleIsFailure(n, steps, k - 1, i);
      RunInv(n, steps, k - 1);
      TroubleStep(Reached(n, steps, k - 1), steps[k - 1], i);
      FailedOneMore(steps, k, i);
    } else {
      NoTrouble(n, steps, i);
    }
  }

  lemma NoTrouble(n: nat, steps: seq<Step>, i: nat)
    requires i < n
    ensures !Troubled(Start(n).workers[i]) && !FailedIn(steps, 0, i)
  {
  }

  /** So the result is nil exactly if the statements of no database failed. */
  lemma NilIffNoneFailed(n: nat, steps: seq<Step>, k: nat)
    requires k <= |steps| && Possible(n, steps, k) && Reached(n, steps, k).pc.Returned?
    ensures Reached(n, steps, k).pc.ok <==> forall i: nat :: i < n ==> !FailedIn(steps, k, i)
  {
    ReturnIsFaithful(n, steps, k);
    var s := Reached(n, steps, k);
    forall i: nat | i < n
      ensures FailedIn(steps, k, i) <==> s.workers[i] == Finished(true)
    {
      TroubleIsFailure(n, steps, k, i);
    }
  }

  // ------------------------------------------------ no deadlock, termination

  /** Until it returns, some step is always possible. */
  lemma NeverStuck(n: nat, steps: seq<Step>, k: nat) returns (step: Step)
    requires k <= |steps| && Possible(n, steps, k) && !Reached(n, steps, k).pc.Returned?
    ensures Enabled(Reached(n, steps, k), step)
  {
    RunInv(n, steps, k);
    var s := Reached(n, steps, k);
    if s.wg > 0 {
      var i := FindActive(s.workers);
      match s.workers[i] {
        case Working => step := Work(i, false);
        case Reporting =>
          SendNeverBlocks(n, steps, k, i);
          step := Send(i);
        case _ => step := Done(i);
      }
    } else {
      match s.pc {
        case Launching => step := if s.next < n then Launch else EndLoop;
        case WaveWait => step := EndWave;
        case FinalWait => step := Close;
        case _ => step := if s.errChan != [] then Drain else Return;
      }
    }
  }

  function Remaining(w: Worker): nat {
    match w
    case NotStarted => 6
    case Working => 4
    case Reporting => 3
    case Finishing(_) => 1
    case Finished(_) => 0
  }

  function WorkLeft(workers: seq<Worker>): nat {
    if workers == [] then 0 else WorkLeft(workers[..|workers| - 1]) + Remaining(workers[|workers| - 1])
  }

  lemma {:induction false} WorkLeftUpdate(workers: seq<Worker>, i: nat, w: Worker)
    requires i < |workers|
    ensures WorkLeft(workers[i := w]) == WorkLeft(workers) - Remaining(workers[i]) + Remaining(w)
  {
    var n := |workers| - 1;
    if i == n {
      assert workers[i := w][..n] == workers[..n];
    } else {
      WorkLeftUpdate(workers[..n], i, w);
      assert workers[i := w][..n] == workers[..n][i := w];
    }
  }

  function PcRank(pc: Pc): nat {
    match pc
    case WaveWait => 4
    case Launching => 3
    case FinalWait => 2
    case Draining => 1
    case Returned(_) => 0
  }

  function Measure(s: State): nat {
    WorkLeft(s.workers) + |s.errChan| + PcRank(s.pc)
  }

  /** Every step makes progress, so every schedule is finite: it has at most
      6n + 3 steps. */
  lemma StepDecreases(s: State, step: Step)
    requires Inv(s) && Enabled(s, step)
    ensures Measure(Apply(s, step)) < Measure(s)
  {
    match step {
      case Launch => WorkLeftUpdate(s.workers, s.next, Working);
      case Work(i, fails) => WorkLeftUpdate(s.workers, i, if fails then Reporting else Finishing(false));
      case Send(i) => WorkLeftUpdate(s.workers, i, Finishing(true));
      case Done(i) => WorkLeftUpdate(s.workers, i, Finished(s.workers[i].failed));
      case _ =>
    }
  }

  lemma {:induction false} StartMeasure(workers: seq<Worker>)
    requires forall i :: 0 <= i < |workers| ==> workers[i] == NotStarted
    ensures WorkLeft(workers) == 6 * |workers|
  {
    if workers != [] {
      StartMeasure(workers[..|workers| - 1]);
    }
  }

  lemma {:induction false} RunsAreFinite(n: nat, steps: seq<Step>, k: nat)
    requires k <= |steps| && Possible(n, steps, k)
    ensures k + Measure(Reached(n, steps, k)) <= 6 * n + 3
  {
    if k == 0 {
      StartMeasure(Start(n).workers);
    } else {
      RunsAreFinite(n, steps, k - 1);
      RunInv(n, steps, k - 1);
      StepDecreases(Reached(n, steps, k - 1), steps[k - 1]);
    }
  }
}
