/** Bounded retries of the PatroniServices reconciler
    (operator/controllers/postgresservice_controller.go, operator/controllers/conditions.go). */
module ReconcileRetry {

  datatype Condition = NoCondition | InProgress | Successful | Failed

  /** The reconciler's fields and the first condition of the resource. */
  datatype State = State(errorCounter: int, crHash: string, versions: map<string, string>, condition: Condition)

  datatype Creds = CredsUnknown | CredsChanged | CredsSame

  /** How the resource is read: the status write after a failed read may fail
      too, and so may the preparation of the helper after a good one. */
  datatype Fetch = Fetched | NotFound | FetchFails(writeOk: bool) | SetupFails

  /** How the reconcile cycle proper ends: it fails into handleReconcileError, a
      later step fails, or it succeeds; or the new password cannot be set before
      it even starts. A resource that only asks for tests passes them, or its
      test pods cannot be created; failing tests count as a failing cycle. */
  datatype Cycle = PasswordFails | CycleFails | LateFails | Succeeds | TestsBreak | TestsPass

  /** What Reconcile answers: come back after a minute, and was there an error. */
  datatype Reply = Reply(again: bool, error: bool)

  /** One call of Reconcile: the resource as read, and the answers it meets. */
  datatype Call = Call(
    fetch: Fetch,
    name: string,
    version: string,
    hash: string,
    external: bool,
    creds: Creds,
    startWriteOk: bool,
    endWriteOk: bool,
    cycle: Cycle)

  // ---------------------------------------------------------- specification

  function VersionOf(s: State, name: string): string {
    if name in s.versions then s.versions[name] else ""
  }

  /** The guard at the top of Reconcile. */
  predicate LooksDone(s: State, c: Call) {
    && (VersionOf(s, c.name) == c.version || s.crHash == c.hash)
    && !s.condition.NoCondition?
    && (!s.condition.Failed? || s.errorCounter == 0)
  }

  /** The call stops at the guard. */
  predicate Skips(s: State, c: Call) {
    c.fetch.Fetched? && LooksDone(s, c) && (c.external || !c.creds.CredsChanged?)
  }

  /** The call gets past the guard and announces itself. */
  predicate Starts(s: State, c: Call) {
    c.fetch.Fetched? && !Skips(s, c) && c.startWriteOk
  }

  /** The reconcile cycle proper runs. */
  predicate Runs(s: State, c: Call) {
    Starts(s, c) && !c.cycle.PasswordFails?
  }

  function Written(s: State, ok: bool, condition: Condition): State {
    if ok then s.(condition := condition) else s
  }

  function AfterFailure(s: State, limit: int, hash: string, writeOk: bool): State {
    if s.errorCounter + 1 < limit then Written(s.(errorCounter := s.errorCounter + 1), writeOk, Failed)
    else Written(s.(errorCounter := 0, crHash := hash), writeOk, Failed)
  }

  function After(s: State, limit: int, c: Call): State {
    if c.fetch.FetchFails? then Written(s, c.fetch.writeOk, Failed)
    else if !Starts(s, c) then s
    else AfterCycle(s.(condition := InProgress, crHash := c.hash), limit, c)
  }

  function AfterCycle(s: State, limit: int, c: Call): State {
    match c.cycle
    case PasswordFails => s
    case CycleFails => AfterFailure(s, limit, c.hash, c.endWriteOk)
    case LateFails => s
    case Succeeds => Written(s.(errorCounter := 0, versions := s.versions[c.name := c.version]), c.endWriteOk, Successful)
    case TestsBreak => Written(s, c.endWriteOk, Failed)
    case TestsPass => Written(s.(versions := s.versions[c.name := c.version]), c.endWriteOk, Successful)
  }

  /** failReconcile returns the error it reports, also when no attempt is left. */
  function FailureReply(s: State, limit: int, writeOk: bool): Reply {
    Reply(!writeOk || s.errorCounter + 1 < limit, true)
  }

  function Replied(s: State, limit: int, c: Call): Reply {
    match c.fetch
    case NotFound => Reply(false, false)
    case FetchFails(_) => Reply(true, true)
    case SetupFails => Reply(false, true)
    case Fetched =>
      if Skips(s, c) then Reply(false, !c.external && c.creds.CredsUnknown?)
      else if !c.startWriteOk then Reply(true, true)
      else CycleReply(s, limit, c)
  }

  function CycleReply(s: State, limit: int, c: Call): Reply {
    match c.cycle
    case PasswordFails => Reply(false, false)
    case CycleFails => FailureReply(s, limit, c.endWriteOk)
    case LateFails => Reply(true, true)
    case TestsBreak => Reply(!c.endWriteOk, true)
    case Succeeds => Reply(!c.endWriteOk, !c.endWriteOk)
    case TestsPass => Reply(!c.endWriteOk, !c.endWriteOk)
  }

  class Reconciler {
    const limit: int
    var errorCounter: int
    var crHash: string
    var versions: map<string, string>
    var condition: Condition

    ghost function Current(): State
      reads this
    {
      State(errorCounter, crHash, versions, condition)
    }

    method UpdateStatus(c: Condition, ok: bool)
      modifies this`condition
      ensures condition == if ok then c else old(condition)
    {
      if ok {
        condition := c;
      }
    }

    /** handleReconcileError, with stopReconcile and failReconcile */
    method HandleReconcileError(hash: string, writeOk: bool) returns (reply: Reply)
      modifies this
      ensures reply == FailureReply(old(Current()), limit, writeOk)
      ensures Current() == AfterFailure(old(Current()), limit, hash, writeOk)
    {
      var requeue := false;
      errorCounter := errorCounter + 1;
      if errorCounter < limit {
        requeue := true;
      } else {
        crHash := hash;
        errorCounter := 0;
      }
      UpdateStatus(Failed, writeOk);
      reply := Reply(requeue || !writeOk, true);
    }

    /** Reconcile, from the new password on. */
    method RunCycle(c: Call) returns (ran: bool, reply: Reply)
      modifies this
      ensures ran == !c.cycle.PasswordFails?
      ensures reply == CycleReply(old(Current()), limit, c)
      ensures Current() == AfterCycle(old(Current()), limit, c)
    {
      match c.cycle {
        case PasswordFails =>
          return false, Reply(false, false);
        case CycleFails =>
          reply := HandleReconcileError(c.hash, c.endWriteOk);
          return true, reply;
        case LateFails =>
          return true, Reply(true, true);
        case TestsBreak =>
          UpdateStatus(Failed, c.endWriteOk);
          return true, Reply(!c.endWriteOk, true);
        case TestsPass =>
          versions := versions[c.name := c.version];
          UpdateStatus(Successful, c.endWriteOk);
          return true, Reply(!c.endWriteOk, !c.endWriteOk);
        case Succeeds =>
          errorCounter := 0;
          versions := versions[c.name := c.version];
          UpdateStatus(Successful, c.endWriteOk);
          return true, Reply(!c.endWriteOk, !c.endWriteOk);
      }
    }

    /** Reconcile */
    method Reconcile(c: Call) returns (ran: bool, reply: Reply)
      modifies this
      ensures ran == Runs(old(Current()), c)
      ensures reply == Replied(old(Current()), limit, c)
      ensures Current() == After(old(Current()), limit, c)
    {
      hide AfterCycle;
      match c.fetch {
        case NotFound =>
          return false, Reply(false, false);
        case FetchFails(writeOk) =>
          UpdateStatus(Failed, writeOk);
          return false, Reply(true, true);
        case SetupFails =>
          return false, Reply(false, true);
        case Fetched =>
      }
      var known := if c.name in versions then versions[c.name] else "";
      if (known == c.version || crHash == c.hash) &&
         (condition != NoCondition && (condition != Failed || (condition == Failed && errorCounter == 0))) {
        if c.external {
          return false, Reply(false, false);
        }
        if c.creds.CredsUnknown? {
          return false, Reply(false, true);
        }
        if !c.creds.CredsChanged? {
          return false, Reply(false, false);
        }
      }
      if !c.startWriteOk {
        return false, Reply(true, true);
      }
      UpdateStatus(InProgress, true);
      crHash := c.hash;
      ran, reply := RunCycle(c);
    }
  }

  // -------------------------------------------------------------- whole runs

  ghost function Run(s: State, limit: int, calls: seq<Call>, n: nat): State
    requires n <= |calls|
  {
    if n == 0 then s else After(Run(s, limit, calls, n - 1), limit, calls[n - 1])
  }

  function Attempts(limit: int): int {
    if limit > 1 then limit else 1
  }

  /** Between calls the error counter is always below max(1, N), whatever the
      calls meet. */
  lemma {:induction false} CounterIsBounded(s: State, limit: int, calls: seq<Call>, n: nat)
    requires n <= |calls| && 0 <= s.errorCounter < Attempts(limit)
    ensures 0 <= Run(s, limit, calls, n).errorCounter < Attempts(limit)
  {
    if n > 0 {
      CounterIsBounded(s, limit, calls, n - 1);
    }
  }

  /** How many of the first n calls ran the cycle. */
  ghost function RunCount(s: State, limit: int, calls: seq<Call>, n: nat): nat
    requires n <= |calls|
  {
    if n == 0 then 0
    else RunCount(s, limit, calls, n - 1) + (if Runs(Run(s, limit, calls, n - 1), calls[n - 1]) then 1 else 0)
  }

  /** The same spec over and over, with unchanged credentials and successful
      status writes, each cycle failing. */
  ghost predicate KeepsFailing(c: Call, hash: string) {
    && c.fetch.Fetched? && c.hash == hash
    && (c.external || c.creds.CredsSame?)
    && c.startWriteOk && c.endWriteOk && c.cycle.CycleFails?
  }

  ghost predicate AllKeepFailing(calls: seq<Call>, hash: string) {
    forall k :: 0 <= k < |calls| ==> KeepsFailing(calls[k], hash)
  }

  /** The state in the middle of such a run, whatever it started from: earlier
      successes of this or another resource, and errors already counted. */
  lemma {:induction false} FailingRun(s: State, limit: int, hash: string, calls: seq<Call>, n: nat)
    requires 0 < n <= |calls| && !Skips(s, calls[0]) && AllKeepFailing(calls, hash)
    requires 0 <= s.errorCounter < Attempts(limit)
    ensures var t, errors := Run(s, limit, calls, n), s.errorCounter + n;
            && t.crHash == hash && t.condition.Failed? && t.versions == s.versions
            && t.errorCounter == (if errors < Attempts(limit) then errors else 0)
  {
    assert KeepsFailing(calls[n - 1], hash);
    if n > 1 {
      FailingRun(s, limit, hash, calls, n - 1);
    } else {
      assert Run(s, limit, calls, 0) == s;
    }
  }

  /** Once such a spec is taken up, the cycle runs in exactly the calls that use
      up the attempts left, and every later call is a skip. */
  lemma {:induction false} BoundedRetryThenQuiet(s: State, limit: int, hash: string, calls: seq<Call>, n: nat)
    requires n < |calls| && !Skips(s, calls[0]) && AllKeepFailing(calls, hash)
    requires 0 <= s.errorCounter < Attempts(limit)
    ensures Runs(Run(s, limit, calls, n), calls[n]) <==> n < Attempts(limit) - s.errorCounter
    ensures Skips(Run(s, limit, calls, n), calls[n]) <==> n >= Attempts(limit) - s.errorCounter
    ensures RunCount(s, limit, calls, n + 1) == (if n < Attempts(limit) - s.errorCounter then n + 1 else Attempts(limit) - s.errorCounter)
  {
    assert KeepsFailing(calls[n], hash);
    if n > 0 {
      FailingRun(s, limit, hash, calls, n);
      BoundedRetryThenQuiet(s, limit, hash, calls, n - 1);
    } else {
      assert RunCount(s, limit, calls, 0) == 0 && Run(s, limit, calls, 0) == s;
    }
  }

  /** A new spec is always taken up, also after the retries ran out: the case of
      the previous lemma in which a resource was reconciled before. */
  lemma NewSpecRuns(s: State, c: Call)
    requires c.fetch.Fetched? && c.startWriteOk && !c.cycle.PasswordFails?
    requires c.hash != s.crHash && VersionOf(s, c.name) != c.version
    ensures !Skips(s, c) && Runs(s, c)
  {
  }

  // ------------------------------------------------- when a spec is tried again

  /** The status reads Failed and the counter is not zero. */
  predicate LeftToRetry(s: State, limit: int, c: Call) {
    c.endWriteOk && ((c.cycle.CycleFails? && s.errorCounter + 1 < limit) || (c.cycle.TestsBreak? && s.errorCounter > 0))
  }

  /** After a call that started, the same spec is tried again exactly if the
      cycle failed with attempts left and that could be recorded (or the test
      pods could not be created amid such retries). All else is not retried,
      whatever the reply asked for. */
  lemma RetriedIff(s: State, limit: int, c: Call, again: Call)
    requires Starts(s, c) && s.errorCounter >= 0
    requires again.fetch.Fetched? && again.hash == c.hash && (again.external || !again.creds.CredsChanged?)
    ensures !Skips(After(s, limit, c), again) <==> LeftToRetry(s, limit, c)
  {
  }

  /** The same spec and credentials, if the resource can be read at all. */
  ghost predicate Repeats(c: Call, hash: string) {
    c.fetch.Fetched? ==> c.hash == hash && (c.external || !c.creds.CredsChanged?)
  }

  /** A failed read that gets recorded turns the condition to Failed. */
  ghost predicate RecordsBadRead(c: Call) {
    c.fetch.FetchFails? && c.fetch.writeOk
  }

  ghost predicate Silent(s: State, hash: string) {
    s.crHash == hash && !s.condition.NoCondition? && (s.condition.Failed? ==> s.errorCounter == 0)
  }

  lemma {:induction false} SilenceLasts(s: State, limit: int, hash: string, calls: seq<Call>, n: nat)
    requires n <= |calls| && Silent(s, hash) && forall k :: 0 <= k < |calls| ==> Repeats(calls[k], hash)
    requires s.errorCounter == 0 || forall k :: 0 <= k < |calls| ==> !RecordsBadRead(calls[k])
    ensures Silent(Run(s, limit, calls, n), hash) && Run(s, limit, calls, n).errorCounter == s.errorCounter
  {
    if n > 0 {
      SilenceLasts(s, limit, hash, calls, n - 1);
      assert Repeats(calls[n - 1], hash);
    }
  }

  /** What is not retried by the next call is not retried by any later one, unless
      errors are still counted and a failed read gets recorded as Failed. */
  lemma SilentForEver(s: State, limit: int, c: Call, calls: seq<Call>, n: nat)
    requires Starts(s, c) && s.errorCounter >= 0 && !LeftToRetry(s, limit, c)
    requires n < |calls| && forall k :: 0 <= k < |calls| ==> Repeats(calls[k], c.hash)
    requires After(s, limit, c).errorCounter == 0 || forall k :: 0 <= k < |calls| ==> !RecordsBadRead(calls[k])
    ensures !Runs(Run(After(s, limit, c), limit, calls, n), calls[n])
    ensures calls[n].fetch.Fetched? ==> Skips(Run(After(s, limit, c), limit, calls, n), calls[n])
  {
    SilenceLasts(After(s, limit, c), limit, c.hash, calls, n);
    assert Repeats(calls[n], c.hash);
  }

  /** The exception is real: a recorded bad read revives a silenced spec. */
  lemma BadReadRevives(s: State, limit: int, bad: Call, again: Call)
    requires s.errorCounter > 0 && RecordsBadRead(bad)
    requires again.fetch.Fetched? && again.startWriteOk && !again.cycle.PasswordFails?
    ensures Runs(After(s, limit, bad), again)
  {
  }

  /** Three failures that are not retried: the password cannot be set (the cycle
      has not even run), a step after the cycle fails, and a failure that cannot
      be recorded. The last two ask for a retry in vain. */
  lemma FailuresThatSilence(s: State, limit: int, c: Call, again: Call)
    requires Starts(s, c) && s.errorCounter >= 0
    requires again.fetch.Fetched? && again.hash == c.hash && (again.external || !again.creds.CredsChanged?)
    ensures c.cycle.PasswordFails? ==> !Runs(s, c) && Skips(After(s, limit, c), again)
    ensures c.cycle.LateFails? ==> Replied(s, limit, c) == Reply(true, true) && Skips(After(s, limit, c), again)
    ensures c.cycle.CycleFails? && !c.endWriteOk ==>
      Replied(s, limit, c) == Reply(true, true) && Skips(After(s, limit, c), again)
  {
    RetriedIff(s, limit, c, again);
  }

  // ------------------------------------------------------------ on the fields

  /** A call is a skip exactly if the resource was read, its version is the one last
      reconciled or its spec the one last taken up, it has a condition, which is
      not Failed unless no error is counted, and no changed credentials are found
      (an external database has none). */
  lemma SkipsIff(s: State, c: Call)
    ensures Skips(s, c) <==>
      && c.fetch == Fetched
      && ((if c.name in s.versions then s.versions[c.name] == c.version else c.version == "") || s.crHash == c.hash)
      && s.condition != NoCondition && (s.condition != Failed || s.errorCounter == 0)
      && (c.external || c.creds != CredsChanged)
  {
  }

  /** After a success the same version, and the same spec, are skipped. */
  lemma SuccessThenSkips(s: State, limit: int, c: Call, again: Call)
    requires Starts(s, c) && (c.cycle == Succeeds || c.cycle == TestsPass) && again.fetch == Fetched && (again.external || again.creds != CredsChanged)
    requires again.hash == c.hash || (again.name == c.name && again.version == c.version)
    ensures Skips(After(s, limit, c), again)
  {
  }

  /** A success gives the next spec its full attempts: whatever was counted before,
      if that spec keeps failing, its cycle runs in exactly the first max(1, N)
      calls. */
  lemma SuccessRestoresAttempts(s: State, limit: int, c: Call, hash: string, calls: seq<Call>, n: nat)
    requires Starts(s, c) && c.cycle == Succeeds
    requires n < |calls| && AllKeepFailing(calls, hash) && !Skips(After(s, limit, c), calls[0])
    ensures Runs(Run(After(s, limit, c), limit, calls, n), calls[n]) <==> n < limit || n == 0
    ensures Skips(Run(After(s, limit, c), limit, calls, n), calls[n]) <==> n >= limit && n > 0
  {
    BoundedRetryThenQuiet(After(s, limit, c), limit, hash, calls, n);
  }

  /** No error is returned exactly if there is no resource, the call is a skip that
      could read the credentials, the password could not be set, or a success was
      recorded. A retry after a minute is asked for exactly if a read failed, a
      status could not be written, a step after the cycle failed, or the cycle
      failed with attempts left. */
  lemma RepliesOnFields(s: State, limit: int, c: Call)
    ensures !Replied(s, limit, c).error <==>
      || c.fetch == NotFound
      || (Skips(s, c) && (c.external || c.creds != CredsUnknown))
      || (Starts(s, c) && (c.cycle == PasswordFails || ((c.cycle == Succeeds || c.cycle == TestsPass) && c.endWriteOk)))
    ensures Replied(s, limit, c).again <==>
      || c.fetch.FetchFails?
      || (c.fetch == Fetched && !Skips(s, c) && !c.startWriteOk)
      || (Starts(s, c) &&
          (|| c.cycle == LateFails
           || (c.cycle != PasswordFails && !c.endWriteOk)
           || (c.cycle == CycleFails && s.errorCounter + 1 < limit)))
  {
  }

  /** The state after a call, field by field. A call that does not start changes
      nothing, except that a failed read is recorded if it can be. A started one
      takes up the spec; a success stores the version; only the cycle proper moves
      the error counter; and a condition that cannot be written stays InProgress. */
  lemma AfterOnFields(s: State, limit: int, c: Call)
    ensures !Starts(s, c) ==>
      After(s, limit, c) == if c.fetch == FetchFails(true) then s.(condition := Failed) else s
    ensures Starts(s, c) ==>
      var t := After(s, limit, c);
      && t.crHash == c.hash
      && t.versions == (if c.cycle == Succeeds || c.cycle == TestsPass then s.versions[c.name := c.version] else s.versions)
      && t.errorCounter == (match c.cycle
                            case Succeeds => 0
                            case CycleFails => if s.errorCounter + 1 < limit then s.errorCounter + 1 else 0
                            case _ => s.errorCounter)
      && t.condition == (if c.cycle == PasswordFails || c.cycle == LateFails || !c.endWriteOk then InProgress
                         else if c.cycle == Succeeds || c.cycle == TestsPass then Successful else Failed)
  {
  }
}
