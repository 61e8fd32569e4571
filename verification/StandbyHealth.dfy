/** Switching a site to standby: the health debounce and the status it guards
    (operator/pkg/disasterrecovery/patroni.go). */
module StandbyHealth {
  import opened Division

  /** The custom resource: unreadable, or with its two retry limits. */
  datatype Resource = Unreadable | Limits(retries: nat, failures: nat)

  // ---------------------------------------------------------- specification

  /** Unhealthy answers among the first n checks. */
  ghost function Failures(checks: nat -> bool, n: nat): nat {
    if n == 0 then 0 else Failures(checks, n - 1) + (if checks(n - 1) then 0 else 1)
  }

  /** The last r of the first n checks were all healthy. */
  ghost predicate Window(checks: nat -> bool, n: nat, r: nat) {
    r <= n && forall i: nat :: n - r <= i < n ==> checks(i)
  }

  /** A healthy window was seen before the failures ran out. */
  ghost predicate WindowInTime(checks: nat -> bool, n: nat, r: nat, f: nat) {
    Window(checks, n, r) && (r == 0 || Failures(checks, n) < f)
  }

  lemma {:induction false} FailuresGrow(checks: nat -> bool, m: nat, n: nat)
    requires m <= n
    ensures Failures(checks, m) <= Failures(checks, n)
  {
    if m < n {
      FailuresGrow(checks, m, n - 1);
    }
  }

  /** The healthy answers at the end of the first n checks. */
  ghost function Streak(checks: nat -> bool, n: nat): (k: nat)
    ensures k <= n
  {
    if n == 0 || !checks(n - 1) then 0 else Streak(checks, n - 1) + 1
  }

  lemma {:induction false} StreakIsWindow(checks: nat -> bool, n: nat, r: nat)
    requires r <= n
    ensures Window(checks, n, r) <==> r <= Streak(checks, n)
  {
    if r > 0 {
      if checks(n - 1) {
        StreakIsWindow(checks, n - 1, r - 1);
        assert Window(checks, n, r) <==> Window(checks, n - 1, r - 1) by {
          if Window(checks, n - 1, r - 1) {
            forall i: nat | n - r <= i < n
              ensures checks(i)
            {
            }
          }
        }
      }
    }
  }

  // ------------------------------------------------------------- the program

  datatype Verdict = Error | Healthy | Unhealthy

  /** waitForClusterHealthy: it ends within f * r checks, and it reports a healthy
      cluster exactly if r healthy checks in a row come before f failures. */
  method WaitForClusterHealthy(cr: Resource, checks: nat -> bool) returns (v: Verdict, used: nat)
    ensures v.Error? <==> cr.Unreadable?
    ensures cr.Limits? ==> used <= cr.failures * cr.retries
    ensures v.Healthy? ==> WindowInTime(checks, used, cr.retries, cr.failures)
    ensures v.Unhealthy? ==> Failures(checks, used) == cr.failures && forall n: nat :: !WindowInTime(checks, n, cr.retries, cr.failures)
  {
    used := 0;
    if cr.Unreadable? {
      return Error, used;
    }
    var retries: nat, failureRetries: nat := 0, 0;
    while true
      invariant retries == Streak(checks, used) <= cr.retries
      invariant failureRetries == Failures(checks, used) <= cr.failures
      invariant failureRetries == cr.failures ==> retries == 0
      invariant used <= failureRetries * cr.retries + retries
      invariant forall n: nat :: n < used ==> Streak(checks, n) < cr.retries
      decreases cr.failures - failureRetries, cr.retries - retries
    {
      if retries == cr.retries {
        StreakIsWindow(checks, used, cr.retries);
        Bounded(failureRetries, cr.failures, cr.retries, retries);
        return Healthy, used;
      }
      if failureRetries == cr.failures {
        NoWindow(checks, used, cr.retries, cr.failures);
        return Unhealthy, used;
      }
      used := used + 1;
      if checks(used - 1) {
        retries := retries + 1;
      } else {
        Spread(failureRetries, cr.retries);
        retries := 0;
        failureRetries := failureRetries + 1;
      }
    }
  }

  lemma Spread(a: int, r: int)
    ensures (a + 1) * r == a * r + r
  {
  }

  lemma Bounded(a: nat, f: nat, r: nat, k: nat)
    requires a <= f && k <= r && (a == f ==> k == 0)
    ensures a * r + k <= f * r
  {
    if a < f {
      MulMonotone(a + 1, f, r);
      Spread(a, r);
    }
  }

  lemma NoWindow(checks: nat -> bool, used: nat, r: nat, f: nat)
    requires r > 0 && Failures(checks, used) == f && Streak(checks, used) < r
    requires forall n: nat :: n < used ==> Streak(checks, n) < r
    ensures forall n: nat :: !WindowInTime(checks, n, r, f)
  {
    forall n: nat
      ensures !WindowInTime(checks, n, r, f)
    {
      if n <= used {
        if r <= n {
          StreakIsWindow(checks, n, r);
        }
      } else {
        FailuresGrow(checks, used, n);
      }
    }
  }

  /** One try of processStandByMode, as the environment plays it. */
  datatype Try = Try(terminateOk: bool, configOk: bool, reconcileOk: bool, cr: Resource, checks: nat -> bool)

  /** Some step of the try fails before the health of the cluster is known. */
  ghost predicate Breaks(t: Try, healthy: bool) {
    (healthy && !t.terminateOk) || !t.configOk || !t.reconcileOk || t.cr.Unreadable?
  }

  /** In this try a full healthy window was seen in time. */
  ghost predicate WindowSeen(t: Try) {
    t.cr.Limits? && exists n: nat :: WindowInTime(t.checks, n, t.cr.retries, t.cr.failures)
  }

  /** processStandByMode */
  method ProcessStandByMode(healthy: bool, t: Try) returns (done: bool, err: bool)
    ensures err <==> Breaks(t, healthy)
    ensures done <==> !Breaks(t, healthy) && WindowSeen(t)
  {
    if healthy && !t.terminateOk {
      return false, true;
    }
    if !t.configOk {
      return false, true;
    }
    if !t.reconcileOk {
      return false, true;
    }
    var v, used := WaitForClusterHealthy(t.cr, t.checks);
    if v.Error? {
      return false, true;
    }
    if v.Unhealthy? {
      return false, false;
    }
    return true, false;
  }

  /** Try k ends the poll well: nothing broke up to it, and it saw the window. */
  ghost predicate DoneAt(tries: seq<Try>, healthy: bool, k: nat) {
    && k < |tries| && WindowSeen(tries[k])
    && forall j :: 0 <= j <= k ==> !Breaks(tries[j], healthy)
  }

  /** PollUntilContextTimeout over the tries that fit before its deadline. */
  method PollStandBy(healthy: bool, tries: seq<Try>) returns (ok: bool)
    ensures ok <==> exists k: nat :: DoneAt(tries, healthy, k)
  {
    hide WindowSeen, Breaks;
    for k := 0 to |tries|
      invariant forall j :: 0 <= j < k ==> !WindowSeen(tries[j]) && !Breaks(tries[j], healthy)
    {
      var done, err := ProcessStandByMode(healthy, tries[k]);
      if err {
        return false;
      }
      if done {
        assert DoneAt(tries, healthy, k);
        return true;
      }
    }
    return false;
  }

  datatype Request = Request(reconciled: bool, healthy: bool, tries: seq<Try>, writeDoneOk: bool, writeFailedOk: bool)

  /** The poll of a request saw a full healthy window. */
  ghost predicate SawWindow(r: Request) {
    r.reconciled && exists k: nat :: DoneAt(r.tries, r.healthy, k)
  }

  class SiteManager {
    var mode: string
    var status: string

    /** changeMode("standby") */
    method ChangeToStandby(r: Request) returns (ok: bool)
      modifies this
      ensures mode == old(mode)
      ensures ok <==> SawWindow(r) && (mode == "standby" && old(status) != "done" ==> r.writeDoneOk)
      ensures status == if ok && mode == "standby" then "done" else old(status)
    {
      hide DoneAt;
      if !r.reconciled {
        return false;
      }
      var polled := PollStandBy(r.healthy, r.tries);
      if !polled {
        return false;
      }
      if mode == "standby" && status != "done" {
        if !r.writeDoneOk {
          return false;
        }
        status := "done";
      }
      return true;
    }

    /** processRequest for a standby request that was set to "running": it ends
        as "done" exactly if a full healthy window was seen (and the status could
        be written); otherwise the failure is recorded. */
    method ProcessStandbyRequest(r: Request)
      requires mode == "standby" && status == "running"
      modifies this
      ensures mode == "standby"
      ensures status == "done" <==> SawWindow(r) && r.writeDoneOk
      ensures status != "done" ==> status == (if r.writeFailedOk then "failed" else "running")
    {
      hide SawWindow;
      var ok := ChangeToStandby(r);
      if !ok {
        if r.writeFailedOk {
          status := "failed";
        }
      }
    }
  }

  // ------------------------------------------------------------ on the fields

  lemma {:induction false} FailuresCount(checks: nat -> bool, n: nat)
    ensures Failures(checks, n) == |set i: nat | i < n && !checks(i)|
  {
    if n > 0 {
      FailuresCount(checks, n - 1);
      var before, now := set i: nat | i < n - 1 && !checks(i), set i: nat | i < n && !checks(i);
      assert now == if checks(n - 1) then before else before + {n - 1};
    } else {
      assert (set i: nat | i < n && !checks(i)) == {};
    }
  }

  /** The try saw `retries` healthy checks in a row while fewer than `failures`
      checks had been unhealthy (no check is needed for none in a row). */
  ghost predicate SawHealthyRow(t: Try, n: nat) {
    && t.cr.Limits? && t.cr.retries <= n && (forall i: nat :: n - t.cr.retries <= i < n ==> t.checks(i))
    && (t.cr.retries == 0 || |set i: nat | i < n && !t.checks(i)| < t.cr.failures)
  }

  /** The poll ends well at try k exactly if that try saw such a row, and up to it
      every try could apply the configuration and reconcile, read its limits, and,
      on a healthy cluster, terminate the sessions. */
  lemma DoneAtIff(tries: seq<Try>, healthy: bool, k: nat)
    ensures DoneAt(tries, healthy, k) <==>
      && k < |tries| && (exists n: nat :: SawHealthyRow(tries[k], n))
      && forall j :: 0 <= j <= k ==> && tries[j].configOk && tries[j].reconcileOk && tries[j].cr != Unreadable
                                     && (healthy ==> tries[j].terminateOk)
  {
    if k < |tries| {
      forall n: nat
        ensures SawHealthyRow(tries[k], n) <==> tries[k].cr.Limits? && WindowInTime(tries[k].checks, n, tries[k].cr.retries, tries[k].cr.failures)
      {
        FailuresCount(tries[k].checks, n);
      }
    }
  }
}
