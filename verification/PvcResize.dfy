/** Growing volume claims and restarting pods until the growth has taken effect
    (operator/pkg/helper/resource_management.go, operator/pkg/reconciler/patroni.go,
    operator/pkg/reconciler/backup_daemon.go).

    The cluster answers polls as it likes; time is counted in whole seconds. */
module PvcResize {
  import opened PvcAnnotations

  const JOB := "pvc-changed-by-job-from"

  /** A claim in the cluster; an unknown capacity is 0. */
  datatype Claim = Claim(request: nat, capacity: nat, owned: bool, annotations: Annotations)

  datatype Wanted = Wanted(name: string, request: nat, annotations: Annotations)

  datatype Quantity = Malformed | Bytes(bytes: nat)

  /** How the API server and the quantity parser answer one call. */
  datatype Api = Api(getFails: bool, createFails: bool, updateFails: bool, parse: string -> Quantity)

  datatype Result = Error | Done(inProgress: bool)

  // ------------------------------------------------------ CreateOrResizePvc

  /** checkPvcChangedByJobAnnotation refuses the claim. */
  predicate JobConflict(found: Claim, want: Wanted, api: Api) {
    JOB in found.annotations &&
    (api.parse(found.annotations[JOB]).Malformed? ||
     (api.parse(found.annotations[JOB]).bytes == want.request && found.request != want.request))
  }

  /** The claim that CreateOrResizePvc writes back. */
  ghost function Updated(found: Claim, want: Wanted): Claim {
    Claim(want.request, found.capacity, false, Reconciled(found.annotations - {JOB}, Prepared(want.annotations)))
  }

  predicate StillGrowing(found: Claim, want: Wanted) {
    found.request < want.request || (found.request == want.request && 0 < found.capacity < want.request)
  }

  ghost function CallResult(claims: map<string, Claim>, want: Wanted, api: Api): Result {
    if api.getFails then Error
    else if want.name !in claims then (if api.createFails then Error else Done(false))
    else
      var found := claims[want.name];
      if JobConflict(found, want, api) || want.request < found.request then Error
      else if NeedsUpdate(found, want) && api.updateFails then Error
      else Done(StillGrowing(found, want))
  }

  ghost predicate NeedsUpdate(found: Claim, want: Wanted) {
    || JOB in found.annotations
    || found.request < want.request
    || found.owned
    || Dropped(found.annotations - {JOB}, Prepared(want.annotations)) != {}
    || Reconciled(found.annotations - {JOB}, Prepared(want.annotations)) != found.annotations - {JOB}
  }

  ghost function ClaimsAfter(claims: map<string, Claim>, want: Wanted, api: Api): map<string, Claim> {
    if CallResult(claims, want, api).Error? then claims
    else if want.name !in claims then claims[want.name := Claim(want.request, 0, false, Prepared(want.annotations))]
    else claims[want.name := Updated(claims[want.name], want)]
  }

  class Cluster {
    var claims: map<string, Claim>

    /** CreateOrResizePvc */
    method CreateOrResizePvc(want: Wanted, api: Api) returns (r: Result)
      modifies this
      ensures r == CallResult(old(claims), want, api)
      ensures claims == ClaimsAfter(old(claims), want, api)
    {
      hide Reconciled, Prepared;
      var mine := new Pvc(want.annotations);
      mine.PrepareCustomAnnotations();
      var prepared := mine.annotations;
      if api.getFails {
        return Error;
      }
      if want.name !in claims {
        if api.createFails {
          return Error;
        }
        claims := claims[want.name := Claim(want.request, 0, false, prepared)];
        return Done(false);
      }
      var found := claims[want.name];
      var changed := false;
      var pvc := new Pvc(found.annotations);
      if JOB in found.annotations {
        var previous := api.parse(found.annotations[JOB]);
        if previous.Malformed? {
          return Error;
        }
        if previous.bytes == want.request && found.request != want.request {
          return Error;
        }
        pvc.annotations := found.annotations - {JOB};
        changed := true;
      }
      assert pvc.annotations == found.annotations - {JOB};
      var request, inProgress := found.request, false;
      if want.request > found.request {
        request, inProgress, changed := want.request, true, true;
      } else if want.request == found.request {
        if found.capacity != 0 && found.capacity < want.request {
          inProgress := true;
        }
      } else {
        return Error;
      }
      if found.owned {
        changed := true;
      }
      var annotated := pvc.ReconcileCustomAnnotations(prepared);
      if annotated {
        changed := true;
      }
      if !changed {
        assert claims[want.name := Updated(found, want)] == claims;
        return Done(inProgress);
      }
      if api.updateFails {
        return Error;
      }
      claims := claims[want.name := Claim(request, found.capacity, false, pvc.annotations)];
      return Done(inProgress);
    }
  }

  // ------------------------------------------------------ requests only grow

  /** Over any sequence of calls with any answers, no request ever shrinks, no
      claim disappears, and a failing call changes nothing. */
  ghost function Run(claims: map<string, Claim>, wants: seq<Wanted>, apis: nat -> Api, n: nat): map<string, Claim>
    requires n <= |wants|
  {
    if n == 0 then claims else ClaimsAfter(Run(claims, wants, apis, n - 1), wants[n - 1], apis(n - 1))
  }

  lemma {:induction false} RequestsGrow(claims: map<string, Claim>, wants: seq<Wanted>, apis: nat -> Api, m: nat, n: nat, name: string)
    requires m <= n <= |wants| && name in Run(claims, wants, apis, m)
    ensures name in Run(claims, wants, apis, n)
    ensures Run(claims, wants, apis, m)[name].request <= Run(claims, wants, apis, n)[name].request
  {
    hide Reconciled, Prepared, NeedsUpdate, JobConflict;
    if m < n {
      RequestsGrow(claims, wants, apis, m, n - 1, name);
    }
  }

  lemma SuccessMeetsRequest(claims: map<string, Claim>, want: Wanted, api: Api)
    requires CallResult(claims, want, api).Done?
    ensures want.name in ClaimsAfter(claims, want, api) && ClaimsAfter(claims, want, api)[want.name].request == want.request
    ensures !CallResult(claims, want, api).inProgress && want.name in claims ==>
      claims[want.name].capacity == 0 || claims[want.name].capacity >= want.request
  {
    hide Reconciled, Prepared, NeedsUpdate;
  }

  // ------------------------------------------------------------------- polls

  /** One answer to a poll of a claim. */
  datatype Poll = GetFailed | Seen(capacity: nat, resizing: bool)

  ghost predicate SawCapacity(polls: seq<Poll>, size: nat) {
    exists i :: 0 <= i < |polls| && polls[i].Seen? && polls[i].capacity >= size
  }

  /** The poll settles the question: grown, or growing and in need of a restart. */
  predicate Settles(p: Poll, size: nat) {
    p.Seen? && (p.capacity >= size || p.resizing)
  }

  /** The first poll that settles it, reached without a failed one. */
  ghost predicate SettledAt(polls: seq<Poll>, size: nat, i: nat) {
    && i < |polls| && Settles(polls[i], size)
    && forall j :: 0 <= j < i ==> polls[j].Seen? && !Settles(polls[j], size)
  }

  /** WaitForPvcResizeState; running out of polls is the deadline. */
  method WaitForPvcResizeState(size: nat, polls: seq<Poll>) returns (ok: bool, restartRequired: bool)
    ensures ok <==> exists i: nat :: SettledAt(polls, size, i)
    ensures forall i: nat :: SettledAt(polls, size, i) ==> (restartRequired <==> polls[i].capacity < size)
    ensures ok && !restartRequired ==> SawCapacity(polls, size)
  {
    for i := 0 to |polls|
      invariant forall j :: 0 <= j < i ==> polls[j].Seen? && !Settles(polls[j], size)
    {
      match polls[i]
      case GetFailed => return false, false;
      case Seen(capacity, resizing) =>
        if capacity >= size {
          assert SettledAt(polls, size, i);
          return true, false;
        }
        if resizing {
          assert SettledAt(polls, size, i);
          return true, true;
        }
    }
    return false, false;
  }

  /** WaitForPvcCapacity: failures are retried, the deadline is no error. */
  method WaitForPvcCapacity(size: nat, polls: seq<Poll>) returns (resized: bool)
    ensures resized <==> SawCapacity(polls, size)
  {
    for i := 0 to |polls|
      invariant forall k :: 0 <= k < i ==> !(polls[k].Seen? && polls[k].capacity >= size)
    {
      if polls[i].Seen? && polls[i].capacity >= size {
        return true;
      }
    }
    return false;
  }

  // -------------------------------------------------------------- switchover

  datatype PodList = ListFailed | Pods(names: seq<string>)

  predicate OtherMaster(seen: PodList, pod: string) {
    seen.Pods? && |seen.names| == 1 && seen.names[0] != pod
  }

  /** What a switchover meets: the masters, the replicas, Patroni's answer to the
      switchover, and the masters polled after it. */
  datatype Handover = Handover(masters: PodList, replicas: PodList, switched: bool, polls: seq<PodList>)

  /** Another pod is the only master, or the pod could hand over to a replica and
      another pod was then seen as the only master. */
  ghost predicate HandsOver(h: Handover, pod: string) {
    || OtherMaster(h.masters, pod)
    || (&& h.masters == Pods([pod]) && h.replicas.Pods? && h.replicas.names != [] && h.switched
        && exists seen :: seen in h.polls && OtherMaster(seen, pod))
  }

  /** Some look at the masters showed another pod as the only one. */
  ghost predicate OtherMasterSeen(h: Handover, pod: string) {
    exists seen :: (seen == h.masters || seen in h.polls) && OtherMaster(seen, pod)
  }

  lemma HandoverSeesMaster(h: Handover, pod: string)
    requires HandsOver(h, pod)
    ensures OtherMasterSeen(h, pod)
  {
  }

  /** switchoverIfMaster */
  method SwitchoverIfMaster(pod: string, h: Handover) returns (ok: bool)
    ensures ok <==> HandsOver(h, pod)
  {
    var Handover(masters, replicas, switched, polls) := h;
    if masters.ListFailed? || |masters.names| != 1 {
      return false;
    }
    if masters.names[0] != pod {
      return true;
    }
    assert masters.names == [pod];
    if replicas.ListFailed? || |replicas.names| == 0 || !switched {
      return false;
    }
    for i := 0 to |polls|
      invariant forall j :: 0 <= j < i ==> !OtherMaster(polls[j], pod)
    {
      if polls[i].Pods? && |polls[i].names| == 1 && polls[i].names[0] != pod {
        assert polls[i] in polls && OtherMaster(polls[i], pod);
        return true;
      }
    }
    return false;
  }

  // --------------------------------------------------------- exponential wait

  function Pow2(n: nat): nat {
    if n == 0 then 1 else 2 * Pow2(n - 1)
  }

  lemma {:induction false} Pow2Grows(n: nat)
    ensures Pow2(n) >= 1
    ensures n >= 6 ==> Pow2(n) >= 64
  {
    if n > 0 {
      Pow2Grows(n - 1);
    }
    if n == 6 {
      assert Pow2(2) == 4 && Pow2(4) == 16;
    }
  }

  const DEADLINE: nat := 600

  /** The delay of an attempt, counted from 1. */
  function Delay(attempt: nat): nat
    requires attempt >= 1
  {
    10 * Pow2(attempt - 1)
  }

  /** How the cluster behaves: per claim while preparing, then per attempt. */
  datatype World = World(
    api: nat -> Api,
    statePolls: nat -> seq<Poll>,
    handover: Handover,
    restartFails: nat -> bool,
    extraTime: nat -> nat,
    capacityPolls: (nat, nat) -> seq<Poll>)

  /** Claim i was seen with at least the wanted capacity, before the restarts or
      after one of the first `attempts`. */
  ghost predicate Grown(w: World, i: nat, size: nat, attempts: nat) {
    SawCapacity(w.statePolls(i), size) || exists k: nat :: 1 <= k <= attempts && SawCapacity(w.capacityPolls(k, i), size)
  }

  ghost predicate InProgress(claims: map<string, Claim>, wants: seq<Wanted>, w: World, i: nat)
    requires i < |wants|
  {
    CallResult(Run(claims, wants, w.api, i), wants[i], w.api(i)) == Done(true)
  }

  ghost predicate CallFails(claims: map<string, Claim>, wants: seq<Wanted>, w: World, i: nat)
    requires i < |wants|
  {
    CallResult(Run(claims, wants, w.api, i), wants[i], w.api(i)).Error?
  }

  /** The first loop of processPatroniPvcResize. */
  method ResizeAll(c: Cluster, wants: seq<Wanted>, w: World) returns (ok: bool, resizing: seq<nat>)
    modifies c
    ensures forall i :: i in resizing ==> i < |wants|
    ensures ok <==> forall i: nat :: i < |wants| ==> !CallFails(old(c.claims), wants, w, i)
    ensures ok ==> c.claims == Run(old(c.claims), wants, w.api, |wants|)
    ensures ok ==> forall i: nat :: i < |wants| ==> (i in resizing <==> InProgress(old(c.claims), wants, w, i))
  {
    hide CallResult, ClaimsAfter;
    resizing := [];
    var i := 0;
    while i < |wants|
      invariant 0 <= i <= |wants|
      invariant c.claims == Run(old(c.claims), wants, w.api, i)
      invariant forall k :: k in resizing ==> k < i
      invariant forall k: nat :: k < i ==> !CallFails(old(c.claims), wants, w, k)
      invariant forall k: nat :: k < i ==> (k in resizing <==> InProgress(old(c.claims), wants, w, k))
    {
      var r := c.CreateOrResizePvc(wants[i], w.api(i));
      if r.Error? {
        assert CallFails(old(c.claims), wants, w, i);
        return false, resizing;
      }
      if r.inProgress {
        resizing := resizing + [i];
      }
      i := i + 1;
    }
    return true, resizing;
  }

  ghost predicate StateKnown(w: World, i: nat, size: nat) {
    exists k: nat :: SettledAt(w.statePolls(i), size, k)
  }

  ghost predicate NeedsRestart(w: World, i: nat, size: nat) {
    exists k: nat :: SettledAt(w.statePolls(i), size, k) && w.statePolls(i)[k].capacity < size
  }

  /** The second loop: does any growing claim need a restart? */
  method RestartNeeded(wants: seq<Wanted>, resizing: seq<nat>, w: World) returns (ok: bool, restart: bool)
    requires forall i :: i in resizing ==> i < |wants|
    ensures ok <==> forall i :: i in resizing ==> StateKnown(w, i, wants[i].request)
    ensures ok ==> (restart <==> exists i :: i in resizing && NeedsRestart(w, i, wants[i].request))
    ensures ok && !restart ==> forall i :: i in resizing ==> SawCapacity(w.statePolls(i), wants[i].request)
  {
    hide SawCapacity, SettledAt;
    restart := false;
    for k := 0 to |resizing|
      invariant forall j :: 0 <= j < k ==> resizing[j] < |wants|
      invariant forall j :: 0 <= j < k ==> StateKnown(w, resizing[j], wants[resizing[j]].request)
      invariant restart <==> exists j :: 0 <= j < k && NeedsRestart(w, resizing[j], wants[resizing[j]].request)
      invariant !restart ==> forall j :: 0 <= j < k ==> SawCapacity(w.statePolls(resizing[j]), wants[resizing[j]].request)
    {
      var i := resizing[k];
      assert i in resizing;
      var fine, needs := WaitForPvcResizeState(wants[i].request, w.statePolls(i));
      if !fine {
        return false, restart;
      }
      assert StateKnown(w, i, wants[i].request) && (needs <==> NeedsRestart(w, i, wants[i].request));
      if needs {
        restart := true;
      }
    }
    return true, restart;
  }

  /** All growing claims are seen grown after the given attempt. */
  ghost predicate GrownAt(wants: seq<Wanted>, resizing: seq<nat>, w: World, attempt: nat)
    requires forall i :: i in resizing ==> i < |wants|
  {
    forall i :: i in resizing ==> SawCapacity(w.capacityPolls(attempt, i), wants[i].request)
  }

  method AllGrown(wants: seq<Wanted>, resizing: seq<nat>, w: World, attempt: nat) returns (all: bool)
    requires forall i :: i in resizing ==> i < |wants|
    ensures all <==> GrownAt(wants, resizing, w, attempt)
  {
    hide SawCapacity;
    all := true;
    for k := 0 to |resizing|
      invariant forall j :: 0 <= j < k ==> resizing[j] < |wants|
      invariant all <==> forall j :: 0 <= j < k ==> SawCapacity(w.capacityPolls(attempt, resizing[j]), wants[resizing[j]].request)
    {
      assert resizing[k] in resizing;
      var resized := WaitForPvcCapacity(wants[resizing[k]].request, w.capacityPolls(attempt, resizing[k]));
      if !resized {
        all := false;
      }
    }
  }

  ghost predicate NoCallFails(claims: map<string, Claim>, wants: seq<Wanted>, w: World) {
    forall i: nat :: i < |wants| ==> !CallFails(claims, wants, w, i)
  }

  /** The state of every growing claim becomes known; and either none needs a
      restart, or the pod hands over and some attempt sees everything grown. */
  ghost predicate GrowthCompletes(wants: seq<Wanted>, resizing: seq<nat>, w: World, pod: string)
    requires forall i :: i in resizing ==> i < |wants|
  {
    && (forall i :: i in resizing ==> StateKnown(w, i, wants[i].request))
    && (|| (forall i :: i in resizing ==> !NeedsRestart(w, i, wants[i].request))
        || (HandsOver(w.handover, pod) && exists k: nat :: SucceedsAt(wants, resizing, w, k)))
  }

  /** processPatroniPvcResize succeeds exactly if no call fails and the growth
      completes; then every claim that had to grow was seen grown. There are at
      most six restarts, and none before another pod is the only master. */
  method ProcessPatroniPvcResize(c: Cluster, wants: seq<Wanted>, w: World, pod: string)
    returns (ok: bool, resizing: seq<nat>, restarts: nat)
    modifies c
    ensures forall i :: i in resizing ==> i < |wants|
    ensures NoCallFails(old(c.claims), wants, w) ==>
      forall i: nat :: i < |wants| ==> (i in resizing <==> InProgress(old(c.claims), wants, w, i))
    ensures ok <==> NoCallFails(old(c.claims), wants, w) && GrowthCompletes(wants, resizing, w, pod)
    ensures ok ==> c.claims == Run(old(c.claims), wants, w.api, |wants|)
    ensures ok ==> forall i: nat :: i < |wants| && InProgress(old(c.claims), wants, w, i) ==> Grown(w, i, wants[i].request, restarts)
    ensures restarts <= 6
    ensures restarts > 0 ==> OtherMasterSeen(w.handover, pod) && exists i :: i in resizing && NeedsRestart(w, i, wants[i].request)
  {
    hide InProgress, SawCapacity, CallFails, HandsOver, OtherMasterSeen, StateKnown, NeedsRestart, SucceedsAt;
    restarts := 0;
    ok, resizing := ResizeAll(c, wants, w);
    if !ok {
      return;
    }
    var restart;
    ok, restart := RestartNeeded(wants, resizing, w);
    if !ok || !restart {
      return;
    }
    ok := SwitchoverIfMaster(pod, w.handover);
    if !ok {
      return;
    }
    HandoverSeesMaster(w.handover, pod);
    ok, restarts := RestartLoop(wants, resizing, w);
    if ok {
      GrownWhenDone(wants, resizing, w, restarts);
    }
  }

  lemma GrownWhenDone(wants: seq<Wanted>, resizing: seq<nat>, w: World, k: nat)
    requires forall i :: i in resizing ==> i < |wants|
    requires SucceedsAt(wants, resizing, w, k)
    ensures forall i :: i in resizing ==> Grown(w, i, wants[i].request, k)
  {
    hide SawCapacity;
  }

  /** The time on the clock when an attempt begins. */
  ghost function ClockBefore(w: World, attempt: nat): nat {
    if attempt <= 1 then 0 else ClockBefore(w, attempt - 1) + Delay(attempt - 1) + w.extraTime(attempt - 1)
  }

  /** Attempt k begins in time and its restart works. */
  ghost predicate Works(w: World, k: nat) {
    !w.restartFails(k) && ClockBefore(w, k) < DEADLINE
  }

  /** Attempt k is reached, and it is the first after which everything has grown. */
  ghost predicate SucceedsAt(wants: seq<Wanted>, resizing: seq<nat>, w: World, k: nat)
    requires forall i :: i in resizing ==> i < |wants|
  {
    && k >= 1 && GrownAt(wants, resizing, w, k)
    && (forall j: nat :: 1 <= j < k ==> !GrownAt(wants, resizing, w, j))
    && (forall j: nat :: 1 <= j <= k ==> Works(w, j))
  }

  lemma NoSuccess(wants: seq<Wanted>, resizing: seq<nat>, w: World, attempt: nat)
    requires attempt >= 1 && forall i :: i in resizing ==> i < |wants|
    requires !Works(w, attempt) && forall j: nat :: 1 <= j < attempt ==> !GrownAt(wants, resizing, w, j)
    ensures forall k: nat :: !SucceedsAt(wants, resizing, w, k)
  {
    hide Works, GrownAt;
  }

  lemma {:induction false} ClockGrows(w: World, k: nat)
    requires k >= 1
    ensures ClockBefore(w, k) >= 10 * (Pow2(k - 1) - 1)
  {
    if k > 1 {
      ClockGrows(w, k - 1);
      assert Pow2(k - 1) == 2 * Pow2(k - 2);
    }
  }

  /** Only the first six attempts can begin before the deadline. */
  lemma AttemptsInTime(w: World, k: nat)
    requires k >= 1
    ensures ClockBefore(w, k) < DEADLINE ==> k <= 6
  {
    ClockGrows(w, k);
    Pow2Grows(k - 1);
  }

  /** The restart loop: the clock starts with its ten-minute context. It succeeds
      exactly if some attempt does, and never needs more than six. */
  method RestartLoop(wants: seq<Wanted>, resizing: seq<nat>, w: World) returns (ok: bool, restarts: nat)
    requires forall i :: i in resizing ==> i < |wants|
    ensures restarts <= 6
    ensures ok ==> SucceedsAt(wants, resizing, w, restarts)
    ensures !ok ==> forall k: nat :: !SucceedsAt(wants, resizing, w, k)
  {
    hide GrownAt, SucceedsAt, Delay;
    var clock: nat, attempt: nat := 0, 1;
    restarts := 0;
    while true
      invariant 1 <= attempt <= 7 && restarts == attempt - 1
      invariant clock == ClockBefore(w, attempt)
      invariant forall j: nat :: 1 <= j < attempt ==> Works(w, j)
      invariant forall j: nat :: 1 <= j < attempt ==> !GrownAt(wants, resizing, w, j)
      decreases 7 - attempt
    {
      if clock >= DEADLINE {
        NoSuccess(wants, resizing, w, attempt);
        return false, restarts;
      }
      AttemptsInTime(w, attempt);
      restarts := attempt;
      if w.restartFails(attempt) {
        NoSuccess(wants, resizing, w, attempt);
        return false, restarts;
      }
      clock := clock + Delay(attempt) + w.extraTime(attempt);
      var all := AllGrown(wants, resizing, w, attempt);
      if all {
        Success(wants, resizing, w, attempt);
        return true, restarts;
      }
      attempt := attempt + 1;
    }
  }

  lemma Success(wants: seq<Wanted>, resizing: seq<nat>, w: World, k: nat)
    requires k >= 1 && forall i :: i in resizing ==> i < |wants|
    requires GrownAt(wants, resizing, w, k) && forall j: nat :: 1 <= j < k ==> !GrownAt(wants, resizing, w, j)
    requires forall j: nat :: 1 <= j <= k ==> Works(w, j)
    ensures SucceedsAt(wants, resizing, w, k)
  {
  }

  /** The bound is met: without any extra time the sixth attempt still begins
      before the deadline, and the seventh would not. */
  lemma SixIsTight(w: World)
    requires forall k :: w.extraTime(k) == 0
    ensures ClockBefore(w, 6) == 310 < DEADLINE <= ClockBefore(w, 7) == 630
  {
    assert ClockBefore(w, 2) == 10 && ClockBefore(w, 3) == 30;
    assert Delay(3) == 40 && Delay(4) == 80 && ClockBefore(w, 4) == 70;
    assert ClockBefore(w, 5) == 150;
    assert Pow2(4) == 16 && Pow2(5) == 32;
  }

  // ------------------------------------------------------------ backup daemon

  /** The backup daemon's loop waits inside a select, so the deadline cuts the
      delay short; a delay that ends exactly at the deadline may go either way. */
  datatype DaemonWorld = DaemonWorld(
    scaleDownFails: nat -> bool,
    scaleDownTime: nat -> nat,
    timerWinsTie: nat -> bool,
    createFails: nat -> bool,
    createTime: nat -> nat,
    polls: nat -> seq<Poll>)

  /** The time on the clock when an attempt begins. */
  ghost function DaemonClock(w: DaemonWorld, attempt: nat): nat {
    if attempt <= 1 then 0
    else DaemonClock(w, attempt - 1) + w.scaleDownTime(attempt - 1) + Delay(attempt - 1) + w.createTime(attempt - 1)
  }

  /** The delay of an attempt ends before the deadline does. */
  ghost predicate DelayEnds(w: DaemonWorld, attempt: nat)
    requires attempt >= 1
  {
    var start := DaemonClock(w, attempt) + w.scaleDownTime(attempt);
    start + Delay(attempt) < DEADLINE || (start + Delay(attempt) == DEADLINE && w.timerWinsTie(attempt))
  }

  lemma {:induction false} DaemonClockGrows(w: DaemonWorld, k: nat)
    requires k >= 1
    ensures DaemonClock(w, k) >= 10 * (Pow2(k - 1) - 1)
  {
    if k > 1 {
      DaemonClockGrows(w, k - 1);
      assert Pow2(k - 1) == 2 * Pow2(k - 2);
    }
  }

  /** Only the first five delays can end in time. */
  lemma DelaysInTime(w: DaemonWorld, k: nat)
    requires k >= 1
    ensures DelayEnds(w, k) ==> k <= 5
  {
    DaemonClockGrows(w, k);
    Pow2Grows(k);
    assert Pow2(k) == 2 * Pow2(k - 1);
  }

  /** Attempt k begins in time and gets through to the new deployment. */
  ghost predicate DaemonWorks(w: DaemonWorld, k: nat)
    requires k >= 1
  {
    DaemonClock(w, k) < DEADLINE && !w.scaleDownFails(k) && DelayEnds(w, k) && !w.createFails(k)
  }

  ghost predicate DaemonSucceedsAt(size: nat, w: DaemonWorld, k: nat) {
    && k >= 1 && SawCapacity(w.polls(k), size)
    && (forall j: nat :: 1 <= j < k ==> !SawCapacity(w.polls(j), size))
    && (forall j: nat :: 1 <= j <= k ==> DaemonWorks(w, j))
  }

  lemma NoDaemonSuccess(size: nat, w: DaemonWorld, attempt: nat)
    requires attempt >= 1 && !DaemonWorks(w, attempt)
    requires forall j: nat :: 1 <= j < attempt ==> !SawCapacity(w.polls(j), size)
    ensures forall k: nat :: !DaemonSucceedsAt(size, w, k)
  {
    hide DaemonWorks, SawCapacity;
  }

  lemma DaemonSuccess(size: nat, w: DaemonWorld, k: nat)
    requires k >= 1 && SawCapacity(w.polls(k), size) && forall j: nat :: 1 <= j < k ==> !SawCapacity(w.polls(j), size)
    requires forall j: nat :: 1 <= j <= k ==> DaemonWorks(w, j)
    ensures DaemonSucceedsAt(size, w, k)
  {
  }

  /** The restart loop of the backup daemon's Reconcile: it succeeds exactly if
      some attempt does, and re-creates the deployment at most five times. */
  method DaemonRestartLoop(size: nat, w: DaemonWorld) returns (ok: bool, recreated: nat)
    ensures recreated <= 5
    ensures ok ==> DaemonSucceedsAt(size, w, recreated)
    ensures !ok ==> forall k: nat :: !DaemonSucceedsAt(size, w, k)
  {
    hide SawCapacity, DaemonSucceedsAt, Delay, Pow2;
    var clock: nat, attempt: nat := 0, 1;
    recreated := 0;
    while true
      invariant 1 <= attempt <= 6 && recreated == attempt - 1
      invariant clock == DaemonClock(w, attempt)
      invariant forall j: nat :: 1 <= j < attempt ==> DaemonWorks(w, j)
      invariant forall j: nat :: 1 <= j < attempt ==> !SawCapacity(w.polls(j), size)
      decreases 6 - attempt
    {
      if clock >= DEADLINE {
        NoDaemonSuccess(size, w, attempt);
        return false, recreated;
      }
      if w.scaleDownFails(attempt) {
        NoDaemonSuccess(size, w, attempt);
        return false, recreated;
      }
      clock := clock + w.scaleDownTime(attempt);
      // select: the timer or the deadline, whichever comes first
      if clock + Delay(attempt) > DEADLINE || (clock + Delay(attempt) == DEADLINE && !w.timerWinsTie(attempt)) {
        NoDaemonSuccess(size, w, attempt);
        return false, recreated;
      }
      clock := clock + Delay(attempt);
      DelaysInTime(w, attempt);
      recreated := attempt;
      if w.createFails(attempt) {
        NoDaemonSuccess(size, w, attempt);
        return false, recreated;
      }
      clock := clock + w.createTime(attempt);
      var resized := WaitForPvcCapacity(size, w.polls(attempt));
      if resized {
        DaemonSuccess(size, w, attempt);
        return true, recreated;
      }
      assert DaemonWorks(w, attempt);
      attempt := attempt + 1;
    }
  }
}
