/** What growing a claim means, on the fields of the claim and in plain numbers
    (operator/pkg/helper/resource_management.go, operator/pkg/reconciler/patroni.go,
    operator/pkg/reconciler/backup_daemon.go). */
module PvcResizeLaws {
  import opened PvcAnnotations
  import opened PvcResize

  // ------------------------------------------------------------ one call

  /** The annotation that the shrink job leaves on a claim. */
  ghost predicate Marked(c: Claim) {
    "pvc-changed-by-job-from" in c.annotations
  }

  /** The mark cannot be read, or the job shrank the claim from the very size that
      is still wanted. */
  ghost predicate JobForbids(c: Claim, want: Wanted, api: Api) {
    Marked(c) &&
    match api.parse(c.annotations["pvc-changed-by-job-from"])
    case Malformed => true
    case Bytes(previous) => previous == want.request && c.request != want.request
  }

  /** Nothing about the claim has to change. */
  ghost predicate AsWanted(c: Claim, want: Wanted) {
    && !Marked(c) && c.request == want.request && !c.owned
    && Dropped(c.annotations, Prepared(want.annotations)) == {}
    && Reconciled(c.annotations, Prepared(want.annotations)) == c.annotations
  }

  /** When a call fails. In particular a claim that the job shrank is never grown
      back, a request never shrinks, and a failing update only matters if there is
      something to update. */
  lemma CallFailsIff(claims: map<string, Claim>, want: Wanted, api: Api)
    ensures CallResult(claims, want, api).Error? <==>
      || api.getFails
      || (want.name !in claims && api.createFails)
      || (want.name in claims &&
          (|| JobForbids(claims[want.name], want, api)
           || want.request < claims[want.name].request
           || (api.updateFails && !AsWanted(claims[want.name], want))))
  {
    hide Reconciled, Prepared, Dropped;
    if want.name in claims && !Marked(claims[want.name]) {
      assert claims[want.name].annotations - {JOB} == claims[want.name].annotations;
    }
  }

  /** A failing call changes nothing, and no call changes another claim. */
  lemma OnlyThisClaim(claims: map<string, Claim>, want: Wanted, api: Api, other: string)
    ensures CallResult(claims, want, api).Error? ==> ClaimsAfter(claims, want, api) == claims
    ensures other != want.name ==>
      (other in ClaimsAfter(claims, want, api) <==> other in claims) &&
      (other in claims ==> ClaimsAfter(claims, want, api)[other] == claims[other])
  {
    hide Reconciled, Prepared, CallResult;
  }

  /** After a successful call the claim has the wanted size, no owner and its known
      capacity; growth is reported exactly if the request was raised or a known
      capacity is still below it. */
  lemma SizeAfter(claims: map<string, Claim>, want: Wanted, api: Api)
    requires CallResult(claims, want, api).Done?
    ensures want.name in ClaimsAfter(claims, want, api)
    ensures var c := ClaimsAfter(claims, want, api)[want.name];
      c.request == want.request && !c.owned && c.capacity == if want.name in claims then claims[want.name].capacity else 0
    ensures CallResult(claims, want, api).inProgress <==>
      want.name in claims && (claims[want.name].request < want.request || 0 < claims[want.name].capacity < want.request)
  {
    hide Reconciled, Prepared, NeedsUpdate, JobConflict;
  }

  /** ... its annotations read as wanted; the job's mark is gone unless it is itself
      wanted; and foreign annotations are untouched. */
  lemma AnnotationsAfter(claims: map<string, Claim>, want: Wanted, api: Api, k: string)
    requires CallResult(claims, want, api).Done? && k != "deployment.netcracker.com/custom-annotations"
    ensures want.name in ClaimsAfter(claims, want, api)
    ensures var after := ClaimsAfter(claims, want, api)[want.name].annotations;
      && (k in want.annotations ==> Read(after, k) == want.annotations[k])
      && (k in want.annotations && want.annotations[k] == "" && want.name in claims && k !in claims[want.name].annotations ==> k !in after)
      && (k !in want.annotations && want.name !in claims ==> k !in after)
      && (k !in want.annotations && want.name in claims ==>
            var found := claims[want.name].annotations;
            && (k == "pvc-changed-by-job-from" ==> k !in after)
            && (k != "pvc-changed-by-job-from" && k in Tracked(found - {"pvc-changed-by-job-from"}) ==> k !in after)
            && (k != "pvc-changed-by-job-from" && k !in Tracked(found - {"pvc-changed-by-job-from"}) ==>
                  (k in after <==> k in found) && (k in found ==> after[k] == found[k])))
  {
    hide ListText, Names, NeedsUpdate, JobConflict;
    var w := Prepared(want.annotations);
    assert TRACKING == "deployment.netcracker.com/custom-annotations";
    assert k in w <==> k in want.annotations;
  }

  /** Over any sequence of calls: once a call on an existing claim has succeeded,
      the mark stays away while no resource asks for it. */
  lemma {:induction false} MarkStaysAway(claims: map<string, Claim>, wants: seq<Wanted>, apis: nat -> Api, m: nat, n: nat)
    requires m < n <= |wants| && wants[m].name in Run(claims, wants, apis, m)
    requires CallResult(Run(claims, wants, apis, m), wants[m], apis(m)).Done?
    requires forall i :: 0 <= i < |wants| ==> "pvc-changed-by-job-from" !in wants[i].annotations
    ensures wants[m].name in Run(claims, wants, apis, n) && !Marked(Run(claims, wants, apis, n)[wants[m].name])
  {
    hide CallResult, ClaimsAfter;
    var name := wants[m].name;
    var before, want, api := Run(claims, wants, apis, n - 1), wants[n - 1], apis(n - 1);
    JobIsNotTracking();
    if n - 1 > m {
      MarkStaysAway(claims, wants, apis, m, n - 1);
    }
    OnlyThisClaim(before, want, api, name);
    if want.name == name && CallResult(before, want, api).Done? {
      AnnotationsAfter(before, want, api, "pvc-changed-by-job-from");
    }
  }

  lemma JobIsNotTracking()
    ensures "pvc-changed-by-job-from" != "deployment.netcracker.com/custom-annotations"
  {
    assert |"pvc-changed-by-job-from"| != |"deployment.netcracker.com/custom-annotations"|;
  }

  // ------------------------------------------------------- the clock in seconds

  /** Seconds spent, besides the delays, in the attempts before k. */
  ghost function ExtraBefore(w: World, k: nat): nat {
    if k <= 1 then 0 else ExtraBefore(w, k - 1) + w.extraTime(k - 1)
  }

  lemma {:induction false} ClockInSeconds(w: World, k: nat)
    requires k >= 1
    ensures ClockBefore(w, k) == 10 * (Pow2(k - 1) - 1) + ExtraBefore(w, k)
  {
    if k > 1 {
      ClockInSeconds(w, k - 1);
      assert Pow2(k - 1) == 2 * Pow2(k - 2);
    }
  }

  /** An attempt begins exactly if the delays of 10, 20, 40, ... seconds and the
      other time spent before it stay below 600 seconds. */
  lemma AttemptBeginsIff(w: World, k: nat)
    requires k >= 1
    ensures Works(w, k) <==> !w.restartFails(k) && 10 * (Pow2(k - 1) - 1) + ExtraBefore(w, k) < 600
    ensures Pow2(0) == 1 && Pow2(1) == 2 && Pow2(2) == 4 && Pow2(3) == 8 && Pow2(4) == 16 && Pow2(5) == 32
  {
    ClockInSeconds(w, k);
    assert Pow2(4) == 2 * Pow2(3) && Pow2(5) == 2 * Pow2(4);
  }

  ghost function DaemonExtraBefore(w: DaemonWorld, k: nat): nat {
    if k <= 1 then 0 else DaemonExtraBefore(w, k - 1) + w.scaleDownTime(k - 1) + w.createTime(k - 1)
  }

  lemma {:induction false} DaemonClockInSeconds(w: DaemonWorld, k: nat)
    requires k >= 1
    ensures DaemonClock(w, k) == 10 * (Pow2(k - 1) - 1) + DaemonExtraBefore(w, k)
  {
    if k > 1 {
      DaemonClockInSeconds(w, k - 1);
      assert Pow2(k - 1) == 2 * Pow2(k - 2);
    }
  }

  /** Attempt k of the backup daemon begins before second 600, nothing in it fails,
      and its delay ends before second 600 too, or in it and the timer is picked. */
  ghost predicate GetsThrough(w: DaemonWorld, k: nat)
    requires k >= 1
  {
    var start := 10 * (Pow2(k - 1) - 1) + DaemonExtraBefore(w, k);
    var end := start + w.scaleDownTime(k) + 10 * Pow2(k - 1);
    start < 600 && !w.scaleDownFails(k) && !w.createFails(k) && (end < 600 || (end == 600 && w.timerWinsTie(k)))
  }

  lemma DaemonAttemptIff(w: DaemonWorld, k: nat)
    requires k >= 1
    ensures DaemonWorks(w, k) <==> GetsThrough(w, k)
  {
    DaemonClockInSeconds(w, k);
  }

  ghost predicate CapacitySeen(polls: seq<Poll>, size: nat) {
    exists p :: p in polls && p.Seen? && p.capacity >= size
  }

  /** Attempt k ends the daemon's restarts exactly if it is the first after which the
      wanted capacity was seen, and it and all before it get through. */
  lemma DaemonSucceedsIff(size: nat, w: DaemonWorld, k: nat)
    ensures DaemonSucceedsAt(size, w, k) <==>
      && k >= 1 && CapacitySeen(w.polls(k), size)
      && (forall j: nat :: 1 <= j < k ==> !CapacitySeen(w.polls(j), size))
      && (forall j: nat :: 1 <= j <= k ==> GetsThrough(w, j))
  {
    hide GetsThrough, DaemonWorks;
    forall j: nat
      ensures SawCapacity(w.polls(j), size) <==> CapacitySeen(w.polls(j), size)
    {
    }
    forall j: nat | j >= 1
      ensures DaemonWorks(w, j) <==> GetsThrough(w, j)
    {
      DaemonAttemptIff(w, j);
    }
  }

  // -------------------------------------------------------------- what is polled

  /** The state of a claim is known at poll i exactly if that is the first that
      shows enough capacity or a pending file system resize, and every poll before
      it worked; a restart is needed exactly if the capacity is not there. */
  lemma StateKnownIff(w: World, claim: nat, size: nat)
    ensures StateKnown(w, claim, size) <==>
      exists i :: 0 <= i < |w.statePolls(claim)| && FirstSign(w.statePolls(claim), size, i)
    ensures NeedsRestart(w, claim, size) <==>
      exists i :: 0 <= i < |w.statePolls(claim)| && FirstSign(w.statePolls(claim), size, i) && w.statePolls(claim)[i].capacity < size
  {
    var polls := w.statePolls(claim);
    assert forall i: nat :: SettledAt(polls, size, i) <==> i < |polls| && FirstSign(polls, size, i);
  }

  ghost predicate FirstSign(polls: seq<Poll>, size: nat, i: int)
    requires 0 <= i < |polls|
  {
    && polls[i].Seen? && (polls[i].capacity >= size || polls[i].resizing)
    && forall j :: 0 <= j < i ==> polls[j].Seen? && polls[j].capacity < size && !polls[j].resizing
  }

  /** Attempt k ends the restarts exactly if it is the first after which every
      growing claim was seen with the wanted capacity, and it and all before it
      begin in time. */
  lemma AttemptSucceedsIff(wants: seq<Wanted>, resizing: seq<nat>, w: World, k: nat)
    requires forall i :: i in resizing ==> i < |wants|
    ensures SucceedsAt(wants, resizing, w, k) <==>
      && k >= 1 && AllSeen(wants, resizing, w, k)
      && (forall j: nat :: 1 <= j < k ==> !AllSeen(wants, resizing, w, j))
      && (forall j: nat :: 1 <= j <= k ==> !w.restartFails(j) && 10 * (Pow2(j - 1) - 1) + ExtraBefore(w, j) < 600)
  {
    forall j: nat
      ensures GrownAt(wants, resizing, w, j) <==> AllSeen(wants, resizing, w, j)
    {
    }
    hide GrownAt, AllSeen, ExtraBefore, Works, Pow2;
    forall j: nat | j >= 1
      ensures Works(w, j) <==> !w.restartFails(j) && 10 * (Pow2(j - 1) - 1) + ExtraBefore(w, j) < 600
    {
      AttemptBeginsIff(w, j);
    }
  }

  ghost predicate AllSeen(wants: seq<Wanted>, resizing: seq<nat>, w: World, k: nat)
    requires forall i :: i in resizing ==> i < |wants|
  {
    forall i :: i in resizing ==> CapacitySeen(w.capacityPolls(k, i), wants[i].request)
  }

  // --------------------------------------------------------- who is the master

  /** A hand-over, on the fields: one master only, and not the pod; or the pod, with
      a replica and a working switchover, and later one master only, not the pod. */
  lemma HandsOverIff(h: Handover, pod: string)
    ensures HandsOver(h, pod) <==>
      exists master: string :: master != pod &&
        (|| h.masters == Pods([master])
         || (h.masters == Pods([pod]) && h.replicas.Pods? && |h.replicas.names| > 0 && h.switched && Pods([master]) in h.polls))
  {
    if OtherMaster(h.masters, pod) {
      assert h.masters == Pods([h.masters.names[0]]);
    }
    forall seen | seen in h.polls && OtherMaster(seen, pod)
      ensures seen == Pods([seen.names[0]])
    {
    }
    forall master: string | master != pod
      ensures OtherMaster(Pods([master]), pod)
    {
    }
  }
}
