/** No update is lost: the theorems about every state of every execution. */
module LostUpdates {
  import opened Common
  import opened Namespaces
  import opened SharedHeap
  import opened Protocol
  import opened Invariants
  import opened Exclusion

  // ----- the inductive invariant -----

  /** Nothing is on its way to the worker, and its last token was not wasted. */
  ghost predicate Settled(s: State) {
    && s.queue.undelivered == 0 && !s.queue.token
    && !At(s, WORKER).Calling? && !At(s, WORKER).Won?
    && !s.spoiled
  }

  /** The run at `pc`, if any, has read from version `v` only. */
  ghost predicate ReadsOnly(pc: Pc, v: nat) {
    match pc
    case Looping(run) => AllAt(run, v)
    case Asking(run, at) => at == v && AllAt(run, v)
    case _ => true
  }

  /** Once settled, no run in progress has read an old version, and unless the worker is still
      reading, neither has the published index. */
  ghost predicate UpdateInv(s: State) {
    s.world.history != [] && Settled(s) ==>
      && (forall t :: t in s.threads ==> ReadsOnly(s.threads[t], Now(s.world)))
      && (!At(s, WORKER).Looping? && !At(s, WORKER).Asking? && s.published != [] ==>
            AllAt(s.published[|s.published| - 1], Now(s.world)))
  }

  lemma NextKeepsUpdates(s: State, step: Step, s': State)
    requires MutexInv(s) && StartupInv(s) && UpdateInv(s) && Next(s, step, s')
    ensures UpdateInv(s')
  {
    if Settled(s') && s.starts > 0 {
      assert !step.StoreChange?;
      forall t | t in s'.threads ensures ReadsOnly(s'.threads[t], Now(s'.world)) {
        ThreadKeepsUpdates(s, step, s', t);
      }
      if !At(s', WORKER).Looping? && !At(s', WORKER).Asking? && s'.published != [] {
        SettledBefore(s, step, s');
        PointerKeepsUpdates(s, step, s');
      }
    } else if Settled(s') {
      assert s'.threads == map[] && s'.published == [];
    }
  }

  /** Only the worker's own list can settle an unsettled state, and then nobody else holds a run. */
  lemma SettledBefore(s: State, step: Step, s': State)
    requires Next(s, step, s') && Settled(s') && !step.StoreChange?
    ensures Settled(s) || (step.List? && step.t == WORKER)
  {
  }

  lemma ThreadKeepsUpdates(s: State, step: Step, s': State, t: nat)
    requires MutexInv(s) && UpdateInv(s) && Next(s, step, s')
    requires Settled(s') && !step.StoreChange? && t in s'.threads
    ensures ReadsOnly(s'.threads[t], Now(s'.world))
  {
    HistoryStep(s, step, s');
    if Outside(step) {
      SettledBefore(s, step, s');
      OutsideStep(s, step, s');
    } else {
      MoverStep(s, step, s');
      if t == Mover(step) {
        MoverKeepsUpdates(s, step, s');
      } else {
        OtherKeepsUpdates(s, step, s', t);
      }
    }
  }

  lemma OtherKeepsUpdates(s: State, step: Step, s': State, t: nat)
    requires MutexInv(s) && UpdateInv(s) && Next(s, step, s') && s.world.history != []
    requires Settled(s') && !Outside(step) && t in s.threads && t != Mover(step)
    ensures ReadsOnly(s.threads[t], Now(s.world))
  {
    SettledBefore(s, step, s');
    if !Settled(s) {
      assert Holds(s, WORKER);
      assert Holds(s, t) ==> t == WORKER;
    }
  }

  lemma MoverKeepsUpdates(s: State, step: Step, s': State)
    requires UpdateInv(s) && Next(s, step, s') && Settled(s') && !Outside(step)
    ensures s.world.history != [] && ReadsOnly(At(s', Mover(step)), Now(s.world))
  {
    var t := Mover(step);
    if Reading(At(s', t)) {
      NextReadsOn(s, step, s');
      if !step.List? {
        SettledBefore(s, step, s');
        ReadsOnNow(s.world, s.threads[t], s'.threads[t]);
      }
    }
  }

  lemma ReadsOnNow(w: World, pc: Pc, pc': Pc)
    requires ReadsOn(w, pc, pc') && ReadsOnly(pc, Now(w))
    ensures ReadsOnly(pc', Now(w))
  {
  }

  lemma HistoryStep(s: State, step: Step, s': State)
    requires Next(s, step, s') && !step.StoreChange?
    ensures s.world.history != [] && s'.world.history == s.world.history
  {
  }

  lemma PointerKeepsUpdates(s: State, step: Step, s': State)
    requires UpdateInv(s) && Settled(s) && Settled(s') && Next(s, step, s') && !step.StoreChange?
    requires !At(s', WORKER).Looping? && !At(s', WORKER).Asking? && s'.published != []
    ensures AllAt(s'.published[|s'.published| - 1], Now(s'.world))
  {
    if step.Publish? {
      assert ReadsOnly(s.threads[step.t], Now(s.world));
    }
  }

  ghost predicate Inv(s: State) {
    && RunsInv(s) && OrderInv(s) && StartupInv(s) && CountInv(s) && AloneInv(s) && WasteInv(s) && UpdateInv(s)
  }

  lemma InitInv(s: State)
    requires Init(s)
    ensures Inv(s)
  {
    InitialWorldKept(s.world);
  }

  lemma NextInv(s: State, step: Step, s': State)
    requires Inv(s) && Next(s, step, s')
    ensures Inv(s')
  {
    NextKeepsRuns(s, step, s');
    NextKeepsOrder(s, step, s');
    NextKeepsStartup(s, step, s');
    NextKeepsCounts(s, step, s');
    NextKeepsAlone(s, step, s');
    NextKeepsWaste(s, step, s');
    NextKeepsUpdates(s, step, s');
  }

  /** The invariant holds in every state of every execution. */
  lemma {:induction false} ReachableInv(ss: seq<State>, steps: seq<Step>, i: nat)
    requires Execution(ss, steps) && i < |ss|
    ensures Inv(ss[i])
  {
    if i == 0 {
      InitInv(ss[0]);
    } else {
      ReachableInv(ss, steps, i - 1);
      NextInv(ss[i - 1], steps[i - 1], ss[i]);
    }
  }

  // ----- freshness -----

  /** A complete pass that saw one version only is a recomputation from that version. */
  lemma CompletePassIsExact(w: World, run: Run, v: nat)
    requires RunInv(w, run) && Complete(run) && AllAt(run, v)
    ensures v < |w.history| && Exact(w.heap, run.idx, w.history[v])
  {
    var st := w.history[v];
    forall o | o in run.listing ensures o in st.objects { assert o in Elems(run.listing); }
    forall i | 0 <= i < |run.seen| ensures Reads(run.seen)[i] == PassOver(st, run.listing)[i] {
      assert SeenOk(w, run, i);
    }
    assert Reads(run.seen) == PassOver(st, run.listing);
    assert Lists(run.listing, st);
  }

  /** A run in progress that has read nothing but the current version. */
  ghost predicate UpToDateRun(s: State, t: nat) {
    && s.world.history != []
    && t in s.threads && (s.threads[t].Looping? || s.threads[t].Asking?)
    && ReadsOnly(s.threads[t], Now(s.world))
  }

  /** In every reachable state after the first publication, a change is still on its way to the
      worker, or the worker is in a run that has read the current version only, or the worker's last
      token was wasted, or what callers read is a recomputation from the current version. */
  lemma NoLostUpdate(ss: seq<State>, steps: seq<Step>, i: nat)
    requires Execution(ss, steps) && i < |ss| && ss[i].published != []
    ensures var s := ss[i];
            && s.world.history != []
            && (|| s.queue.undelivered > 0
                || s.queue.token
                || At(s, WORKER).Calling? || At(s, WORKER).Won?
                || UpToDateRun(s, WORKER)
                || s.spoiled
                || Fresh(s))
  {
    ReachableInv(ss, steps, i);
    var s := ss[i];
    if Settled(s) {
      if At(s, WORKER).Looping? || At(s, WORKER).Asking? {
        assert UpToDateRun(s, WORKER);
      } else {
        CompletePassIsExact(s.world, s.published[|s.published| - 1], Now(s.world));
      }
    }
  }

  /** The worker is idle, no event and no token waits, and its last token was not wasted. */
  ghost predicate Quiescent(s: State) {
    Settled(s) && At(s, WORKER).Idle?
  }

  /** Although a run reads a changing store in many steps, at quiescence what callers read is exact.
      A direct caller may be anywhere in a run of its own. */
  lemma ExactAtQuiescence(ss: seq<State>, steps: seq<Step>, i: nat)
    requires Execution(ss, steps) && i < |ss| && ss[i].published != [] && Quiescent(ss[i])
    ensures ss[i].world.history != [] && Fresh(ss[i])
  {
    ReachableInv(ss, steps, i);
    var s := ss[i];
    CompletePassIsExact(s.world, s.published[|s.published| - 1], Now(s.world));
  }

  /** In every reachable state, if the last published run listed the current version then it has read
      nothing else, and what callers read is exact. */
  lemma ListedNowIsFresh(ss: seq<State>, steps: seq<Step>, i: nat)
    requires Execution(ss, steps) && i < |ss| && ss[i].published != []
    ensures var s, last := ss[i], ss[i].published[|ss[i].published| - 1];
            && s.world.history != [] && last.listedAt <= Now(s.world)
            && (last.listedAt == Now(s.world) ==> AllAt(last, Now(s.world)) && Fresh(s))
  {
    ReachableInv(ss, steps, i);
    var s, last := ss[i], ss[i].published[|ss[i].published| - 1];
    if last.listedAt == Now(s.world) {
      forall k | 0 <= k < |last.seen| ensures last.seen[k].asked == last.seen[k].answered == Now(s.world) {
        assert SeenOk(s.world, last, k);
      }
      CompletePassIsExact(s.world, last, Now(s.world));
    }
  }

  /** No event and no token waits, and the worker is idle. */
  ghost predicate AtRest(s: State) {
    s.queue.undelivered == 0 && !s.queue.token && At(s, WORKER).Idle?
  }

  /** At rest, whatever failed or was rejected: the published run has read the current version only if
      and only if it listed it. Then the index is exact; otherwise the worker's last token was wasted. */
  lemma RestingExactly(ss: seq<State>, steps: seq<Step>, i: nat)
    requires Execution(ss, steps) && i < |ss| && ss[i].published != [] && AtRest(ss[i])
    ensures var s, last := ss[i], ss[i].published[|ss[i].published| - 1];
            && s.world.history != [] && last.listedAt <= Now(s.world)
            && (AllAt(last, Now(s.world)) <==> last.listedAt == Now(s.world))
            && (last.listedAt == Now(s.world) ==> Fresh(s))
            && (last.listedAt < Now(s.world) ==> s.spoiled && (s.workerRejections > 0 || s.failed > 0))
  {
    ReachableInv(ss, steps, i);
    ListedNowIsFresh(ss, steps, i);
  }

  /** In terms a caller can observe: as long as no run has failed and the worker has never been turned
      away, an idle worker with nothing waiting means an exact index. */
  lemma ExactWithoutFailures(ss: seq<State>, steps: seq<Step>, i: nat)
    requires Execution(ss, steps) && i < |ss| && ss[i].published != [] && AtRest(ss[i])
    requires ss[i].failed == 0 && ss[i].workerRejections == 0
    ensures ss[i].world.history != [] && Fresh(ss[i])
  {
    RestingExactly(ss, steps, i);
  }

  // ----- every run after the last change -----

  ghost predicate NoChange(steps: seq<Step>, i: nat, j: nat) {
    i <= j <= |steps| && forall k :: i <= k < j ==> !steps[k].StoreChange?
  }

  lemma {:induction false} HistoryStays(ss: seq<State>, steps: seq<Step>, i: nat, j: nat)
    requires Path(ss, steps) && NoChange(steps, i, j)
    ensures ss[j].world.history == ss[i].world.history
    decreases j - i
  {
    if i < j {
      HistoryStays(ss, steps, i, j - 1);
      HistoryStep(ss[j - 1], steps[j - 1], ss[j]);
    }
  }

  /** A run that publishes while the version it listed is still current makes the index exact, and it
      stays so until the resource cache changes, whatever other runs happen in between. */
  lemma PublishedSinceListStaysFresh(ss: seq<State>, steps: seq<Step>, p: nat, j: nat)
    requires Execution(ss, steps) && p < |steps| && steps[p].Publish? && p < j && NoChange(steps, p, j)
    requires At(ss[p], steps[p].t).Looping? && At(ss[p], steps[p].t).run.listedAt + 1 == |ss[p].world.history|
    ensures ss[j].world.history != [] && ss[j].published != [] && Fresh(ss[j])
  {
    HistoryStays(ss, steps, p, j);
    PublishStep(ss[p], steps[p].t, ss[p + 1]);
    PathExtends(ss, steps, p + 1, j);
    PublicationsInOrder(ss, steps, j);
    var n, m := |ss[p + 1].published| - 1, |ss[j].published| - 1;
    assert ss[j].published[n] == At(ss[p], steps[p].t).run;
    assert ss[j].published[n].listedAt <= ss[j].published[m].listedAt;
    ListedNowIsFresh(ss, steps, j);
  }

  /** In particular it is exact right after the publication. */
  lemma PublishedSinceListIsFresh(ss: seq<State>, steps: seq<Step>, i: nat)
    requires Execution(ss, steps) && i < |steps| && steps[i].Publish?
    requires At(ss[i], steps[i].t).Looping? && At(ss[i], steps[i].t).run.listedAt + 1 == |ss[i].world.history|
    ensures ss[i + 1].world.history != [] && ss[i + 1].published != [] && Fresh(ss[i + 1])
  {
    PublishedSinceListStaysFresh(ss, steps, i, i + 1);
  }

  /** Runs that won the flag as number `r` or later have listed at version `v` or later. */
  ghost predicate ListedSince(s: State, r: nat, v: nat) {
    forall t :: t in s.threads && Reading(s.threads[t]) ==>
      s.threads[t].run.order < r || v <= s.threads[t].run.listedAt
  }

  lemma NextKeepsListedSince(s: State, step: Step, s': State, r: nat, v: nat)
    requires ListedSince(s, r, v) && Next(s, step, s') && v < |s.world.history|
    ensures ListedSince(s', r, v)
  {
    if Outside(step) {
      OutsideStep(s, step, s');
    } else {
      MoverStep(s, step, s');
      if Reading(At(s', Mover(step))) { NextReadsOn(s, step, s'); }
    }
  }

  lemma {:induction false} ListedSinceStays(ss: seq<State>, steps: seq<Step>, i: nat, j: nat)
    requires Execution(ss, steps) && i <= j < |ss|
    ensures ss[i].world.history != [] && ListedSince(ss[j], ss[i].runs, Now(ss[i].world))
    decreases j - i
  {
    ReachableInv(ss, steps, i);
    if i == j {
      forall t | t in ss[i].threads && Reading(ss[i].threads[t])
        ensures ss[i].threads[t].run.order < ss[i].runs
      {
        assert NewestRun(ss[i], ss[i].threads[t]);
      }
    } else {
      ListedSinceStays(ss, steps, i, j - 1);
      PathExtends(ss, steps, i, j - 1);
      NextKeepsListedSince(ss[j - 1], steps[j - 1], ss[j], ss[i].runs, Now(ss[i].world));
    }
  }

  /** Every run recovers: if the resource cache does not change from `i` to `j` and any run that won the
      flag after `i` publishes in between, then what callers read at `j` is exact, whatever was wasted,
      rejected or half done at `i` and whatever other runs do. */
  lemma EveryRunRecovers(ss: seq<State>, steps: seq<Step>, i: nat, p: nat, j: nat)
    requires Execution(ss, steps) && i <= p < j && NoChange(steps, i, j) && steps[p].Publish?
    requires At(ss[p], steps[p].t).Looping? && ss[i].runs <= At(ss[p], steps[p].t).run.order
    ensures ss[j].world.history != [] && ss[j].published != [] && Fresh(ss[j])
  {
    ListedSinceStays(ss, steps, i, p);
    HistoryStays(ss, steps, i, p);
    ReachableInv(ss, steps, p);
    var s, t := ss[p], steps[p].t;
    assert PcInv(s.world, s.threads[t]);
    PublishedSinceListStaysFresh(ss, steps, p, j);
  }

  // ----- snapshots -----

  ghost predicate Extends(s: State, s': State) {
    WorldExtends(s.world, s'.world) && s.published <= s'.published && (s.ready ==> s'.ready)
  }

  lemma NextExtends(s: State, step: Step, s': State)
    requires WorldInv(s.world) && Next(s, step, s')
    ensures Extends(s, s')
  {
    NextKeepsWorld(s, step, s');
  }

  lemma ExtendsTransitive(a: State, b: State, c: State)
    requires Extends(a, b) && Extends(b, c)
    ensures Extends(a, c)
  {
  }

  ghost predicate StepExtends(ss: seq<State>, k: nat)
    requires k + 1 < |ss|
  {
    Extends(ss[k], ss[k + 1])
  }

  lemma {:induction false} ChainExtends(ss: seq<State>, i: nat, j: nat)
    requires i <= j < |ss| && forall k :: 0 <= k < |ss| - 1 ==> StepExtends(ss, k)
    requires WorldInv(ss[i].world)
    ensures Extends(ss[i], ss[j])
    decreases j - i
  {
    if i < j {
      ChainExtends(ss, i, j - 1);
      assert StepExtends(ss, j - 1);
      ExtendsTransitive(ss[i], ss[j - 1], ss[j]);
    }
  }

  lemma PathExtends(ss: seq<State>, steps: seq<Step>, i: nat, j: nat)
    requires Execution(ss, steps) && i <= j < |ss|
    ensures Extends(ss[i], ss[j])
  {
    forall k | 0 <= k < |ss| - 1 ensures StepExtends(ss, k) {
      ReachableInv(ss, steps, k);
      NextExtends(ss[k], steps[k], ss[k + 1]);
    }
    ReachableInv(ss, steps, i);
    ChainExtends(ss, i, j);
  }

  /** Over any stretch of any execution no map loses or changes a key other than the visibility
      label, and that key changes only in label maps handed out by the resource cache. */
  lemma OnlyVisibilityIsOverwritten(ss: seq<State>, steps: seq<Step>, i: nat, j: nat, r: Ref)
    requires Execution(ss, steps) && i <= j < |ss| && r < |ss[i].world.heap|
    ensures r < |ss[j].world.heap|
    ensures ss[j].world.heap[r] - {VISIBILITY} == ss[i].world.heap[r] - {VISIBILITY}
    ensures ss[j].world.heap[r] != ss[i].world.heap[r] ==> r in ss[i].world.labelRefs
  {
    PathExtends(ss, steps, i, j);
  }

  /** An index, once published, says the same in every later state, whatever runs follow:
      exactly what its own pass had read. */
  lemma SnapshotsAreImmutable(ss: seq<State>, steps: seq<Step>, i: nat, j: nat, k: nat)
    requires Execution(ss, steps) && i <= j < |ss| && k < |ss[i].published|
    ensures k < |ss[j].published| && ss[j].published[k] == ss[i].published[k]
    ensures var run := ss[i].published[k];
            && IndexMatches(ss[j].world.heap, run.idx, Reads(run.seen))
            && IndexIn(ss[i].world.heap, run.idx)
            && forall s :: s in run.idx ==>
                 ObjsView(ss[j].world.heap, run.idx[s]) == ObjsView(ss[i].world.heap, run.idx[s])
  {
    PathExtends(ss, steps, i, j);
    ReachableInv(ss, steps, i);
    ReachableInv(ss, steps, j);
  }

  /** Every index ever readable was built from one complete pass over one list of one version:
      the objects are that version's, and each answer was given no earlier than the list. */
  lemma AllOrNothing(ss: seq<State>, steps: seq<Step>, i: nat, k: nat)
    requires Execution(ss, steps) && i < |ss| && k < |ss[i].published|
    ensures var s, run := ss[i], ss[i].published[k];
            && run.listedAt < |s.world.history|
            && Lists(run.listing, s.world.history[run.listedAt])
            && Complete(run)
            && (forall n :: 0 <= n < |run.seen| ==> SeenOk(s.world, run, n))
            && IndexMatches(s.world.heap, run.idx, Reads(run.seen))
  {
    ReachableInv(ss, steps, i);
  }

  /** Publications come in the order in which their runs won the flag, and the version they
      listed at never decreases. */
  lemma PublicationsInOrder(ss: seq<State>, steps: seq<Step>, i: nat)
    requires Execution(ss, steps) && i < |ss|
    ensures InOrder(ss[i].published)
  {
    ReachableInv(ss, steps, i);
  }

  /** The flag is set exactly while one caller holds it, and only that caller ever clears it. */
  lemma MutualExclusion(ss: seq<State>, steps: seq<Step>, i: nat)
    requires Execution(ss, steps) && i < |ss|
    ensures forall t, u :: Holds(ss[i], t) && Holds(ss[i], u) ==> t == u
    ensures ss[i].flag <==> exists t :: Holds(ss[i], t)
    ensures i < |steps| && ss[i].flag && !ss[i + 1].flag ==>
              steps[i].Release? && Holds(ss[i], steps[i].t) && !Holds(ss[i + 1], steps[i].t)
  {
    ReachableInv(ss, steps, i);
    if i < |steps| { assert Next(ss[i], steps[i], ss[i + 1]); }
  }

  /** However often Start is called there is one worker and one ticker, and as long as nobody calls
      Synch directly the worker is never rejected. */
  lemma SingleWorker(ss: seq<State>, steps: seq<Step>, i: nat)
    requires Execution(ss, steps) && i < |ss|
    ensures ss[i].workers == ss[i].tickers <= 1
    ensures ss[i].starts > 0 ==> ss[i].workers == 1
    ensures ss[i].directCalls == 0 ==> ss[i].workerRejections == 0
  {
    ReachableInv(ss, steps, i);
  }

  /** Requests and runs are conserved: every queued request is taken or pending, every request is
      queued or skipped, every run that won is completed, failed or in progress, and every
      publication is counted once its run has finished. */
  lemma CountsAreConserved(ss: seq<State>, steps: seq<Step>, i: nat)
    requires Execution(ss, steps) && i < |ss|
    ensures var s, q := ss[i], ss[i].queue;
            && q.resourceQueued + q.timeQueued == q.taken + (if q.token then 1 else 0)
            && q.resourceQueued + q.resourceSkipped == q.delivered
            && q.timeQueued + q.timeSkipped == q.ticks
            && s.runs == s.completed + s.failed + (if s.flag then 1 else 0)
            && s.completed <= |s.published| <= s.completed + 1
            && (!s.flag ==> |s.published| == s.completed)
  {
    ReachableInv(ss, steps, i);
    var s := ss[i];
    if !s.flag {
      assert !exists t :: Succeeded(s, t) by {
        if t :| Succeeded(s, t) { assert Holds(s, t); }
      }
    }
  }

  /** Once startup's own Synch has succeeded, there is a snapshot in every later state. */
  lemma ReadyMeansStocked(ss: seq<State>, steps: seq<Step>, i: nat, j: nat)
    requires Execution(ss, steps) && i <= j < |ss| && ss[i].ready
    ensures ss[j].published != []
  {
    PathExtends(ss, steps, i, j);
    ReachableInv(ss, steps, j);
  }
}
