/** Mutual exclusion, the order of publications, startup and counting, over every interleaving. */
module Exclusion {
  import opened Protocol
  import opened Invariants

  // ----- mutual exclusion -----

  ghost predicate Holds(s: State, t: nat) {
    t in s.threads && Holding(s.threads[t])
  }

  /** The flag is set exactly while one caller is between winning it and resetting it. */
  ghost predicate MutexInv(s: State) {
    && (forall t, u :: Holds(s, t) && Holds(s, u) ==> t == u)
    && (s.flag <==> exists t :: Holds(s, t))
  }

  lemma NextKeepsMutex(s: State, step: Step, s': State)
    requires MutexInv(s) && Next(s, step, s')
    ensures MutexInv(s')
  {
    if Outside(step) {
      OutsideStep(s, step, s');
      SameThreads(s, s');
    } else {
      MoverStep(s, step, s');
      MoverFlag(s, step, s');
      MovedThread(s, s', Mover(step));
    }
  }

  lemma MoverFlag(s: State, step: Step, s': State)
    requires Next(s, step, s') && !Outside(step) && Mover(step) in s'.threads
    ensures var t := Mover(step);
            if Holds(s, t) then s'.flag == (if Holding(s'.threads[t]) then s.flag else false)
            else if Holding(s'.threads[t]) then !s.flag && s'.flag
            else s'.flag == s.flag
  {
  }

  lemma SameThreads(s: State, s': State)
    requires MutexInv(s) && s'.threads == s.threads && s'.flag == s.flag
    ensures MutexInv(s')
  {
    forall t ensures Holds(s', t) <==> Holds(s, t) {}
  }

  /** One thread moves: it keeps its hold, or takes a free flag, or gives its own up. */
  lemma MovedThread(s: State, s': State, t: nat)
    requires MutexInv(s)
    requires t in s'.threads && s'.threads == s.threads[t := s'.threads[t]]
    requires if Holds(s, t) then s'.flag == Holding(s'.threads[t])
             else if Holding(s'.threads[t]) then !s.flag && s'.flag
             else s'.flag == s.flag
    ensures MutexInv(s')
  {
    forall u | u != t ensures Holds(s', u) <==> Holds(s, u) {}
    if Holds(s', t) { assert Holds(s', t); }
    if s'.flag && !Holds(s', t) {
      assert !Holds(s, t);
      var u :| Holds(s, u);
      assert Holds(s', u);
    }
  }

  // ----- publications come in the order of the runs -----

  ghost predicate InOrder(runs: seq<Run>) {
    && (forall j, k :: 0 <= j < k < |runs| ==> runs[j].order < runs[k].order)
    && (forall j, k :: 0 <= j < k < |runs| ==> runs[j].listedAt <= runs[k].listedAt)
  }

  /** A run in progress is the newest one and lists no earlier than what is published. */
  ghost predicate NewestRun(s: State, pc: Pc) {
    match pc
    case Won(order) => IsNewest(s, order, |s.world.history|)
    case Looping(run) => run.listedAt < |s.world.history| && IsNewest(s, run.order, run.listedAt)
    case Asking(run, _) => run.listedAt < |s.world.history| && IsNewest(s, run.order, run.listedAt)
    case _ => true
  }

  ghost predicate IsNewest(s: State, order: nat, listedAt: nat) {
    && order + 1 == s.runs
    && forall k :: 0 <= k < |s.published| ==>
         s.published[k].order < order && s.published[k].listedAt <= listedAt
  }

  ghost predicate OrderInv(s: State) {
    && MutexInv(s)
    && InOrder(s.published)
    && (forall k :: 0 <= k < |s.published| ==>
          s.published[k].order < s.runs && s.published[k].listedAt < |s.world.history|)
    && (forall t :: t in s.threads ==> NewestRun(s, s.threads[t]))
  }

  lemma NextKeepsOrder(s: State, step: Step, s': State)
    requires OrderInv(s) && Next(s, step, s')
    ensures OrderInv(s')
  {
    NextKeepsMutex(s, step, s');
    if Outside(step) {
      OutsideStep(s, step, s');
      QuietOrder(s, s');
    } else if step.Win? {
      WinStep(s, step.t, s');
      NewRun(s, s', step.t);
    } else if step.Publish? {
      PublishMoves(s, step.t, s');
      NewPublication(s, s', step.t);
    } else {
      MoverStep(s, step, s');
      MoverOrder(s, step, s');
      ThreadMoves(s, s', Mover(step));
    }
  }

  lemma WinStep(s: State, t: nat, s': State)
    requires Next(s, Win(t), s')
    ensures !s.flag && s'.threads == s.threads[t := Won(s.runs)] && s'.runs == s.runs + 1
    ensures s'.published == s.published && s'.world == s.world
  {
  }

  lemma PublishMoves(s: State, t: nat, s': State)
    requires Next(s, Publish(t), s')
    ensures t in s.threads && s.threads[t].Looping? && s'.threads == s.threads[t := Finishing(true)]
    ensures s'.runs == s.runs && s'.published == s.published + [s.threads[t].run] && s'.world == s.world
  {
  }

  lemma MoverOrder(s: State, step: Step, s': State)
    requires Next(s, step, s') && !Outside(step) && !step.Win? && !step.Publish? && Mover(step) in s'.threads
    ensures var t := Mover(step);
            && SameRunOrNone(At(s, t), s'.threads[t])
            && (At(s, t).Won? && s'.threads[t].Looping? ==> s'.threads[t].run.listedAt + 1 == |s.world.history|)
    ensures s'.runs == s.runs && s'.published == s.published
  {
  }

  lemma QuietOrder(s: State, s': State)
    requires OrderInv(s) && MutexInv(s') && s'.threads == s.threads && s'.runs == s.runs
    requires s'.published == s.published && |s.world.history| <= |s'.world.history|
    ensures OrderInv(s')
  {
  }

  ghost predicate SameRunOrNone(pc: Pc, pc': Pc) {
    || pc'.Idle? || pc'.Calling? || pc'.Finishing?
    || (pc.Won? && pc'.Looping? && pc'.run.order == pc.order)
    || ((pc.Looping? || pc.Asking?) && (pc'.Looping? || pc'.Asking?)
        && pc'.run.order == pc.run.order && pc'.run.listedAt == pc.run.listedAt)
  }

  lemma ThreadMoves(s: State, s': State, t: nat)
    requires OrderInv(s) && MutexInv(s')
    requires t in s'.threads && s'.threads == s.threads[t := s'.threads[t]]
    requires SameRunOrNone(At(s, t), s'.threads[t])
    requires At(s, t).Won? && s'.threads[t].Looping? ==> s'.threads[t].run.listedAt + 1 == |s.world.history|
    requires s'.runs == s.runs && s'.published == s.published && |s.world.history| == |s'.world.history|
    ensures OrderInv(s')
  {
  }

  lemma NewRun(s: State, s': State, t: nat)
    requires OrderInv(s) && MutexInv(s') && !s.flag
    requires s'.threads == s.threads[t := Won(s.runs)] && s'.runs == s.runs + 1
    requires s'.published == s.published && s'.world == s.world
    ensures OrderInv(s')
  {
    assert Holds(s', t);
    forall u | u in s'.threads ensures NewestRun(s', s'.threads[u]) {
      assert Holds(s', u) ==> u == t;
    }
  }

  lemma NewPublication(s: State, s': State, t: nat)
    requires OrderInv(s) && MutexInv(s') && t in s.threads && s.threads[t].Looping?
    requires s'.threads == s.threads[t := Finishing(true)] && s'.runs == s.runs
    requires s'.published == s.published + [s.threads[t].run] && s'.world == s.world
    ensures OrderInv(s')
  {
    assert NewestRun(s, s.threads[t]);
    assert Holds(s', t);
    forall u | u in s'.threads ensures NewestRun(s', s'.threads[u]) {
      assert Holds(s', u) ==> u == t;
    }
  }

  // ----- startup -----

  /** Handlers first, then the worker and the ticker, then runs; one worker and one ticker. */
  ghost predicate StartupInv(s: State) {
    && (s.starts > 0 ==> s.registered == KINDS)
    && s.workers == s.tickers == (if s.starts > 0 then 1 else 0)
    && (s.starts == 0 ==> s.threads == map[] && s.published == [])
    && (forall t :: t in s.threads && s.threads[t] == Finishing(true) ==> s.published != [])
    && (s.ready ==> s.published != [])
  }

  lemma NextKeepsStartup(s: State, step: Step, s': State)
    requires StartupInv(s) && Next(s, step, s')
    ensures StartupInv(s')
  {
    if Outside(step) {
      OutsideStartup(s, step, s');
    } else {
      MoverStartup(s, step, s');
    }
  }

  lemma OutsideStartup(s: State, step: Step, s': State)
    requires StartupInv(s) && Next(s, step, s') && Outside(step)
    ensures StartupInv(s')
  {
  }

  lemma MoverStarted(s: State, step: Step, s': State)
    requires StartupInv(s) && Next(s, step, s') && !Outside(step)
    ensures s.starts > 0 && s'.starts == s.starts && s'.registered == s.registered
    ensures s'.workers == s.workers && s'.tickers == s.tickers
  {
  }

  lemma MoverStocks(s: State, step: Step, s': State)
    requires Next(s, step, s') && !Outside(step)
    ensures s.published <= s'.published
    ensures At(s', Mover(step)) == Finishing(true) ==> s'.published != []
    ensures s'.ready ==> s.ready || At(s, Mover(step)) == Finishing(true)
  {
  }

  lemma MoverStartup(s: State, step: Step, s': State)
    requires StartupInv(s) && Next(s, step, s') && !Outside(step)
    ensures StartupInv(s')
  {
    MoverStarted(s, step, s');
    MoverStep(s, step, s');
    MoverStocks(s, step, s');
  }

  // ----- counting -----

  ghost predicate QueueInv(q: Queue) {
    && q.resourceQueued + q.timeQueued == q.taken + (if q.token then 1 else 0)
    && q.resourceQueued + q.resourceSkipped == q.delivered
    && q.timeQueued + q.timeSkipped == q.ticks
  }

  ghost predicate Succeeded(s: State, t: nat) {
    t in s.threads && s.threads[t] == Finishing(true)
  }

  ghost predicate RunCountInv(s: State) {
    && s.runs == s.completed + s.failed + (if s.flag then 1 else 0)
    && |s.published| == s.completed + (if exists t :: Succeeded(s, t) then 1 else 0)
  }

  ghost predicate CountInv(s: State) {
    QueueInv(s.queue) && RunCountInv(s)
  }

  lemma NextKeepsQueue(s: State, step: Step, s': State)
    requires QueueInv(s.queue) && Next(s, step, s')
    ensures QueueInv(s'.queue)
  {
  }

  lemma NextKeepsCounts(s: State, step: Step, s': State)
    requires MutexInv(s) && CountInv(s) && Next(s, step, s')
    ensures CountInv(s')
  {
    NextKeepsQueue(s, step, s');
    if step.Publish? {
      PublishCounts(s, s', step.t);
    } else if step.Release? {
      ReleaseCounts(s, s', step.t);
    } else {
      QuietCounts(s, step, s');
    }
  }

  lemma QuietCounts(s: State, step: Step, s': State)
    requires RunCountInv(s) && Next(s, step, s') && !step.Publish? && !step.Release?
    ensures RunCountInv(s')
  {
    if Outside(step) {
      OutsideStep(s, step, s');
      SameRunCounts(s, s');
    } else {
      MoverStep(s, step, s');
      MoverCounts(s, step, s');
      MovedRunCounts(s, s', Mover(step));
    }
  }

  lemma MoverCounts(s: State, step: Step, s': State)
    requires Next(s, step, s') && !Outside(step) && !step.Publish? && !step.Release?
    ensures !Succeeded(s, Mover(step)) && !Succeeded(s', Mover(step))
    ensures s'.published == s.published && s'.completed == s.completed && s'.failed == s.failed
    ensures s'.runs - s.runs == (if s'.flag then 1 else 0) - (if s.flag then 1 else 0)
  {
  }

  lemma SameRunCounts(s: State, s': State)
    requires RunCountInv(s) && s'.threads == s.threads
    requires s'.runs == s.runs && s'.flag == s.flag && s'.published == s.published
    requires s'.completed == s.completed && s'.failed == s.failed
    ensures RunCountInv(s')
  {
    assert forall t :: Succeeded(s', t) <==> Succeeded(s, t);
  }

  /** A thread that neither had nor has just published moves. */
  lemma MovedRunCounts(s: State, s': State, t: nat)
    requires RunCountInv(s) && !Succeeded(s, t) && !Succeeded(s', t)
    requires t in s'.threads && s'.threads == s.threads[t := s'.threads[t]]
    requires s'.published == s.published && s'.completed == s.completed && s'.failed == s.failed
    requires s'.runs - s.runs == (if s'.flag then 1 else 0) - (if s.flag then 1 else 0)
    ensures RunCountInv(s')
  {
    assert forall u :: Succeeded(s', u) <==> Succeeded(s, u);
  }

  lemma PublishCounts(s: State, s': State, t: nat)
    requires MutexInv(s) && RunCountInv(s) && Holds(s, t) && !Succeeded(s, t)
    requires s'.threads == s.threads[t := Finishing(true)] && |s'.published| == |s.published| + 1
    requires s'.runs == s.runs && s'.flag == s.flag && s'.completed == s.completed && s'.failed == s.failed
    ensures RunCountInv(s')
  {
    assert Succeeded(s', t);
    assert forall u :: Succeeded(s, u) ==> Holds(s, u);
  }

  lemma ReleaseCounts(s: State, s': State, t: nat)
    requires MutexInv(s) && RunCountInv(s) && t in s.threads && s.threads[t].Finishing?
    requires s'.threads == s.threads[t := Idle] && s'.published == s.published && s'.runs == s.runs && !s'.flag
    requires s'.completed == s.completed + (if s.threads[t].ok then 1 else 0)
    requires s'.failed == s.failed + (if s.threads[t].ok then 0 else 1)
    ensures RunCountInv(s')
  {
    assert Holds(s, t);
    assert forall u :: Succeeded(s, u) ==> Holds(s, u);
    assert s.threads[t].ok ==> Succeeded(s, t);
    assert forall u :: Succeeded(s', u) ==> Succeeded(s, u) && u != t;
  }

  // ----- the worker alone is never rejected -----

  ghost predicate AloneInv(s: State) {
    s.directCalls == 0 ==>
      s.workerRejections == 0 && forall t :: t in s.threads && t != WORKER ==> s.threads[t].Idle?
  }

  lemma NextKeepsAlone(s: State, step: Step, s': State)
    requires MutexInv(s) && AloneInv(s) && Next(s, step, s')
    ensures AloneInv(s')
  {
    assert forall t :: Holds(s, t) && s.directCalls == 0 ==> t == WORKER;
  }

  // ----- a token is wasted by a rejection or a failure only -----

  ghost predicate WasteInv(s: State) {
    s.spoiled ==> s.workerRejections > 0 || s.failed > 0 || At(s, WORKER) == Finishing(false)
  }

  lemma NextKeepsWaste(s: State, step: Step, s': State)
    requires WasteInv(s) && Next(s, step, s')
    ensures WasteInv(s')
  {
  }
}
