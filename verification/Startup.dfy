/** Startup: handlers, then the worker and the ticker, then a first run of its own. */
module Startup {
  import opened Common
  import opened SharedHeap
  import opened Protocol
  import opened Exclusion
  import opened LostUpdates
  import opened Recovery
  import opened Synchronizer

  datatype StartupError = MetricsRefused | InformerMissing | HandlerRefused | FirstSynch(error: SynchError)

  /** `metricsOk` says whether the metrics can be registered, `informers` and `handlers` which of the five
      informers can be had and accept the handler, `workerHolds` whether the worker is inside a run when
      startup calls Synch: the race itself is the subject of the two lemmas below. */
  method BuildAndStart(h: Heap, metricsOk: bool, informers: seq<bool>, handlers: seq<bool>, workerHolds: bool, feed: Feed)
    returns (c: SynchronizedAccessCache, registered: nat, err: Option<StartupError>)
    requires |informers| == |handlers| == 5
    requires Fits(h, feed)
    ensures registered <= 5 && forall k :: 0 <= k < registered ==> informers[k] && handlers[k]
    ensures c.started <==> registered == 5
    ensures c.workers == c.tickers == if registered == 5 then 1 else 0
    ensures registered == 5 <==> metricsOk && forall k :: 0 <= k < 5 ==> informers[k] && handlers[k]
    ensures !metricsOk ==> err == Some(MetricsRefused) && registered == 0
    ensures metricsOk && registered < 5 ==>
              && !(informers[registered] && handlers[registered])
              && err == Some(if informers[registered] then HandlerRefused else InformerMissing)
    ensures registered == 5 && workerHolds ==> err == Some(FirstSynch(AlreadyRunning))
    ensures registered == 5 && !workerHolds && feed.listing.None? ==>
              err == Some(FirstSynch(ListFailed(feed.listError)))
    ensures registered == 5 && !workerHolds && Ends(feed) ==>
              err == Some(FirstSynch(if feed.cancelled then Cancelled else DeadlineExceeded))
    ensures err.None? <==> registered == 5 && !workerHolds && feed.listing.Some? && !Ends(feed)
    ensures err.Some? ==> c.cache.data == None
    ensures err.None? ==>
              && c.cache.data.Some? && c.cache.idFunc == NameOf
              && IndexMatches(c.heap, c.cache.data.value, PassOf(h, feed.listing.value, feed.answers))
              && Private(c.cache.data.value, ListingRefs(feed.listing.value))
  {
    c := new SynchronizedAccessCache(h);
    registered := 0;
    if !metricsOk { return c, registered, Some(MetricsRefused); }
    while registered < KINDS
      invariant registered <= KINDS
      invariant forall k :: 0 <= k < registered ==> informers[k] && handlers[k]
      invariant !c.started && !c.synchronizing && c.workers == c.tickers == 0 && c.heap == h
      invariant c.cache.data == None && c.cache.idFunc == NameOf
      invariant fresh(c) && fresh(c.cache) && fresh(c.metrics)
    {
      if !informers[registered] { return c, registered, Some(InformerMissing); }
      if !handlers[registered] { return c, registered, Some(HandlerRefused); }
      registered := registered + 1;
    }
    c.Start();
    c.synchronizing := workerHolds;
    var e := c.Synch(feed);
    err := if e.Some? then Some(FirstSynch(e.value)) else None;
  }

  /** Startup's own Synch can be rejected if and only if another caller holds the flag just then. */
  lemma StartupRejectedExactly(ss: seq<State>, steps: seq<Step>, i: nat)
    requires Execution(ss, steps) && i < |ss| && At(ss[i], STARTUP).Calling?
    ensures (exists s' :: Next(ss[i], Lose(STARTUP), s')) <==> (exists t :: t != STARTUP && Holds(ss[i], t))
  {
    ReachableInv(ss, steps, i);
    var s := ss[i];
    if s.flag {
      var s' := s.(threads := s.threads[STARTUP := Idle], spoiled := s.spoiled || STARTUP == WORKER);
      assert Next(s, Lose(STARTUP), s');
      var t :| Holds(s, t);
    }
  }

  /** It does happen: a replayed event makes the worker win the flag before startup's own call, and
      startup is turned away although no store change and no failure occurred. */
  lemma StartupCanBeRejected(w: World) returns (s0: State, s: State, s': State)
    requires InitialWorld(w)
    ensures Init(s0) && s0.world == w && Leads(s0, s)
    ensures At(s, WORKER) == Won(0) && s.runs == 1 && s.failed == 0 && !s.spoiled
    ensures Next(s, Lose(STARTUP), s')
  {
    var registered;
    s0, registered := RegisterAll(w);
    var started := registered.(starts := 1, workers := 1, tickers := 1);
    LeadsOn(s0, registered, StartCall, started);
    var delivered := started.(queue := Queue(0, true, 1, 0, 0, 1, 0, 0, 0));
    LeadsOn(s0, started, Deliver, delivered);
    s := WorkerWins(s0, delivered);
    s' := s.(threads := s.threads[STARTUP := Idle]);
  }

  lemma RegisterAll(w: World) returns (s0: State, s: State)
    requires InitialWorld(w)
    ensures Init(s0) && s0.world == w && Leads(s0, s)
    ensures s == s0.(registered := KINDS, queue := s0.queue.(undelivered := 1))
  {
    s0 := State(w, Queue(0, false, 0, 0, 0, 0, 0, 0, 0), 0, 0, 0, 0, false, map[], 0, [], false, false, 0, 0, 0, 0);
    LeadsNowhere(s0);
    s := s0.(registered := 1, queue := s0.queue.(undelivered := 1));
    LeadsOn(s0, s0, Register(1), s);
    while s.registered < KINDS
      invariant 1 <= s.registered <= KINDS && Leads(s0, s)
      invariant s == s0.(registered := s.registered, queue := s0.queue.(undelivered := 1))
      decreases KINDS - s.registered
    {
      var next := s.(registered := s.registered + 1);
      LeadsOn(s0, s, Register(0), next);
      s := next;
    }
  }

  lemma WorkerWins(s0: State, a: State) returns (s: State)
    requires Leads(s0, a) && a.queue.token && a.workers > 0 && a.starts > 0
    requires a.world.history != [] && a.threads == map[] && !a.flag && a.runs == 0
    ensures Leads(s0, s) && At(s, WORKER) == Won(0) && At(s, STARTUP).Calling? && s.flag && s.runs == 1
    ensures s.failed == a.failed && !s.spoiled && s.world == a.world
  {
    var taken := a.(queue := a.queue.(token := false, taken := a.queue.taken + 1),
                    threads := a.threads[WORKER := Calling], spoiled := false);
    LeadsOn(s0, a, Take, taken);
    var won := taken.(flag := true, runs := 1, threads := taken.threads[WORKER := Won(0)]);
    LeadsOn(s0, taken, Win(WORKER), won);
    s := won.(threads := won.threads[STARTUP := Calling], directCalls := won.directCalls + 1);
    LeadsOn(s0, won, Call(STARTUP), s);
  }
}
