/** The one way to lose an update until the next request: the worker's token meets a held flag. */
module LostToken {
  import opened Common
  import opened Subjects
  import opened Namespaces
  import opened AccessIndex
  import opened SharedHeap
  import opened Protocol
  import opened Recovery
  import opened Startup

  ghost predicate ReachedBy(ss: seq<State>, steps: seq<Step>, s: State) {
    Execution(ss, steps) && ss[|ss| - 1] == s
  }

  ghost predicate Reachable(s: State) {
    exists ss, steps :: ReachedBy(ss, steps, s)
  }

  lemma ReachedQuietly(s0: State, s: State)
    requires Init(s0) && Leads(s0, s)
    ensures Reachable(s)
  {
    var ss, steps :| QuietPath(ss, steps, s0, s);
    assert ReachedBy(ss, steps, s);
  }

  lemma ReachedNext(s: State, step: Step, s': State)
    requires Reachable(s) && Next(s, step, s')
    ensures Reachable(s')
  {
    var ss, steps :| ReachedBy(ss, steps, s);
    var ss', steps' := ss + [s'], steps + [step];
    forall i | 0 <= i < |steps'| ensures Next(ss'[i], steps'[i], ss'[i + 1]) {
      if i < |steps| { assert Next(ss[i], steps[i], ss[i + 1]); }
    }
    assert ReachedBy(ss', steps', s');
  }

  const NOTHING := Store(map[], map[])
  const SOMEONE := Subject(RBAC_GROUP, USER_KIND, "", "u")
  const ADDED := NsObj("n", None, None)

  ghost function OneNamespace(): Store {
    Store(map[ADDED := Namespace("n", None, None)], map["n" := {SOMEONE}])
  }

  /** Startup starts the cache and wins the flag. */
  lemma StartupWins(w: World) returns (s: State)
    requires InitialWorld(w)
    ensures Reachable(s) && s.world == w && s.registered == KINDS && s.threads == map[STARTUP := Won(0)]
    ensures s.queue.undelivered == 1 && !s.queue.token && s.workers > 0 && s.flag && s.published == []
    ensures s.failed == 0 && s.workerRejections == 0
  {
    var s0, a := RegisterAll(w);
    ReachedQuietly(s0, a);
    var b := a.(starts := 1, workers := 1, tickers := 1);
    ReachedNext(a, StartCall, b);
    var c := b.(threads := b.threads[STARTUP := Calling], directCalls := 1);
    ReachedNext(b, Call(STARTUP), c);
    s := c.(flag := true, runs := 1, threads := c.threads[STARTUP := Won(0)]);
    ReachedNext(c, Win(STARTUP), s);
    assert s.threads == map[STARTUP := Won(0)];
  }

  lemma NamespaceCanAppear()
    ensures var w := World([], {}, {}, [NOTHING]);
            && InitialWorld(w) && CanFollow(w, OneNamespace(), [])
            && Follow(w, OneNamespace(), []) == World([], {}, {}, [NOTHING, OneNamespace()])
  {
  }

  /** Startup's own run has listed an empty cluster and then a namespace appears. */
  lemma ListThenChange() returns (s: State)
    ensures Reachable(s) && s.world == World([], {}, {}, [NOTHING, OneNamespace()])
    ensures s.queue.undelivered == 2 && !s.queue.token && s.workers > 0 && s.flag && s.published == []
    ensures s.threads == map[STARTUP := Looping(Run(0, 0, [], [], map[]))]
    ensures s.failed == 0 && s.workerRejections == 0
  {
    NamespaceCanAppear();
    var a := StartupWins(World([], {}, {}, [NOTHING]));
    var b := a.(threads := a.threads[STARTUP := Looping(Run(0, 0, [], [], map[]))]);
    ReachedNext(a, List(STARTUP, []), b);
    s := b.(world := Follow(b.world, OneNamespace(), []), queue := b.queue.(undelivered := 2));
    ReachedNext(b, StoreChange(0, OneNamespace(), []), s);
    assert s.threads == map[STARTUP := Looping(Run(0, 0, [], [], map[]))];
  }

  /** Both events are delivered, the worker takes the token and is turned away. */
  lemma TokenIsWasted(s: State) returns (s': State)
    requires Reachable(s) && s.world.history != []
    requires s.queue.undelivered == 2 && !s.queue.token && s.workers > 0 && s.flag && At(s, WORKER).Idle?
    ensures Reachable(s') && s'.world == s.world && s'.published == s.published && s'.failed == s.failed
    ensures s'.queue.undelivered == 0 && !s'.queue.token && s'.workerRejections == s.workerRejections + 1
    ensures s'.threads == s.threads[WORKER := Idle]
  {
    var q1 := RequestForResource(s.queue.(undelivered := 1, delivered := s.queue.delivered + 1));
    var a := s.(queue := q1);
    ReachedNext(s, Deliver, a);
    var q2 := RequestForResource(q1.(undelivered := 0, delivered := q1.delivered + 1));
    var b := a.(queue := q2);
    ReachedNext(a, Deliver, b);
    var c := b.(queue := q2.(token := false, taken := q2.taken + 1),
                threads := b.threads[WORKER := Calling], spoiled := false);
    ReachedNext(b, Take, c);
    s' := c.(threads := c.threads[WORKER := Idle], spoiled := true, workerRejections := c.workerRejections + 1);
    ReachedNext(c, Lose(WORKER), s');
    assert s'.threads == s.threads[WORKER := Idle];
  }

  /** The namespace has appeared, the worker has been told and turned away, startup is still in its run. */
  lemma ChangeIsWasted() returns (s: State)
    ensures Reachable(s) && s.world == World([], {}, {}, [NOTHING, OneNamespace()]) && s.published == []
    ensures s.queue.undelivered == 0 && !s.queue.token && s.failed == 0 && s.workerRejections == 1
    ensures s.threads == map[STARTUP := Looping(Run(0, 0, [], [], map[])), WORKER := Idle]
  {
    var a := ListThenChange();
    s := TokenIsWasted(a);
  }

  lemma SomeoneHasAnEntry(listing: seq<NsObj>)
    requires Lists(listing, OneNamespace())
    ensures (forall o :: o in listing ==> o in OneNamespace().objects)
    ensures Entry(PassOver(OneNamespace(), listing), SOMEONE) != []
  {
    forall o | o in listing ensures o in OneNamespace().objects { assert o in Elems(listing); }
    assert ADDED in Elems(listing);
    var i :| 0 <= i < |listing| && listing[i] == ADDED;
    EntryIsSubsequence(PassOver(OneNamespace(), listing), SOMEONE);
    assert i in Positions(PassOver(OneNamespace(), listing), SOMEONE);
  }

  /** An empty index is not what one namespace with one allowed subject should give. */
  lemma EmptyIndexIsStale(h: Heap)
    ensures !Exact(h, map[], OneNamespace())
  {
    var none: HeapIndex := map[];
    forall listing | Lists(listing, OneNamespace())
      ensures !IndexMatches(h, none, PassOver(OneNamespace(), listing))
    {
      SomeoneHasAnEntry(listing);
    }
  }

  lemma StaleState(s: State)
    requires s.world == World([], {}, {}, [NOTHING, OneNamespace()]) && s.published == [Run(0, 0, [], [], map[])]
    ensures !Fresh(s)
  {
    EmptyIndexIsStale(s.world.heap);
  }

  /** The run that holds the flag publishes and gives the flag up. */
  lemma Finish(s: State, t: nat) returns (s': State)
    requires Reachable(s) && s.world.history != [] && At(s, t).Looping? && Complete(At(s, t).run)
    ensures Reachable(s') && s'.world == s.world && s'.queue == s.queue && !s'.flag
    ensures s'.published == s.published + [At(s, t).run] && s'.threads == s.threads[t := Idle]
    ensures s'.failed == s.failed && s'.workerRejections == s.workerRejections
  {
    var a := s.(published := s.published + [At(s, t).run], threads := s.threads[t := Finishing(true)]);
    ReachedNext(s, Publish(t), a);
    s' := a.(flag := false, threads := a.threads[t := Idle], ready := a.ready || t == STARTUP,
             completed := a.completed + 1);
    ReachedNext(a, Release(t), s');
    assert s'.threads == s.threads[t := Idle];
  }

  /** An update can be lost: without any failed run, nothing waits, everybody is idle and the flag is
      clear, and still the published index is not what the resource cache holds. The worker's one
      token was spent while startup's own run, which had listed before the change, held the flag. */
  lemma UpdateCanBeLost() returns (s: State)
    ensures Reachable(s) && s.world.history != [] && s.published != []
    ensures s.queue.undelivered == 0 && !s.queue.token && !s.flag && (forall t :: At(s, t).Idle?)
    ensures s.failed == 0 && s.workerRejections == 1
    ensures !Fresh(s)
  {
    var a := ChangeIsWasted();
    s := Finish(a, STARTUP);
    StaleState(s);
  }
}
