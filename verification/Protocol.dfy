/** The refresh protocol as a step relation. Every shared access of the informers, the ticker,
    the worker and the direct callers of Synch is one step, and steps interleave freely. */
module Protocol {
  import opened Common
  import opened Subjects
  import opened Namespaces
  import opened AccessIndex
  import opened SharedHeap

  // ----- the resource cache -----

  /** One version of the resource cache: the namespace objects it hands out, each with its value
      apart from the visibility label, and the subjects RBAC allows to get each namespace. */
  datatype Store = Store(objects: map<NsObj, Namespace>, allowed: map<string, set<Subject>>)

  ghost function Allowed(st: Store, n: string): set<Subject> {
    if n in st.allowed then st.allowed[n] else {}
  }

  ghost predicate DistinctObjects(st: Store) {
    forall o, p :: o in st.objects && p in st.objects && o.name == p.name ==> o == p
  }

  ghost function LabelRefs(st: Store): set<Ref> {
    set o | o in st.objects && o.labels.Some? :: o.labels.value
  }

  ghost function AnnotationRefs(st: Store): set<Ref> {
    set o | o in st.objects && o.annotations.Some? :: o.annotations.value
  }

  /** The Go heap and every version the resource cache has had; the last one is current.
      The two sets record the maps ever handed out as labels and as annotations. */
  datatype World = World(heap: Heap, labelRefs: set<Ref>, annotationRefs: set<Ref>, history: seq<Store>)

  ghost function Now(w: World): nat
    requires w.history != []
  {
    |w.history| - 1
  }

  /** `st` can follow in world `w` once `maps` are allocated: an object is either an unchanged
      one or a new one on new maps, and no map serves both as labels and as annotations. */
  ghost predicate CanFollow(w: World, st: Store, maps: seq<StrMap>) {
    && w.history != []
    && DistinctObjects(st)
    && LabelRefs(st) !! AnnotationRefs(st)
    && forall o :: o in st.objects ==>
         var cur := w.history[Now(w)].objects;
         if o in cur then st.objects[o] == cur[o]
         else
           && (forall r :: r in Refs(o) ==> |w.heap| <= r)
           && ObjIn(w.heap + maps, o)
           && st.objects[o] == Pristine(NsView(w.heap + maps, o))
  }

  ghost function Follow(w: World, st: Store, maps: seq<StrMap>): World {
    World(w.heap + maps, w.labelRefs + LabelRefs(st), w.annotationRefs + AnnotationRefs(st), w.history + [st])
  }

  // ----- requests -----

  /** The capacity-1 channel, the events not yet handed to their handler, and the request counters. */
  datatype Queue = Queue(undelivered: nat, token: bool, delivered: nat, ticks: nat, taken: nat,
                         resourceQueued: nat, resourceSkipped: nat, timeQueued: nat, timeSkipped: nat)

  /** A handler's request: queued if the channel is empty, skipped otherwise. */
  function RequestForResource(q: Queue): Queue {
    if q.token then q.(resourceSkipped := q.resourceSkipped + 1)
    else q.(token := true, resourceQueued := q.resourceQueued + 1)
  }

  function RequestForTime(q: Queue): Queue {
    if q.token then q.(timeSkipped := q.timeSkipped + 1)
    else q.(token := true, timeQueued := q.timeQueued + 1)
  }

  // ----- synchronization runs -----

  /** One namespace visited by a run: what it read, and the versions of the resource cache at which
      the call to AllowedSubjects began and ended. */
  datatype Observation = Observation(read: Read, asked: nat, answered: nat)

  /** A run: the order in which it won the flag, the version it listed at, the list, what it has seen
      of the list so far and the index built so far. */
  datatype Run = Run(order: nat, listedAt: nat, listing: seq<NsObj>, seen: seq<Observation>, idx: HeapIndex)

  ghost function Reads(seen: seq<Observation>): (rr: seq<Read>)
    ensures |rr| == |seen| && forall i :: 0 <= i < |seen| ==> rr[i] == seen[i].read
  {
    seq(|seen|, i requires 0 <= i < |seen| => seen[i].read)
  }

  ghost predicate Complete(run: Run) {
    |run.seen| == |run.listing|
  }

  /** Everything the run has read, it read from version `v`. */
  ghost predicate AllAt(run: Run, v: nat) {
    && run.listedAt == v
    && forall i :: 0 <= i < |run.seen| ==> run.seen[i].asked == run.seen[i].answered == v
  }

  /** Where a caller of Synch is. */
  datatype Pc =
    | Idle
    | Calling                   // about to compare-and-swap the flag
    | Won(order: nat)           // holds the flag, has not listed yet
    | Looping(run: Run)         // between two namespaces
    | Asking(run: Run, at: nat) // inside AllowedSubjects, since version `at`
    | Finishing(ok: bool)       // published or failed, the flag still set

  predicate Holding(pc: Pc) {
    pc.Won? || pc.Looping? || pc.Asking? || pc.Finishing?
  }

  // ----- the whole system -----

  const WORKER := 0
  const STARTUP := 1
  const KINDS := 5

  datatype State = State(
    world: World,
    queue: Queue,
    registered: nat,        // informers with a handler
    starts: nat,            // calls of Start
    workers: nat,
    tickers: nat,
    flag: bool,             // synchronizing
    threads: map<nat, Pc>,
    runs: nat,              // runs that won the flag so far
    published: seq<Run>,    // every index stored so far; the pointer holds the last one
    spoiled: bool,          // the worker's last token went to a failed or rejected run
    ready: bool,            // startup's own Synch returned without error
    directCalls: nat,
    workerRejections: nat,
    completed: nat,
    failed: nat)

  function At(s: State, t: nat): Pc {
    if t in s.threads then s.threads[t] else Idle
  }

  datatype Step =
    | StoreChange(kind: nat, store: Store, maps: seq<StrMap>)
    | Register(replayed: nat)
    | StartCall
    | Deliver
    | Tick
    | Take
    | Call(t: nat)
    | Win(t: nat)
    | Lose(t: nat)
    | List(t: nat, listing: seq<NsObj>)
    | ListFail(t: nat)
    | Expire(t: nat)
    | Ask(t: nat)
    | Answer(t: nat, raw: seq<Subject>)
    | Publish(t: nat)
    | Release(t: nat)

  /** The resource cache has synced once, and nothing else has happened. */
  ghost predicate InitialWorld(w: World) {
    && |w.history| == 1
    && DistinctObjects(w.history[0])
    && w.labelRefs == LabelRefs(w.history[0])
    && w.annotationRefs == AnnotationRefs(w.history[0])
    && w.labelRefs !! w.annotationRefs
    && forall o :: o in w.history[0].objects ==>
         ObjIn(w.heap, o) && w.history[0].objects[o] == Pristine(NsView(w.heap, o))
  }

  ghost predicate Init(s: State) {
    && InitialWorld(s.world)
    && s == State(s.world, Queue(0, false, 0, 0, 0, 0, 0, 0, 0), 0, 0, 0, 0, false, map[], 0, [],
                  false, false, 0, 0, 0, 0)
  }

  ghost predicate Next(s: State, step: Step, s': State) {
    s.world.history != [] &&
    match step
    // An informer replaces objects in its store; the event waits for its handler, if it has one.
    case StoreChange(kind, store, maps) =>
      && kind < KINDS && CanFollow(s.world, store, maps)
      && s' == s.(world := Follow(s.world, store, maps),
                  queue := if kind < s.registered
                           then s.queue.(undelivered := s.queue.undelivered + 1) else s.queue)
    // Startup adds the handler to one more informer, which replays its current objects.
    case Register(replayed) =>
      && s.registered < KINDS && s.starts == 0
      && s' == s.(registered := s.registered + 1,
                  queue := s.queue.(undelivered := s.queue.undelivered + replayed))
    // Start may be called again; only the first call has an effect.
    case StartCall =>
      && s.registered == KINDS
      && s' == s.(starts := s.starts + 1,
                  workers := if s.starts == 0 then s.workers + 1 else s.workers,
                  tickers := if s.starts == 0 then s.tickers + 1 else s.tickers)
    case Deliver =>
      && s.queue.undelivered > 0
      && s' == s.(queue := RequestForResource(s.queue.(undelivered := s.queue.undelivered - 1,
                                                       delivered := s.queue.delivered + 1)))
    case Tick =>
      && s.tickers > 0
      && s' == s.(queue := RequestForTime(s.queue.(ticks := s.queue.ticks + 1)))
    case Take =>
      && s.workers > 0 && At(s, WORKER).Idle? && s.queue.token
      && s' == s.(queue := s.queue.(token := false, taken := s.queue.taken + 1),
                  threads := s.threads[WORKER := Calling], spoiled := false)
    case Call(t) =>
      && t != WORKER && s.starts > 0 && At(s, t).Idle?
      && s' == s.(threads := s.threads[t := Calling], directCalls := s.directCalls + 1)
    case Win(t) =>
      && At(s, t).Calling? && !s.flag
      && s' == s.(flag := true, runs := s.runs + 1, threads := s.threads[t := Won(s.runs)])
    case Lose(t) =>
      && At(s, t).Calling? && s.flag
      && s' == s.(threads := s.threads[t := Idle],
                  spoiled := s.spoiled || t == WORKER,
                  workerRejections := if t == WORKER then s.workerRejections + 1 else s.workerRejections)
    // The list comes out in any order.
    case List(t, listing) =>
      && At(s, t).Won?
      && NoDup(listing) && Elems(listing) == s.world.history[Now(s.world)].objects.Keys
      && s' == s.(threads := s.threads[t := Looping(Run(At(s, t).order, Now(s.world), listing, [], map[]))])
    case ListFail(t) =>
      && At(s, t).Won?
      && s' == s.(threads := s.threads[t := Finishing(false)], spoiled := s.spoiled || t == WORKER)
    case Expire(t) =>
      && At(s, t).Looping? && !Complete(At(s, t).run)
      && s' == s.(threads := s.threads[t := Finishing(false)], spoiled := s.spoiled || t == WORKER)
    case Ask(t) =>
      && At(s, t).Looping? && !Complete(At(s, t).run)
      && s' == s.(threads := s.threads[t := Asking(At(s, t).run, Now(s.world))])
    // The answer is the allowed subjects, in any order and with repetitions; if the resource cache
    // changed during the call, it can be anything.
    case Answer(t, raw) =>
      && At(s, t).Asking?
      && var run := At(s, t).run;
         && |run.seen| < |run.listing| && run.listedAt < |s.world.history|
         && var o := run.listing[|run.seen|];
            && o in s.world.history[run.listedAt].objects && ObjIn(s.world.heap, o)
            && (At(s, t).at == Now(s.world) ==> Elems(raw) == Allowed(s.world.history[Now(s.world)], o.name))
            && var v := Visit(s.world.heap, run.idx, o, Dedup(raw));
               var obs := Observation(Read(s.world.history[run.listedAt].objects[o], Elems(raw)),
                                      At(s, t).at, Now(s.world));
               s' == s.(world := s.world.(heap := v.heap),
                        threads := s.threads[t := Looping(run.(seen := run.seen + [obs], idx := v.idx))])
    case Publish(t) =>
      && At(s, t).Looping? && Complete(At(s, t).run)
      && s' == s.(published := s.published + [At(s, t).run], threads := s.threads[t := Finishing(true)])
    case Release(t) =>
      && At(s, t).Finishing?
      && s' == s.(flag := false, threads := s.threads[t := Idle],
                  ready := s.ready || (t == STARTUP && At(s, t).ok),
                  completed := if At(s, t).ok then s.completed + 1 else s.completed,
                  failed := if At(s, t).ok then s.failed else s.failed + 1)
  }

  /** A step of the environment: no caller of Synch moves. */
  predicate Outside(step: Step) {
    step.StoreChange? || step.Register? || step.StartCall? || step.Deliver? || step.Tick?
  }

  /** The caller of Synch that moves. */
  function Mover(step: Step): nat
    requires !Outside(step)
  {
    if step.Take? then WORKER else step.t
  }

  // ----- executions -----

  /** `ss` is a sequence of states, each the successor of the one before by the step in between. */
  ghost predicate Path(ss: seq<State>, steps: seq<Step>) {
    && |ss| == |steps| + 1
    && forall i :: 0 <= i < |steps| ==> Next(ss[i], steps[i], ss[i + 1])
  }

  ghost predicate Execution(ss: seq<State>, steps: seq<Step>) {
    Path(ss, steps) && Init(ss[0])
  }

  // ----- what the published index should be -----

  /** The reads of a run over `listing` that sees nothing but version `st`. */
  ghost function PassOver(st: Store, listing: seq<NsObj>): (rr: seq<Read>)
    requires forall o :: o in listing ==> o in st.objects
    ensures |rr| == |listing|
    ensures forall i :: 0 <= i < |listing| ==> rr[i] == Read(st.objects[listing[i]], Allowed(st, listing[i].name))
  {
    seq(|listing|, i requires 0 <= i < |listing| =>
      Read(st.objects[listing[i]], Allowed(st, listing[i].name)))
  }

  ghost predicate Lists(listing: seq<NsObj>, st: Store) {
    NoDup(listing) && Elems(listing) == st.objects.Keys
  }

  /** Read through the heap, the index is a recomputation from `st` alone, for some order of the list. */
  ghost predicate Exact(h: Heap, idx: HeapIndex, st: Store) {
    exists listing :: Lists(listing, st) && IndexMatches(h, idx, PassOver(st, listing))
  }

  /** What callers read now is a recomputation from the current version of the resource cache. */
  ghost predicate Fresh(s: State)
    requires s.world.history != [] && s.published != []
  {
    Exact(s.world.heap, s.published[|s.published| - 1].idx, s.world.history[Now(s.world)])
  }
}
