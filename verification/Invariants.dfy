/** What every step of the protocol keeps. */
module Invariants {
  import opened Common
  import opened Subjects
  import opened Namespaces
  import opened AccessIndex
  import opened SharedHeap
  import opened Protocol

  // ----- the world -----

  ghost predicate ObjectKept(w: World, st: Store, o: NsObj)
    requires o in st.objects
  {
    && ObjIn(w.heap, o)
    && (o.labels.Some? ==> o.labels.value in w.labelRefs)
    && (o.annotations.Some? ==> o.annotations.value in w.annotationRefs)
    && Pristine(NsView(w.heap, o)) == st.objects[o]
  }

  ghost predicate StoreKept(w: World, st: Store) {
    DistinctObjects(st) && forall o :: o in st.objects ==> ObjectKept(w, st, o)
  }

  ghost function SharedRefs(w: World): set<Ref> {
    w.labelRefs + w.annotationRefs
  }

  ghost predicate WorldInv(w: World) {
    && w.history != []
    && w.labelRefs !! w.annotationRefs
    && (forall r :: r in SharedRefs(w) ==> r < |w.heap|)
    && forall v :: 0 <= v < |w.history| ==> StoreKept(w, w.history[v])
  }

  /** Nothing but visibility labels of shared label maps is ever overwritten. */
  ghost predicate WorldExtends(w: World, w': World) {
    && |w.heap| <= |w'.heap|
    && w.history <= w'.history
    && w.labelRefs <= w'.labelRefs && w.annotationRefs <= w'.annotationRefs
    && (forall r :: r in w'.labelRefs && r !in w.labelRefs ==> |w.heap| <= r)
    && (forall r :: r in w'.annotationRefs && r !in w.annotationRefs ==> |w.heap| <= r)
    && (forall r :: 0 <= r < |w.heap| && r !in w.labelRefs ==> w'.heap[r] == w.heap[r])
    && (forall r :: 0 <= r < |w.heap| ==> w'.heap[r] - {VISIBILITY} == w.heap[r] - {VISIBILITY})
  }

  lemma StoreSurvives(w: World, w': World, st: Store)
    requires WorldInv(w) && WorldExtends(w, w') && StoreKept(w, st)
    ensures StoreKept(w', st)
  {
  }

  lemma InitialWorldKept(w: World)
    requires InitialWorld(w)
    ensures WorldInv(w)
  {
  }

  /** The maps of a version that can follow are known ones or new ones. */
  lemma ChangedRefs(w: World, st: Store, maps: seq<StrMap>, o: NsObj)
    requires WorldInv(w) && CanFollow(w, st, maps) && o in st.objects
    ensures ObjIn(w.heap + maps, o)
    ensures o.labels.Some? ==> o.labels.value in w.labelRefs || |w.heap| <= o.labels.value
    ensures o.annotations.Some? ==> o.annotations.value in w.annotationRefs || |w.heap| <= o.annotations.value
  {
    var cur := w.history[Now(w)];
    if o in cur.objects {
      assert StoreKept(w, cur);
      assert ObjectKept(w, cur, o);
    } else {
      assert o.labels.Some? ==> o.labels.value in Refs(o);
      assert o.annotations.Some? ==> o.annotations.value in Refs(o);
    }
  }

  lemma ChangeExtends(w: World, st: Store, maps: seq<StrMap>)
    requires WorldInv(w) && CanFollow(w, st, maps)
    ensures var w' := Follow(w, st, maps);
            && WorldExtends(w, w') && w'.labelRefs !! w'.annotationRefs
            && forall r :: r in SharedRefs(w') ==> r < |w'.heap|
  {
    forall o | o in st.objects
      ensures ObjIn(w.heap + maps, o)
      ensures o.labels.Some? ==> o.labels.value in w.labelRefs || |w.heap| <= o.labels.value
      ensures o.annotations.Some? ==> o.annotations.value in w.annotationRefs || |w.heap| <= o.annotations.value
    {
      ChangedRefs(w, st, maps, o);
    }
    assert forall r :: r in w.labelRefs ==> r in SharedRefs(w);
    assert forall r :: r in w.annotationRefs ==> r in SharedRefs(w);
  }

  lemma ChangedStoreKept(w: World, st: Store, maps: seq<StrMap>)
    requires WorldInv(w) && CanFollow(w, st, maps) && WorldExtends(w, Follow(w, st, maps))
    ensures StoreKept(Follow(w, st, maps), st)
  {
  }

  lemma ChangeKeepsWorld(w: World, st: Store, maps: seq<StrMap>)
    requires WorldInv(w) && CanFollow(w, st, maps)
    ensures WorldInv(Follow(w, st, maps)) && WorldExtends(w, Follow(w, st, maps))
  {
    var w' := Follow(w, st, maps);
    ChangeExtends(w, st, maps);
    ChangedStoreKept(w, st, maps);
    forall v | 0 <= v < |w'.history| ensures StoreKept(w', w'.history[v]) {
      if v < |w.history| {
        assert w'.history[v] == w.history[v];
        assert StoreKept(w, w.history[v]);
        StoreSurvives(w, w', w.history[v]);
      }
    }
  }

  lemma VisitKeepsWorld(w: World, v: nat, o: NsObj, idx: HeapIndex, ss: seq<Subject>)
    requires WorldInv(w) && v < |w.history| && o in w.history[v].objects && ObjIn(w.heap, o)
    ensures var w' := w.(heap := Visit(w.heap, idx, o, ss).heap);
            WorldInv(w') && WorldExtends(w, w')
  {
    var w' := w.(heap := Visit(w.heap, idx, o, ss).heap);
    VisitFrame(w.heap, idx, o, ss);
    assert StoreKept(w, w.history[v]);
    assert ObjectKept(w, w.history[v], o);
    assert WorldExtends(w, w');
    forall u | 0 <= u < |w.history| ensures StoreKept(w', w.history[u]) {
      StoreSurvives(w, w', w.history[u]);
    }
  }

  /** Every step keeps the world consistent and overwrites nothing but visibility labels. */
  lemma NextKeepsWorld(s: State, step: Step, s': State)
    requires WorldInv(s.world) && Next(s, step, s')
    ensures WorldInv(s'.world) && WorldExtends(s.world, s'.world)
  {
    match step
    case StoreChange(kind, store, maps) => ChangeKeepsWorld(s.world, store, maps);
    case Answer(t, raw) =>
      var run := At(s, t).run;
      VisitKeepsWorld(s.world, run.listedAt, run.listing[|run.seen|], run.idx, Dedup(raw));
    case _ =>
  }

  // ----- runs -----

  ghost predicate SeenOk(w: World, run: Run, i: nat)
    requires i < |run.seen| <= |run.listing| && run.listedAt < |w.history|
  {
    var obs, o := run.seen[i], run.listing[i];
    && o in w.history[run.listedAt].objects
    && obs.read.ns == w.history[run.listedAt].objects[o]
    && run.listedAt <= obs.asked <= obs.answered < |w.history|
    && (obs.asked == obs.answered ==> obs.read.subs == Allowed(w.history[obs.asked], o.name))
  }

  /** The run has one list of one version, and its index says exactly what it has seen so far. */
  ghost predicate RunInv(w: World, run: Run) {
    && run.listedAt < |w.history|
    && Lists(run.listing, w.history[run.listedAt])
    && |run.seen| <= |run.listing|
    && (forall i :: 0 <= i < |run.seen| ==> SeenOk(w, run, i))
    && IndexMatches(w.heap, run.idx, Reads(run.seen))
    && Private(run.idx, SharedRefs(w))
  }

  lemma RunSurvives(w: World, w': World, run: Run)
    requires WorldInv(w) && WorldExtends(w, w') && RunInv(w, run)
    ensures RunInv(w', run)
  {
    assert w'.history[run.listedAt] == w.history[run.listedAt];
    forall i | 0 <= i < |run.seen| ensures SeenOk(w', run, i) { assert SeenOk(w, run, i); }
    ViewsSurviveSharedWrite(w.heap, w'.heap, run.idx, SharedRefs(w));
    forall s, k | s in run.idx && 0 <= k < |run.idx[s]| ensures Refs(run.idx[s][k]) !! SharedRefs(w') {
      assert ObjsIn(w.heap, run.idx[s]);
      assert ObjIn(w.heap, run.idx[s][k]);
      assert Refs(run.idx[s][k]) !! SharedRefs(w);
    }
  }

  lemma RunVisits(w: World, run: Run, raw: seq<Subject>, at: nat)
    requires WorldInv(w) && RunInv(w, run) && |run.seen| < |run.listing|
    requires run.listedAt <= at <= Now(w)
    requires at == Now(w) ==> Elems(raw) == Allowed(w.history[at], run.listing[|run.seen|].name)
    ensures var o := run.listing[|run.seen|];
            && o in w.history[run.listedAt].objects && ObjIn(w.heap, o)
            && var v := Visit(w.heap, run.idx, o, Dedup(raw));
               var obs := Observation(Read(w.history[run.listedAt].objects[o], Elems(raw)), at, Now(w));
               RunInv(w.(heap := v.heap), run.(seen := run.seen + [obs], idx := v.idx))
  {
    var o := run.listing[|run.seen|];
    var st := w.history[run.listedAt];
    assert o in Elems(run.listing);
    assert StoreKept(w, st);
    assert ObjectKept(w, st, o);
    var v := Visit(w.heap, run.idx, o, Dedup(raw));
    var obs := Observation(Read(st.objects[o], Elems(raw)), at, Now(w));
    var run' := run.(seen := run.seen + [obs], idx := v.idx);
    DedupKeepsSet(raw);
    PristineTwice(NsView(w.heap, o));
    VisitExtendsPass(w.heap, run.idx, o, Dedup(raw), Reads(run.seen), SharedRefs(w), obs.read);
    assert Reads(run'.seen) == Reads(run.seen) + [obs.read];
    forall i | 0 <= i < |run'.seen| ensures SeenOk(w.(heap := v.heap), run', i) {
      assert i < |run.seen| ==> SeenOk(w, run, i);
    }
  }

  lemma PristineTwice(ns: Namespace)
    ensures Pristine(Pristine(ns)) == Pristine(ns)
  {
    if ns.labels.Some? {
      var m := ns.labels.value;
      assert m - {VISIBILITY} - {VISIBILITY} == m - {VISIBILITY};
    }
  }

  ghost predicate PcInv(w: World, pc: Pc) {
    match pc
    case Looping(run) => RunInv(w, run)
    case Asking(run, at) =>
      RunInv(w, run) && !Complete(run) && run.listedAt <= at < |w.history|
    case _ => true
  }

  /** All runs in progress are sound, and every index ever stored comes from a complete pass. */
  ghost predicate RunsInv(s: State) {
    && WorldInv(s.world)
    && (forall t :: t in s.threads ==> PcInv(s.world, s.threads[t]))
    && (forall k :: 0 <= k < |s.published| ==> RunInv(s.world, s.published[k]) && Complete(s.published[k]))
  }

  lemma PcSurvives(w: World, w': World, pc: Pc)
    requires WorldInv(w) && WorldExtends(w, w') && PcInv(w, pc)
    ensures PcInv(w', pc)
  {
    match pc
    case Looping(run) => RunSurvives(w, w', run);
    case Asking(run, at) => RunSurvives(w, w', run);
    case _ =>
  }

  lemma EmptyRunOk(w: World, order: nat, listing: seq<NsObj>)
    requires WorldInv(w) && Lists(listing, w.history[Now(w)])
    ensures RunInv(w, Run(order, Now(w), listing, [], map[]))
  {
  }

  // ----- who moves, and how -----

  lemma OutsideStep(s: State, step: Step, s': State)
    requires Next(s, step, s') && Outside(step)
    ensures s'.threads == s.threads && s'.flag == s.flag && s'.runs == s.runs && s'.published == s.published
    ensures s'.completed == s.completed && s'.failed == s.failed && s.world.history <= s'.world.history
  {
  }

  lemma MoverStep(s: State, step: Step, s': State)
    requires Next(s, step, s') && !Outside(step)
    ensures var t := Mover(step); t in s'.threads && s'.threads == s.threads[t := s'.threads[t]]
    ensures s'.world.history == s.world.history
  {
  }

  ghost predicate Reading(pc: Pc) {
    pc.Looping? || pc.Asking?
  }

  /** In world `w` a run lists, asks, or is answered. */
  ghost predicate ReadsOn(w: World, pc: Pc, pc': Pc) {
    && w.history != []
    && (|| (pc.Won? && pc'.Looping? && pc'.run == Run(pc.order, Now(w), pc'.run.listing, [], map[]))
        || (pc.Looping? && pc' == Asking(pc.run, Now(w)))
        || (pc.Asking? && pc'.Looping? && pc'.run.order == pc.run.order && pc'.run.listedAt == pc.run.listedAt
            && |pc'.run.seen| == |pc.run.seen| + 1 && pc'.run.seen[..|pc.run.seen|] == pc.run.seen
            && pc'.run.seen[|pc.run.seen|].asked == pc.at && pc'.run.seen[|pc.run.seen|].answered == Now(w)))
  }

  /** A caller that moves and is then in a run has come there by listing, asking or an answer. */
  lemma NextReadsOn(s: State, step: Step, s': State)
    requires Next(s, step, s') && !Outside(step) && Reading(At(s', Mover(step)))
    ensures step.List? || step.Ask? || step.Answer?
    ensures Mover(step) in s.threads && ReadsOn(s.world, s.threads[Mover(step)], s'.threads[Mover(step)])
  {
  }

  lemma ListedOk(s: State, t: nat, listing: seq<NsObj>, s': State)
    requires WorldInv(s.world) && Next(s, Step.List(t, listing), s')
    ensures t in s'.threads && PcInv(s'.world, s'.threads[t])
  {
    EmptyRunOk(s.world, At(s, t).order, listing);
  }

  lemma AskedOk(s: State, t: nat, s': State)
    requires PcInv(s.world, At(s, t)) && Next(s, Ask(t), s')
    ensures t in s'.threads && PcInv(s'.world, s'.threads[t])
  {
  }

  lemma AnsweredOk(s: State, t: nat, raw: seq<Subject>, s': State)
    requires WorldInv(s.world) && PcInv(s.world, At(s, t)) && Next(s, Answer(t, raw), s')
    ensures t in s'.threads && PcInv(s'.world, s'.threads[t])
  {
    RunVisits(s.world, At(s, t).run, raw, At(s, t).at);
  }

  /** The pc a step leaves its own caller at is sound. */
  lemma MovedThreadOk(s: State, step: Step, s': State)
    requires WorldInv(s.world) && !Outside(step) && PcInv(s.world, At(s, Mover(step))) && Next(s, step, s')
    ensures PcInv(s'.world, At(s', Mover(step)))
  {
    if Reading(At(s', Mover(step))) {
      NextReadsOn(s, step, s');
      match step
      case List(t, listing) => ListedOk(s, t, listing, s');
      case Ask(t) => AskedOk(s, t, s');
      case Answer(t, raw) => AnsweredOk(s, t, raw, s');
      case _ => assert false;
    }
  }

  lemma NextKeepsPcs(s: State, step: Step, s': State, t: nat)
    requires RunsInv(s) && Next(s, step, s') && WorldExtends(s.world, s'.world) && t in s'.threads
    ensures PcInv(s'.world, s'.threads[t])
  {
    if Outside(step) {
      OutsideStep(s, step, s');
      PcSurvives(s.world, s'.world, s.threads[t]);
    } else {
      MoverStep(s, step, s');
      if t == Mover(step) {
        assert t in s.threads ==> PcInv(s.world, s.threads[t]);
        MovedThreadOk(s, step, s');
      } else {
        PcSurvives(s.world, s'.world, s.threads[t]);
      }
    }
  }

  lemma PublishStep(s: State, t: nat, s': State)
    requires Next(s, Publish(t), s')
    ensures At(s, t).Looping? && Complete(At(s, t).run)
    ensures s'.published == s.published + [At(s, t).run] && s'.world == s.world
  {
  }

  /** The context is looked at before a namespace only: a run that has visited all of them publishes,
      and a run fails only before its list or before a namespace. */
  lemma CompleteRunPublishes(s: State, step: Step, s': State)
    requires Next(s, step, s') && !Outside(step)
    ensures At(s, Mover(step)).Looping? && Complete(At(s, Mover(step)).run) ==> step == Publish(Mover(step))
    ensures At(s', Mover(step)) == Finishing(false) ==>
              At(s, Mover(step)).Won? || (At(s, Mover(step)).Looping? && !Complete(At(s, Mover(step)).run))
  {
  }

  lemma OnlyPublishPublishes(s: State, step: Step, s': State)
    requires Next(s, step, s') && !step.Publish?
    ensures s'.published == s.published
  {
  }

  lemma NextKeepsPublished(s: State, step: Step, s': State, k: nat)
    requires RunsInv(s) && Next(s, step, s') && WorldExtends(s.world, s'.world) && k < |s'.published|
    ensures RunInv(s'.world, s'.published[k]) && Complete(s'.published[k])
  {
    if step.Publish? { PublishStep(s, step.t, s'); } else { OnlyPublishPublishes(s, step, s'); }
    if k < |s.published| {
      RunSurvives(s.world, s'.world, s.published[k]);
    } else {
      assert PcInv(s.world, s.threads[step.t]);
    }
  }

  lemma NextKeepsRuns(s: State, step: Step, s': State)
    requires RunsInv(s) && Next(s, step, s')
    ensures RunsInv(s')
  {
    NextKeepsWorld(s, step, s');
    forall t | t in s'.threads ensures PcInv(s'.world, s'.threads[t]) {
      NextKeepsPcs(s, step, s', t);
    }
    forall k | 0 <= k < |s'.published| ensures RunInv(s'.world, s'.published[k]) && Complete(s'.published[k]) {
      NextKeepsPublished(s, step, s', k);
    }
  }
}
