/** What a published copy says, in every state of every execution. */
module Snapshots {
  import opened Common
  import opened Subjects
  import opened Namespaces
  import opened AccessIndex
  import opened SharedHeap
  import opened Protocol
  import opened Invariants
  import opened LostUpdates
  import opened Recovery
  import opened Metrics
  import opened Synchronizer

  /** The position in the list of the `m`-th namespace published for `s`. */
  ghost function SourceOf(run: Run, s: Subject, m: nat): nat
    requires m < |Positions(Reads(run.seen), s)|
  {
    Positions(Reads(run.seen), s)[m]
  }

  /** In every later state the copy published for `s` is the listed namespace, decorated with the
      subjects that the same run was answered for it and with `s`, and nothing of another run or of
      another subject. Its visibility is right if and only if the namespace has a label map; it
      names `s` exactly unless the namespace itself carries the subject-namespace annotation and
      `s` has no namespace. */
  lemma PublishedCopy(ss: seq<State>, steps: seq<Step>, i: nat, k: nat, s: Subject, m: nat)
    requires Execution(ss, steps) && i < |ss| && k < |ss[i].published|
    requires s in ss[i].published[k].idx && m < |ss[i].published[k].idx[s]|
    ensures var w, run := ss[i].world, ss[i].published[k];
            && m < |Positions(Reads(run.seen), s)|
            && var p := SourceOf(run, s, m);
               && p < |run.seen| <= |run.listing| && run.listedAt < |w.history|
               && SeenOk(w, run, p) && s in run.seen[p].read.subs
               && ObjIn(w.heap, run.idx[s][m])
               && var c, r := NsView(w.heap, run.idx[s][m]), run.seen[p].read;
                  && c == Decorate(r.ns, r.subs, s)
                  && (VISIBILITY in c.labels.value <==> r.ns.labels.Some?)
                  && (r.ns.labels.Some? ==>
                        (c.labels.value[VISIBILITY] == AUTHENTICATED <==> SharedWithAuthenticated(r.subs)))
                  && (NamesSubject(c, s) <==> s.namespace != "" || SUBJECT_NAMESPACE !in OrEmpty(r.ns.annotations))
                  && (r.ns.labels.Some? ==>
                        && "virtual.konflux-ci.dev/visibility" in c.labels.value
                        && c.labels.value["virtual.konflux-ci.dev/visibility"] ==
                           if exists x: string ::
                             Subject("rbac.authorization.k8s.io", "Group", x, "system:authenticated") in r.subs
                           then "authenticated" else "private")
  {
    AllOrNothing(ss, steps, i, k);
    var w, run := ss[i].world, ss[i].published[k];
    var pass := Reads(run.seen);
    EntryIsSubsequence(pass, s);
    assert ObjsView(w.heap, run.idx[s]) == Entry(pass, s);
    var p := SourceOf(run, s, m);
    assert p in Positions(pass, s);
    assert ObjsIn(w.heap, run.idx[s]);
    var r := run.seen[p].read;
    assert pass[p] == r;
    VisibilityExact(r.ns, r.subs, s);
    if r.ns.labels.Some? { VisibilityLabel(r.ns, r.subs, s); }
    CopyNamesItsSubject(r.ns, r.subs, s);
  }

  /** Every published index has one pair for every namespace of its list and distinct subject that
      its run was answered for it. */
  lemma PublishedPairs(ss: seq<State>, steps: seq<Step>, i: nat, k: nat)
    requires Execution(ss, steps) && i < |ss| && k < |ss[i].published|
    ensures Pairs(ss[i].published[k].idx) == DistinctPairs(Reads(ss[i].published[k].seen))
  {
    AllOrNothing(ss, steps, i, k);
    PairsCountThePass(ss[i].world.heap, ss[i].published[k].idx, Reads(ss[i].published[k].seen));
  }

  // ----- the protocol and the sequential code -----

  /** `h` and `answers` are what a sequential run would have to meet to read what `run` has read: the
      listed namespaces up to their visibility labels, and the same subjects in any order. */
  ghost predicate Meets(run: Run, h: Heap, answers: seq<seq<Subject>>) {
    && ObjsIn(h, run.listing) && |run.seen| <= |run.listing| <= |answers|
    && forall i :: 0 <= i < |run.seen| ==>
         && Pristine(NsView(h, run.listing[i])) == run.seen[i].read.ns
         && Elems(answers[i]) == run.seen[i].read.subs
  }

  /** The index of the run says what the index says that the loop over the same namespaces builds. */
  ghost predicate AsInLoop(w: World, run: Run, h: Heap, answers: seq<seq<Subject>>)
    requires Meets(run, h, answers)
  {
    var l := Loop(h, run.listing[..|run.seen|], answers);
    && IndexIn(w.heap, run.idx) && IndexIn(l.heap, l.idx)
    && (forall s :: s in run.idx <==> s in l.idx)
    && forall s :: s in run.idx ==> ObjsView(w.heap, run.idx[s]) == ObjsView(l.heap, l.idx[s])
  }

  lemma ListedApart(w: World, run: Run, n: nat)
    requires WorldInv(w) && RunInv(w, run) && n <= |run.listing|
    ensures Apart(run.listing[..n])
  {
    forall i | 0 <= i < n ensures ObjectKept(w, w.history[run.listedAt], run.listing[i]) {
      assert run.listing[i] in Elems(run.listing);
      assert StoreKept(w, w.history[run.listedAt]);
    }
  }

  lemma PassesAgree(run: Run, h: Heap, answers: seq<seq<Subject>>, s: Subject)
    requires Meets(run, h, answers)
    requires forall i :: 0 <= i < |run.seen| ==> Pristine(run.seen[i].read.ns) == run.seen[i].read.ns
    ensures Entry(PassOf(h, run.listing[..|run.seen|], answers), s) == Entry(Reads(run.seen), s)
  {
    EntryIgnoresStaleVisibility(PassOf(h, run.listing[..|run.seen|], answers), Reads(run.seen), s);
  }

  lemma SeenIsPristine(w: World, run: Run, i: nat)
    requires WorldInv(w) && RunInv(w, run) && i < |run.seen|
    ensures Pristine(run.seen[i].read.ns) == run.seen[i].read.ns
  {
    assert SeenOk(w, run, i);
    var st, o := w.history[run.listedAt], run.listing[i];
    assert StoreKept(w, st);
    assert ObjectKept(w, st, o);
    PristineTwice(NsView(w.heap, o));
  }

  /** At any point of any run, whatever informers and other runs have done to the heap since its list,
      its index says what the sequential loop over the namespaces seen so far builds. */
  lemma RunIsLoop(w: World, run: Run, h: Heap, answers: seq<seq<Subject>>)
    requires WorldInv(w) && RunInv(w, run) && Meets(run, h, answers)
    ensures AsInLoop(w, run, h, answers)
  {
    var listing := run.listing[..|run.seen|];
    ListedApart(w, run, |run.seen|);
    RefsAllocated(h, listing);
    LoopMatches(h, listing, answers, ListingRefs(listing));
    forall i | 0 <= i < |run.seen| ensures Pristine(run.seen[i].read.ns) == run.seen[i].read.ns {
      SeenIsPristine(w, run, i);
    }
    forall s ensures Entry(PassOf(h, listing, answers), s) == Entry(Reads(run.seen), s) {
      PassesAgree(run, h, answers, s);
    }
  }

  lemma RefsAllocated(h: Heap, listing: seq<NsObj>)
    requires ObjsIn(h, listing)
    ensures forall r :: r in ListingRefs(listing) ==> r < |h|
  {
  }

  /** An answer in the protocol is one iteration of the loop of the sequential code: before it the index
      is what the loop makes of the answers so far, after it what the loop makes of one more. */
  lemma AnswerIsOneIteration(ss: seq<State>, steps: seq<Step>, i: nat, h: Heap, answers: seq<seq<Subject>>)
    requires Execution(ss, steps) && i < |steps| && steps[i].Answer?
    requires At(ss[i], steps[i].t).Asking? && At(ss[i + 1], steps[i].t).Looping?
    requires Meets(At(ss[i + 1], steps[i].t).run, h, answers)
    ensures var before, after := At(ss[i], steps[i].t).run, At(ss[i + 1], steps[i].t).run;
            && after.listing == before.listing && |after.seen| == |before.seen| + 1
            && Elems(answers[|before.seen|]) == Elems(steps[i].raw)
            && Meets(before, h, answers) && AsInLoop(ss[i].world, before, h, answers)
            && AsInLoop(ss[i + 1].world, after, h, answers)
  {
    var t := steps[i].t;
    AnswerStep(ss[i], steps[i], ss[i + 1]);
    ReachableInv(ss, steps, i);
    ReachableInv(ss, steps, i + 1);
    assert PcInv(ss[i].world, ss[i].threads[t]) && PcInv(ss[i + 1].world, ss[i + 1].threads[t]);
    MeetsBefore(At(ss[i], t).run, At(ss[i + 1], t).run, h, answers);
    RunIsLoop(ss[i].world, At(ss[i], t).run, h, answers);
    RunIsLoop(ss[i + 1].world, At(ss[i + 1], t).run, h, answers);
  }

  lemma MeetsBefore(before: Run, after: Run, h: Heap, answers: seq<seq<Subject>>)
    requires Meets(after, h, answers) && after.listing == before.listing
    requires |after.seen| == |before.seen| + 1 && after.seen[..|before.seen|] == before.seen
    ensures Meets(before, h, answers)
  {
  }

  lemma AnswerStep(s: State, step: Step, s': State)
    requires Next(s, step, s') && step.Answer?
    ensures At(s, step.t).Asking? && At(s', step.t).Looping?
    ensures var before, after := At(s, step.t).run, At(s', step.t).run;
            && after.listing == before.listing && |after.seen| == |before.seen| + 1
            && after.seen[..|before.seen|] == before.seen
            && after.seen[|before.seen|].read.subs == Elems(step.raw)
  {
  }

  /** Every published index says, in every later state, what one sequential run over the same list and
      answers builds, although the protocol interleaves the run with store changes and other callers. */
  lemma PublishedRefinesLoop(ss: seq<State>, steps: seq<Step>, i: nat, k: nat, h: Heap, answers: seq<seq<Subject>>)
    requires Execution(ss, steps) && i < |ss| && k < |ss[i].published|
    requires Meets(ss[i].published[k], h, answers)
    ensures Complete(ss[i].published[k]) && AsInLoop(ss[i].world, ss[i].published[k], h, answers)
  {
    ReachableInv(ss, steps, i);
    RunIsLoop(ss[i].world, ss[i].published[k], h, answers);
  }

  /** There always is such a sequential run: the heap as it is now and the answers of the run, each in
      any order and with any repetitions, are met. */
  lemma CurrentHeapMeets(ss: seq<State>, steps: seq<Step>, i: nat, k: nat, answers: seq<seq<Subject>>)
    requires Execution(ss, steps) && i < |ss| && k < |ss[i].published|
    requires |answers| == |ss[i].published[k].seen|
    requires forall p :: 0 <= p < |answers| ==> Elems(answers[p]) == ss[i].published[k].seen[p].read.subs
    ensures Meets(ss[i].published[k], ss[i].world.heap, answers)
  {
    ReachableInv(ss, steps, i);
    var w, run := ss[i].world, ss[i].published[k];
    var st := w.history[run.listedAt];
    assert StoreKept(w, st);
    forall p | 0 <= p < |run.listing|
      ensures ObjIn(w.heap, run.listing[p]) && Pristine(NsView(w.heap, run.listing[p])) == run.seen[p].read.ns
    {
      assert SeenOk(w, run, p);
      assert ObjectKept(w, st, run.listing[p]);
    }
  }

  lemma {:induction false} SomeAnswers(seen: seq<Observation>) returns (answers: seq<seq<Subject>>)
    ensures |answers| == |seen|
    ensures forall p :: 0 <= p < |seen| ==> Elems(answers[p]) == seen[p].read.subs
  {
    if seen == [] {
      answers := [];
    } else {
      var init := SomeAnswers(seen[..|seen| - 1]);
      var last := SetToSeq(seen[|seen| - 1].read.subs);
      answers := init + [last];
    }
  }

  /** So every published index is what some sequential run over its list builds. */
  lemma PublishedIsSomeLoop(ss: seq<State>, steps: seq<Step>, i: nat, k: nat) returns (answers: seq<seq<Subject>>)
    requires Execution(ss, steps) && i < |ss| && k < |ss[i].published|
    ensures Meets(ss[i].published[k], ss[i].world.heap, answers)
    ensures AsInLoop(ss[i].world, ss[i].published[k], ss[i].world.heap, answers)
  {
    answers := SomeAnswers(ss[i].published[k].seen);
    CurrentHeapMeets(ss, steps, i, k, answers);
    PublishedRefinesLoop(ss, steps, i, k, ss[i].world.heap, answers);
  }
}
