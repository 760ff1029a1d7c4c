/** From every reachable state, one tick and one worker run bring the cache up to date. */
module Recovery {
  import opened Common
  import opened Subjects
  import opened AccessIndex
  import opened SharedHeap
  import opened Protocol
  import opened Invariants
  import opened Exclusion
  import opened LostUpdates

  /** `s'` can follow `s` without any change of the resource cache in between. */
  ghost predicate QuietPath(ss: seq<State>, steps: seq<Step>, s: State, s': State) {
    && Path(ss, steps)
    && ss[0] == s && ss[|ss| - 1] == s'
    && forall i :: 0 <= i < |steps| ==> !steps[i].StoreChange?
  }

  ghost predicate Leads(s: State, s': State) {
    exists ss, steps :: QuietPath(ss, steps, s, s')
  }

  lemma LeadsNowhere(s: State)
    ensures Leads(s, s)
  {
    assert QuietPath([s], [], s, s);
  }

  /** One more step at the end of a quiet path. */
  lemma LeadsOn(s: State, s': State, step: Step, s'': State)
    requires Leads(s, s') && Next(s', step, s'') && !step.StoreChange?
    ensures Leads(s, s'')
  {
    var ss, steps :| QuietPath(ss, steps, s, s');
    var ss', steps' := ss + [s''], steps + [step];
    forall i | 0 <= i < |steps'| ensures Next(ss'[i], steps'[i], ss'[i + 1]) {
      if i < |steps| { assert Next(ss[i], steps[i], ss[i + 1]); }
    }
    assert QuietPath(ss', steps', s, s'');
  }

  lemma {:induction false} PathInv(ss: seq<State>, steps: seq<Step>, i: nat)
    requires Path(ss, steps) && Inv(ss[0]) && i < |ss|
    ensures Inv(ss[i])
  {
    if i > 0 {
      PathInv(ss, steps, i - 1);
      NextInv(ss[i - 1], steps[i - 1], ss[i]);
    }
  }

  lemma LeadsInv(s: State, s': State)
    requires Inv(s) && Leads(s, s')
    ensures Inv(s')
  {
    var ss, steps :| QuietPath(ss, steps, s, s');
    PathInv(ss, steps, |ss| - 1);
  }

  lemma SetToSeq<T>(s: set<T>) returns (q: seq<T>)
    ensures NoDup(q) && Elems(q) == s
  {
    if s == {} {
      q := [];
    } else {
      var x :| x in s;
      var p := SetToSeq(s - {x});
      assert x in p ==> x in Elems(p);
      q := p + [x];
      forall y ensures y in q <==> y in s {
        assert y in p <==> y in Elems(p);
      }
    }
  }

  /** The part of the state a run does not touch. */
  ghost predicate SameOutside(s: State, s': State) {
    && s'.world.history == s.world.history
    && s'.queue.ticks == s.queue.ticks
    && s'.starts == s.starts && s'.workers == s.workers && s'.tickers == s.tickers
    && |s.published| <= |s'.published|
  }

  /** A run that holds the flag gives up, or publishes if it has nothing left to read. */
  lemma StopRun(s0: State, s: State, t: nat) returns (s': State)
    requires Leads(s0, s) && s.world.history != [] && Holds(s, t) && !At(s, t).Asking?
    ensures Leads(s0, s') && SameOutside(s, s') && At(s', t).Finishing?
    ensures s'.threads == s.threads[t := At(s', t)]
  {
    var pc := s.threads[t];
    if pc.Won? {
      s' := s.(threads := s.threads[t := Finishing(false)], spoiled := s.spoiled || t == WORKER);
      LeadsOn(s0, s, ListFail(t), s');
    } else if pc.Looping? && Complete(pc.run) {
      s' := s.(published := s.published + [pc.run], threads := s.threads[t := Finishing(true)]);
      LeadsOn(s0, s, Publish(t), s');
    } else if pc.Looping? {
      s' := s.(threads := s.threads[t := Finishing(false)], spoiled := s.spoiled || t == WORKER);
      LeadsOn(s0, s, Expire(t), s');
    } else {
      s' := s;
    }
  }

  lemma FinishHolder(s0: State, s: State, t: nat) returns (s': State)
    requires Inv(s0) && Leads(s0, s) && s.world.history != [] && Holds(s, t)
    ensures Leads(s0, s') && SameOutside(s, s') && !s'.flag
    ensures s'.threads == s.threads[t := Idle]
  {
    var a := s;
    if At(s, t).Asking? {
      a := AnswerOne(s0, s, t);
    }
    var b := StopRun(s0, a, t);
    s' := ReleaseFlag(s0, b, t);
  }

  lemma ReleaseFlag(s0: State, s: State, t: nat) returns (s': State)
    requires Leads(s0, s) && s.world.history != [] && At(s, t).Finishing?
    ensures Leads(s0, s') && SameOutside(s, s') && !s'.flag
    ensures s'.threads == s.threads[t := Idle] && s'.published == s.published && s'.world == s.world
    ensures s'.spoiled == s.spoiled
  {
    s' := s.(flag := false, threads := s.threads[t := Idle],
             ready := s.ready || (t == STARTUP && At(s, t).ok),
             completed := if At(s, t).ok then s.completed + 1 else s.completed,
             failed := if At(s, t).ok then s.failed else s.failed + 1);
    LeadsOn(s0, s, Release(t), s');
  }

  /** AllowedSubjects answers. */
  lemma AnswerOne(s0: State, s: State, t: nat) returns (s': State)
    requires Inv(s0) && Leads(s0, s) && At(s, t).Asking?
    ensures Leads(s0, s') && SameOutside(s, s') && At(s', t).Looping?
    ensures s'.threads == s.threads[t := At(s', t)] && s'.published == s.published && s'.spoiled == s.spoiled
    ensures At(s', t).run.listing == At(s, t).run.listing && At(s', t).run.listedAt == At(s, t).run.listedAt
    ensures |At(s', t).run.seen| == |At(s, t).run.seen| + 1
  {
    LeadsInv(s0, s);
    var run, at := At(s, t).run, At(s, t).at;
    assert PcInv(s.world, s.threads[t]);
    var o := run.listing[|run.seen|];
    var raw := SetToSeq(Allowed(s.world.history[Now(s.world)], o.name));
    RunVisits(s.world, run, raw, at);
    var v := Visit(s.world.heap, run.idx, o, Dedup(raw));
    var obs := Observation(Read(s.world.history[run.listedAt].objects[o], Elems(raw)), at, Now(s.world));
    s' := s.(world := s.world.(heap := v.heap),
             threads := s.threads[t := Looping(run.(seen := run.seen + [obs], idx := v.idx))]);
    LeadsOn(s0, s, Answer(t, raw), s');
  }

  lemma FreeFlag(s0: State, s: State)
    requires Inv(s0) && Leads(s0, s) && !s.flag
    ensures !Holding(At(s, WORKER))
  {
    LeadsInv(s0, s);
    assert !Holds(s, WORKER);
  }

  /** Every caller in the way finishes: the flag is free and the worker idle. */
  lemma ClearTheWay(s: State) returns (s': State)
    requires Inv(s)
    ensures Leads(s, s') && SameOutside(s, s') && !s'.flag && At(s', WORKER).Idle?
  {
    LeadsNowhere(s);
    s' := s;
    if s'.flag {
      var t :| Holds(s', t);
      s' := FinishHolder(s, s', t);
    }
    FreeFlag(s, s');
    if At(s', WORKER).Calling? {
      var a := s';
      var b := a.(flag := true, runs := a.runs + 1, threads := a.threads[WORKER := Won(a.runs)]);
      LeadsOn(s, a, Win(WORKER), b);
      assert Holds(b, WORKER);
      s' := FinishHolder(s, b, WORKER);
    }
  }

  /** The worker takes a token that one tick has left, and lists. */
  lemma TickAndList(s0: State, s: State) returns (s': State)
    requires Leads(s0, s) && s.world.history != [] && s.workers > 0 && s.tickers > 0 && !s.flag && At(s, WORKER).Idle?
    ensures Leads(s0, s') && s'.world == s.world && s'.published == s.published
    ensures s'.queue.ticks == s.queue.ticks + 1 && !s'.spoiled
    ensures At(s', WORKER).Looping? && At(s', WORKER).run.listedAt == Now(s.world)
  {
    var a := s.(queue := RequestForTime(s.queue.(ticks := s.queue.ticks + 1)));
    LeadsOn(s0, s, Tick, a);
    var b := a.(queue := a.queue.(token := false, taken := a.queue.taken + 1),
                threads := a.threads[WORKER := Calling], spoiled := false);
    LeadsOn(s0, a, Take, b);
    var c := b.(flag := true, runs := b.runs + 1, threads := b.threads[WORKER := Won(b.runs)]);
    LeadsOn(s0, b, Win(WORKER), c);
    var listing := SetToSeq(c.world.history[Now(c.world)].objects.Keys);
    s' := c.(threads := c.threads[WORKER := Looping(Run(b.runs, Now(c.world), listing, [], map[]))]);
    LeadsOn(s0, c, Step.List(WORKER, listing), s');
  }

  /** The worker reads the rest of its list. */
  lemma ReadTheRest(s0: State, s: State) returns (s': State)
    requires Inv(s0) && Leads(s0, s) && At(s, WORKER).Looping?
    ensures Leads(s0, s') && SameOutside(s, s') && s'.published == s.published && s'.spoiled == s.spoiled
    ensures At(s', WORKER).Looping? && Complete(At(s', WORKER).run)
    ensures At(s', WORKER).run.listedAt == At(s, WORKER).run.listedAt
    decreases |At(s, WORKER).run.listing| - |At(s, WORKER).run.seen|
  {
    var run := At(s, WORKER).run;
    LeadsInv(s0, s);
    assert PcInv(s.world, s.threads[WORKER]);
    if Complete(run) {
      s' := s;
    } else {
      var a := s.(threads := s.threads[WORKER := Asking(run, Now(s.world))]);
      LeadsOn(s0, s, Ask(WORKER), a);
      var b := AnswerOne(s0, a, WORKER);
      s' := ReadTheRest(s0, b);
    }
  }

  /** From any state of any execution in which the cache has been started, including one where a
      token was wasted or a caller is in the middle of a run, there is a continuation without store
      changes, with one tick, after which the worker is idle again, its last token was not wasted
      and what callers read is a recomputation from the current version. */
  lemma RecoveryIsPossible(ss: seq<State>, steps: seq<Step>, i: nat) returns (s': State)
    requires Execution(ss, steps) && i < |ss| && ss[i].starts > 0
    ensures Leads(ss[i], s')
    ensures s'.world.history == ss[i].world.history && s'.queue.ticks == ss[i].queue.ticks + 1
    ensures |ss[i].published| < |s'.published| && s'.world.history != [] && Fresh(s')
    ensures At(s', WORKER).Idle? && !s'.spoiled && !s'.flag
  {
    var s := ss[i];
    ReachableInv(ss, steps, i);
    var a := ClearTheWay(s);
    var b := TickAndList(s, a);
    var c := ReadTheRest(s, b);
    var run := At(c, WORKER).run;
    var d := c.(published := c.published + [run], threads := c.threads[WORKER := Finishing(true)]);
    LeadsOn(s, c, Publish(WORKER), d);
    s' := ReleaseFlag(s, d, WORKER);
    LastIsFresh(s, s', run);
  }

  /** A published run that listed the current version is a recomputation from it. */
  lemma LastIsFresh(s0: State, s: State, run: Run)
    requires Inv(s0) && Leads(s0, s)
    requires s.published != [] && s.published[|s.published| - 1] == run && run.listedAt + 1 == |s.world.history|
    ensures s.world.history != [] && Fresh(s)
  {
    LeadsInv(s0, s);
    forall k | 0 <= k < |run.seen| ensures run.seen[k].asked == run.seen[k].answered == run.listedAt {
      assert SeenOk(s.world, run, k);
    }
    CompletePassIsExact(s.world, run, Now(s.world));
  }
}
