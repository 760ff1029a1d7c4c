/** The synchronized access cache as an object: one call of its methods at a time. What the
    environment answers (the namespace list, the allowed subjects, when the context expires) is a
    parameter. */
module Synchronizer {
  import opened Common
  import opened Subjects
  import opened Namespaces
  import opened AccessIndex
  import opened SharedHeap
  import opened ListCache
  import opened Metrics

  function NameOf(o: NsObj): string {
    o.name
  }

  /** What one run meets: the list, or `None` for a list error, and the text of that error; the answer of
      AllowedSubjects for each namespace; the namespace before which the context has ended, if any, and
      whether it was cancelled or timed out; and how long the run takes. */
  datatype Feed = Feed(listing: Option<seq<NsObj>>, listError: string, answers: seq<seq<Subject>>,
                       expires: Option<nat>, cancelled: bool, duration: nat)

  /** The context ends before the run has visited all namespaces. */
  ghost predicate Ends(feed: Feed) {
    feed.listing.Some? && feed.expires.Some? && feed.expires.value < |feed.listing.value|
  }

  /** The namespaces a run visits: all, or those before the one at which the context has expired. */
  ghost function Visited(feed: Feed): seq<NsObj> {
    if feed.listing.None? then []
    else if feed.expires.Some? && feed.expires.value < |feed.listing.value|
    then feed.listing.value[..feed.expires.value]
    else feed.listing.value
  }

  ghost predicate Fits(h: Heap, feed: Feed) {
    feed.listing.Some? ==>
      ObjsIn(h, feed.listing.value) && |feed.listing.value| <= |feed.answers| && Apart(feed.listing.value)
  }

  ghost function SharedBy(feed: Feed): set<Ref> {
    if feed.listing.Some? then ListingRefs(feed.listing.value) else {}
  }

  /** Indexes that share no map with the listed namespaces say the same in both heaps. */
  ghost predicate PrivateKept(h: Heap, h': Heap, shared: set<Ref>) {
    forall idx: HeapIndex :: IndexIn(h, idx) && Private(idx, shared) ==>
      IndexIn(h', idx) && forall s :: s in idx ==> ObjsView(h', idx[s]) == ObjsView(h, idx[s])
  }

  datatype SynchError = AlreadyRunning | ListFailed(text: string) | Cancelled | DeadlineExceeded

  // ----- specification of the loop -----

  ghost function Loop(h: Heap, listing: seq<NsObj>, answers: seq<seq<Subject>>): (r: Loaded)
    requires ObjsIn(h, listing) && |listing| <= |answers|
    ensures |h| <= |r.heap|
    decreases |listing|
  {
    if listing == [] then Loaded(h, map[])
    else
      var k := |listing| - 1;
      var l := Loop(h, listing[..k], answers);
      VisitFrame(l.heap, l.idx, listing[k], Dedup(answers[k]));
      Visit(l.heap, l.idx, listing[k], Dedup(answers[k]))
  }

  /** No map of the list serves both as labels and as annotations. */
  ghost predicate Apart(listing: seq<NsObj>) {
    forall i, j :: 0 <= i < |listing| && 0 <= j < |listing| && listing[i].labels.Some? ==>
      listing[i].labels != listing[j].annotations
  }

  ghost function ListingRefs(listing: seq<NsObj>): set<Ref> {
    set i, r | 0 <= i < |listing| && r in Refs(listing[i]) :: r
  }

  /** The pass the run makes: the namespaces as they are at its start, and the answers. */
  ghost function PassOf(h: Heap, listing: seq<NsObj>, answers: seq<seq<Subject>>): (rr: seq<Read>)
    requires ObjsIn(h, listing) && |listing| <= |answers|
    ensures |rr| == |listing|
    ensures forall i :: 0 <= i < |listing| ==> rr[i] == Read(NsView(h, listing[i]), Elems(answers[i]))
  {
    seq(|listing|, i requires 0 <= i < |listing| => Read(NsView(h, listing[i]), Elems(answers[i])))
  }

  lemma LoopExtends(h: Heap, listing: seq<NsObj>, answers: seq<seq<Subject>>, k: nat)
    requires ObjsIn(h, listing) && k < |listing| <= |answers|
    ensures var l := Loop(h, listing[..k], answers);
            Loop(h, listing[..k + 1], answers) == Visit(l.heap, l.idx, listing[k], Dedup(answers[k]))
  {
    assert listing[..k + 1][..k] == listing[..k];
  }

  /** The loop overwrites nothing but visibility labels of the listed namespaces. */
  lemma {:induction false} LoopFrame(h: Heap, listing: seq<NsObj>, answers: seq<seq<Subject>>)
    requires ObjsIn(h, listing) && |listing| <= |answers|
    ensures var h' := Loop(h, listing, answers).heap;
            && (forall r :: 0 <= r < |h| && (forall i :: 0 <= i < |listing| ==> listing[i].labels != Some(r)) ==>
                  h'[r] == h[r])
            && (forall r :: 0 <= r < |h| ==> h'[r] - {VISIBILITY} == h[r] - {VISIBILITY})
    decreases |listing|
  {
    if listing != [] {
      var k := |listing| - 1;
      LoopFrame(h, listing[..k], answers);
      var l := Loop(h, listing[..k], answers);
      VisitFrame(l.heap, l.idx, listing[k], Dedup(answers[k]));
    }
  }

  /** When the loop comes to a namespace, at most its visibility label has changed. */
  lemma LoopKeepsPristine(h: Heap, listing: seq<NsObj>, answers: seq<seq<Subject>>, o: NsObj)
    requires ObjsIn(h, listing) && |listing| <= |answers| && ObjIn(h, o)
    requires forall i :: 0 <= i < |listing| && listing[i].labels.Some? ==> listing[i].labels != o.annotations
    ensures Pristine(NsView(Loop(h, listing, answers).heap, o)) == Pristine(NsView(h, o))
  {
    LoopFrame(h, listing, answers);
    ViewKeepsPristine(h, Loop(h, listing, answers).heap, o);
  }

  lemma ViewKeepsPristine(h: Heap, h': Heap, o: NsObj)
    requires ObjIn(h, o) && |h| <= |h'|
    requires forall r :: 0 <= r < |h| ==> h'[r] - {VISIBILITY} == h[r] - {VISIBILITY}
    requires o.annotations.Some? ==> h'[o.annotations.value] == h[o.annotations.value]
    ensures Pristine(NsView(h', o)) == Pristine(NsView(h, o))
  {
  }

  lemma RefsOfListed(listing: seq<NsObj>, i: nat)
    requires i < |listing|
    ensures Refs(listing[i]) <= ListingRefs(listing)
    ensures ListingRefs(listing[..i]) <= ListingRefs(listing)
  {
  }

  /** The index the loop builds says exactly what its pass produces, and shares no map with the
      listed namespaces. */
  lemma {:induction false} LoopMatches(h: Heap, listing: seq<NsObj>, answers: seq<seq<Subject>>, shared: set<Ref>)
    requires ObjsIn(h, listing) && |listing| <= |answers| && Apart(listing)
    requires ListingRefs(listing) <= shared && forall r :: r in shared ==> r < |h|
    ensures var l := Loop(h, listing, answers);
            IndexMatches(l.heap, l.idx, PassOf(h, listing, answers)) && Private(l.idx, shared)
    decreases |listing|
  {
    if listing == [] {
      assert PassOf(h, listing, answers) == [];
    } else {
      var k := |listing| - 1;
      RefsOfListed(listing, k);
      LoopMatches(h, listing[..k], answers, shared);
      LoopKeepsPristine(h, listing[..k], answers, listing[k]);
      var l, r := Loop(h, listing[..k], answers), Read(NsView(h, listing[k]), Elems(answers[k]));
      PassOfExtends(h, listing, answers);
      DedupKeepsSet(answers[k]);
      VisitExtendsPass(l.heap, l.idx, listing[k], Dedup(answers[k]), PassOf(h, listing[..k], answers), shared, r);
    }
  }

  lemma PassOfExtends(h: Heap, listing: seq<NsObj>, answers: seq<seq<Subject>>)
    requires ObjsIn(h, listing) && 0 < |listing| <= |answers|
    ensures var k := |listing| - 1;
            PassOf(h, listing, answers) ==
            PassOf(h, listing[..k], answers) + [Read(NsView(h, listing[k]), Elems(answers[k]))]
  {
  }

  // ----- the object -----

  class SynchronizedAccessCache {
    var heap: Heap
    var requested: bool
    var synchronizing: bool
    var started: bool
    var workers: nat
    var tickers: nat
    const cache: AtomicListRestockCache<Subject, NsObj, string>
    const metrics: AccessCacheMetrics

    constructor (h: Heap)
      ensures heap == h && !requested && !synchronizing && !started && workers == tickers == 0
      ensures fresh(cache) && fresh(metrics) && cache.data == None && cache.idFunc == NameOf
    {
      heap := h;
      requested, synchronizing, started, workers, tickers := false, false, false, 0, 0;
      var c := new AtomicListRestockCache<Subject, NsObj, string>(NameOf);
      cache := c;
      metrics := new AccessCacheMetrics();
    }

    /** Puts a token into the channel unless there is one, and counts the request. */
    method Request(event: Event) returns (queued: bool)
      modifies `requested, metrics`timeQueued, metrics`timeSkipped, metrics`resourceQueued, metrics`resourceSkipped
      ensures queued == !old(requested) && requested
      ensures metrics.timeQueued == old(metrics.timeQueued) + if event.TimeTriggered? && queued then 1 else 0
      ensures metrics.timeSkipped == old(metrics.timeSkipped) + if event.TimeTriggered? && !queued then 1 else 0
      ensures metrics.resourceQueued == old(metrics.resourceQueued) + if event.OnResource? && queued then 1 else 0
      ensures metrics.resourceSkipped == old(metrics.resourceSkipped) + if event.OnResource? && !queued then 1 else 0
    {
      if requested {
        queued := false;
      } else {
        requested := true;
        queued := true;
      }
      metrics.CollectRequestMetrics(event, queued);
    }

    /** Only the first call starts the worker and the ticker. */
    method Start()
      requires workers == tickers == if started then 1 else 0
      modifies `started, `workers, `tickers
      ensures started && workers == tickers == 1
    {
      if !started {
        started := true;
        workers := workers + 1;
        tickers := tickers + 1;
      }
    }

    method SetVisibilityVirtualLabel(o: NsObj, ss: seq<Subject>)
      requires ObjIn(heap, o)
      modifies `heap
      ensures heap == SetVisibility(old(heap), o, ss)
      ensures o.labels.None? ==> heap == old(heap)
      ensures o.labels.Some? ==>
                heap == old(heap)[o.labels.value := old(heap)[o.labels.value]["virtual.konflux-ci.dev/visibility" :=
                  if exists x: string :: Subject("rbac.authorization.k8s.io", "Group", x, "system:authenticated") in ss
                  then "authenticated" else "private"]]
    {
      AuthenticatedIn(ss);
      if o.labels.None? {
        return;  // the map made here is never attached to the namespace
      }
      var a := o.labels.value;
      var k := 0;
      while k < |ss| && !IsSystemAuthenticated(ss[k])
        invariant 0 <= k <= |ss|
        invariant forall j :: 0 <= j < k ==> !IsSystemAuthenticated(ss[j])
      {
        k := k + 1;
      }
      if k < |ss| {
        heap := heap[a := heap[a][VISIBILITY := AUTHENTICATED]];
        return;
      }
      heap := heap[a := heap[a][VISIBILITY := PRIVATE]];
    }

    method WithVirtualLabelsAndAnnotationsForAccess(o: NsObj, sub: Subject) returns (c: NsObj)
      requires ObjIn(heap, o)
      modifies `heap
      ensures (heap, c) == CopyForAccess(old(heap), o, sub)
      ensures c == NsObj(o.name, Some(|old(heap)|), Some(|old(heap)| + 1))
      ensures heap == old(heap) + [
                OrEmpty(Deref(old(heap), o.labels))["virtual.konflux-ci.dev/access" := ToLower(sub.kind)],
                var aa := OrEmpty(Deref(old(heap), o.annotations))["virtual.konflux-ci.dev/subject-name" := sub.name];
                if sub.namespace == "" then aa else aa["virtual.konflux-ci.dev/subject-namespace" := sub.namespace]]
    {
      // the deep copy, with empty maps for nil ones
      var n := |heap|;
      heap := heap + [OrEmpty(Deref(heap, o.labels)), OrEmpty(Deref(heap, o.annotations))];
      c := NsObj(o.name, Some(n), Some(n + 1));
      // add labels
      heap := heap[n := heap[n][ACCESS := ToLower(sub.kind)]];
      // add annotations
      heap := heap[n + 1 := heap[n + 1][SUBJECT_NAME := sub.name]];
      if sub.namespace != "" {
        heap := heap[n + 1 := heap[n + 1][SUBJECT_NAMESPACE := sub.namespace]];
      }
      assert heap == CopyForAccess(old(heap), o, sub).0;
    }

    /** One namespace: deduplicate, label, copy per subject. */
    method VisitNamespace(o: NsObj, answer: seq<Subject>, c: HeapIndex) returns (c': HeapIndex)
      requires ObjIn(heap, o)
      modifies `heap
      ensures Loaded(heap, c') == Visit(old(heap), c, o, Dedup(answer))
    {
      var slice := new Subject[|answer|](i requires 0 <= i < |answer| => answer[i]);
      assert slice[..] == answer;
      var ss := RemoveDuplicateSubjects(slice);
      SetVisibilityVirtualLabel(o, ss);
      c' := AddToIndex(o, ss, c);
    }

    /** One copy per subject, appended to the entry of the subject. */
    method AddToIndex(o: NsObj, ss: seq<Subject>, c: HeapIndex) returns (c': HeapIndex)
      requires ObjIn(heap, o)
      modifies `heap
      ensures Loaded(heap, c') == AddCopies(old(heap), c, o, ss)
    {
      c' := c;
      var k := 0;
      while k < |ss|
        invariant 0 <= k <= |ss|
        invariant Loaded(heap, c') == AddCopies(old(heap), c, o, ss[..k])
      {
        assert ss[..k + 1][..k] == ss[..k];
        var lns := WithVirtualLabelsAndAnnotationsForAccess(o, ss[k]);
        c' := c'[ss[k] := (if ss[k] in c' then c'[ss[k]] else []) + [lns]];
        k := k + 1;
      }
      assert ss[..k] == ss;
    }

    /** Builds the index and stores it; an error leaves the stored index alone. */
    method SynchData(feed: Feed) returns (c: HeapIndex, err: Option<SynchError>)
      requires feed.listing.Some? ==> ObjsIn(heap, feed.listing.value) && |feed.listing.value| <= |feed.answers|
      modifies `heap, cache
      ensures heap == Loop(old(heap), Visited(feed), feed.answers).heap
      ensures feed.listing.None? ==> err == Some(ListFailed(feed.listError)) && cache.data == old(cache.data)
      ensures Ends(feed) ==> cache.data == old(cache.data)
      ensures Ends(feed) && feed.cancelled ==> err == Some(Cancelled)
      ensures Ends(feed) && !feed.cancelled ==> err == Some(DeadlineExceeded)
      ensures feed.listing.Some? && !Ends(feed) ==>
                err == None && cache.data == Some(c) && c == Loop(old(heap), Visited(feed), feed.answers).idx
    {
      c := map[];
      if feed.listing.None? { return c, Some(ListFailed(feed.listError)); }
      var expired;
      c, expired := VisitAll(feed.listing.value, feed.answers, feed.expires);
      if expired { return map[], Some(if feed.cancelled then Cancelled else DeadlineExceeded); }
      cache.Restock(c);
      err := None;
    }

    /** Visits the namespaces in turn, up to the one before which the context has expired. */
    method VisitAll(nn: seq<NsObj>, answers: seq<seq<Subject>>, expires: Option<nat>)
      returns (c: HeapIndex, expired: bool)
      requires ObjsIn(heap, nn) && |nn| <= |answers|
      modifies `heap
      ensures expired <==> expires.Some? && expires.value < |nn|
      ensures Loaded(heap, c) == Loop(old(heap), if expired then nn[..expires.value] else nn, answers)
    {
      c := map[];
      var i := 0;
      while i < |nn|
        invariant 0 <= i <= |nn| && (expires.Some? && expires.value < |nn| ==> i <= expires.value)
        invariant |old(heap)| <= |heap| && Loaded(heap, c) == Loop(old(heap), nn[..i], answers)
      {
        if expires.Some? && expires.value <= i {
          return c, true;
        }
        LoopExtends(old(heap), nn, answers, i);
        assert ObjIn(heap, nn[i]);
        c := VisitNamespace(nn[i], answers[i], c);
        assert Loaded(heap, c) == Loop(old(heap), nn[..i + 1], answers);
        i := i + 1;
      }
      assert nn[..i] == nn;
      expired := false;
    }

    /** The metrics of a run count a failure under the text of its error. */
    method Collect(duration: nat, c: HeapIndex, err: Option<SynchError>)
      modifies metrics
      ensures metrics.completed == old(metrics.completed) + if err.None? then 1 else 0
      ensures metrics.completedDurations == old(metrics.completedDurations) + if err.None? then [duration] else []
      ensures metrics.failedDurations == old(metrics.failedDurations) + if err.Some? then [duration] else []
      ensures err.None? ==>
                metrics.failed == old(metrics.failed) && metrics.subjects == |c| && GaugesSet(old(metrics.pairs), metrics.pairs, c)
      ensures err.Some? ==> metrics.subjects == old(metrics.subjects) && metrics.pairs == old(metrics.pairs)
      ensures err.Some? && err.value.ListFailed? ==> metrics.failed == Bumped(old(metrics.failed), err.value.text)
      ensures err == Some(Cancelled) ==> metrics.failed == Bumped(old(metrics.failed), "context canceled")
      ensures err == Some(DeadlineExceeded) ==> metrics.failed == Bumped(old(metrics.failed), "context deadline exceeded")
    {
      metrics.CollectSynchMetrics(duration, c, if err.Some? then Some(ErrorText(err.value)) else None);
    }

    /** A second caller is turned away and changes nothing; any other run ends with the flag clear.
        A run that fails leaves the stored index alone; a run that succeeds stores the index of a
        complete pass, and what an index stored before says does not change either way. */
    method Synch(feed: Feed) returns (err: Option<SynchError>)
      requires Fits(heap, feed)
      modifies `heap, `synchronizing, cache, metrics
      ensures old(synchronizing) ==>
                && err == Some(AlreadyRunning) && synchronizing && heap == old(heap)
                && cache.data == old(cache.data) && unchanged(metrics)
      ensures !old(synchronizing) ==> !synchronizing && err != Some(AlreadyRunning)
      ensures err.Some? ==>
                && cache.data == old(cache.data)
                && metrics.pairs == old(metrics.pairs) && metrics.subjects == old(metrics.subjects)
      ensures err.None? <==> !old(synchronizing) && feed.listing.Some? && !Ends(feed)
      ensures !old(synchronizing) && feed.listing.None? ==>
                && err == Some(ListFailed(feed.listError)) && heap == old(heap)
                && metrics.failed == Bumped(old(metrics.failed), feed.listError)
      ensures !old(synchronizing) && Ends(feed) && feed.cancelled ==>
                err == Some(Cancelled) && metrics.failed == Bumped(old(metrics.failed), "context canceled")
      ensures !old(synchronizing) && Ends(feed) && !feed.cancelled ==>
                err == Some(DeadlineExceeded) && metrics.failed == Bumped(old(metrics.failed), "context deadline exceeded")
      ensures !old(synchronizing) ==> heap == Loop(old(heap), Visited(feed), feed.answers).heap
      ensures metrics.completed == old(metrics.completed) + if err.None? then 1 else 0
      ensures metrics.completedDurations == old(metrics.completedDurations) + if err.None? then [feed.duration] else []
      ensures metrics.failedDurations ==
              old(metrics.failedDurations) + if !old(synchronizing) && err.Some? then [feed.duration] else []
      ensures err.None? ==>
                && cache.data.Some? && metrics.failed == old(metrics.failed)
                && Private(cache.data.value, SharedBy(feed))
                && IndexMatches(heap, cache.data.value, PassOf(old(heap), feed.listing.value, feed.answers))
                && GaugesSet(old(metrics.pairs), metrics.pairs, cache.data.value)
                && metrics.subjects == |cache.data.value|
      ensures PrivateKept(old(heap), heap, SharedBy(feed))
    {
      if synchronizing {
        return Some(AlreadyRunning);
      }
      synchronizing := true;
      var c;
      c, err := SynchData(feed);
      Collect(feed.duration, c, err);
      synchronizing := false;
      RunMeaning(old(heap), feed);
    }
  }

  /** What a run visits leaves every private index as it was. */
  lemma LoopKeepsPrivate(h: Heap, feed: Feed)
    requires Fits(h, feed)
    ensures PrivateKept(h, Loop(h, Visited(feed), feed.answers).heap, SharedBy(feed))
  {
    var done, shared := Visited(feed), SharedBy(feed);
    var h' := Loop(h, done, feed.answers).heap;
    if feed.listing.Some? {
      LoopFrame(h, done, feed.answers);
      ListingRefsOfPrefix(feed.listing.value, done);
      forall idx: HeapIndex | IndexIn(h, idx) && Private(idx, shared)
        ensures IndexIn(h', idx) && forall s :: s in idx ==> ObjsView(h', idx[s]) == ObjsView(h, idx[s])
      {
        ViewsSurviveSharedWrite(h, h', idx, shared);
      }
    }
  }

  /** What a run does to the heap, and what the index of one that is not cut short says. */
  lemma RunMeaning(h: Heap, feed: Feed)
    requires Fits(h, feed)
    ensures var l := Loop(h, Visited(feed), feed.answers);
            && PrivateKept(h, l.heap, SharedBy(feed))
            && (feed.listing.None? ==> l.heap == h)
            && (feed.listing.Some? && !Ends(feed) ==>
                  && Private(l.idx, SharedBy(feed))
                  && IndexMatches(l.heap, l.idx, PassOf(h, feed.listing.value, feed.answers)))
  {
    LoopKeepsPrivate(h, feed);
    if feed.listing.Some? && !Ends(feed) {
      LoopMatches(h, feed.listing.value, feed.answers, ListingRefs(feed.listing.value));
    }
  }

  function ErrorText(e: SynchError): string {
    match e
    case AlreadyRunning => "Synch operation already running"
    case ListFailed(text) => text
    case Cancelled => "context canceled"
    case DeadlineExceeded => "context deadline exceeded"
  }

  lemma AuthenticatedIn(ss: seq<Subject>)
    ensures (exists k :: 0 <= k < |ss| && IsSystemAuthenticated(ss[k]))
            <==> exists x: string :: Subject("rbac.authorization.k8s.io", "Group", x, "system:authenticated") in ss
  {
    AuthenticatedGroup(Elems(ss));
    if k :| 0 <= k < |ss| && IsSystemAuthenticated(ss[k]) {
      assert ss[k] == Subject("rbac.authorization.k8s.io", "Group", ss[k].namespace, "system:authenticated");
    }
    if x: string :| Subject("rbac.authorization.k8s.io", "Group", x, "system:authenticated") in ss {
      var k :| 0 <= k < |ss| && ss[k] == Subject("rbac.authorization.k8s.io", "Group", x, "system:authenticated");
      assert IsSystemAuthenticated(ss[k]);
    }
  }

  lemma ListingRefsOfPrefix(listing: seq<NsObj>, done: seq<NsObj>)
    requires done <= listing
    ensures forall r: Ref :: r !in ListingRefs(listing) ==> forall i :: 0 <= i < |done| ==> done[i].labels != Some(r)
  {
    forall r: Ref, i | r !in ListingRefs(listing) && 0 <= i < |done| ensures done[i].labels != Some(r) {
      assert Refs(listing[i]) <= ListingRefs(listing);
      assert done[i] == listing[i];
    }
  }
}
