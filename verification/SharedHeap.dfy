/** Go maps as references into a heap. A namespace object holds references, so copying the object
    shares its maps; only the deep copy allocates new ones. */
module SharedHeap {
  import opened Common
  import opened Subjects
  import opened Namespaces
  import opened AccessIndex

  type Ref = nat

  /** Cell `r` holds the contents of the map with reference `r`; allocation appends. */
  type Heap = seq<StrMap>

  /** A namespace object: `None` is a nil map. */
  datatype NsObj = NsObj(name: string, labels: Option<Ref>, annotations: Option<Ref>)

  type HeapIndex = map<Subject, seq<NsObj>>

  ghost function Refs(o: NsObj): set<Ref> {
    (if o.labels.Some? then {o.labels.value} else {}) +
    (if o.annotations.Some? then {o.annotations.value} else {})
  }

  predicate ObjIn(h: Heap, o: NsObj) {
    && (o.labels.Some? ==> o.labels.value < |h|)
    && (o.annotations.Some? ==> o.annotations.value < |h|)
  }

  function Deref(h: Heap, r: Option<Ref>): Option<StrMap>
    requires r.Some? ==> r.value < |h|
  {
    match r case None => None case Some(a) => Some(h[a])
  }

  /** What the object says in heap `h`. */
  function NsView(h: Heap, o: NsObj): Namespace
    requires ObjIn(h, o)
  {
    Namespace(o.name, Deref(h, o.labels), Deref(h, o.annotations))
  }

  ghost predicate ObjsIn(h: Heap, os: seq<NsObj>) {
    forall k :: 0 <= k < |os| ==> ObjIn(h, os[k])
  }

  ghost function ObjsView(h: Heap, os: seq<NsObj>): (nn: seq<Namespace>)
    requires ObjsIn(h, os)
    ensures |nn| == |os| && forall k :: 0 <= k < |os| ==> nn[k] == NsView(h, os[k])
  {
    seq(|os|, k requires 0 <= k < |os| => NsView(h, os[k]))
  }

  ghost predicate IndexIn(h: Heap, idx: HeapIndex) {
    forall s :: s in idx ==> ObjsIn(h, idx[s])
  }

  /** No map of the index is one of `shared`. */
  ghost predicate Private(idx: HeapIndex, shared: set<Ref>) {
    forall s, k :: s in idx && 0 <= k < |idx[s]| ==> Refs(idx[s][k]) !! shared
  }

  /** Read through heap `h`, the index says what the pass should produce:
      the keys are the subjects with a non-empty entry and every list is that entry. */
  ghost predicate IndexMatches(h: Heap, idx: HeapIndex, pass: seq<Read>) {
    && IndexIn(h, idx)
    && (forall s :: s in idx <==> Entry(pass, s) != [])
    && (forall s :: s in idx ==> ObjsView(h, idx[s]) == Entry(pass, s))
  }

  // ----- the writes of one namespace -----

  /** Writes the visibility into the object's own label map; a nil map is left nil. */
  function SetVisibility(h: Heap, o: NsObj, ss: seq<Subject>): (r: Heap)
    requires ObjIn(h, o)
    ensures |r| == |h|
  {
    match o.labels
    case None => h
    case Some(a) =>
      h[a := h[a][VISIBILITY := if exists k :: 0 <= k < |ss| && IsSystemAuthenticated(ss[k])
                                then AUTHENTICATED else PRIVATE]]
  }

  datatype Loaded = Loaded(heap: Heap, idx: HeapIndex)

  /** The deep copy with the access label and the subject annotations: two new maps. */
  function CopyForAccess(h: Heap, o: NsObj, sub: Subject): (Heap, NsObj)
    requires ObjIn(h, o)
  {
    var ns := NsView(h, o);
    (h + [AccessLabels(ns.labels, sub), AccessAnnotations(ns.annotations, sub)],
     NsObj(o.name, Some(|h|), Some(|h| + 1)))
  }

  function AppendTo(idx: HeapIndex, s: Subject, o: NsObj): HeapIndex {
    idx[s := (if s in idx then idx[s] else []) + [o]]
  }

  /** One copy per subject of `ss`, appended to the entry of that subject. */
  function AddCopies(h: Heap, idx: HeapIndex, o: NsObj, ss: seq<Subject>): (r: Loaded)
    requires ObjIn(h, o)
    ensures h <= r.heap
  {
    if ss == [] then Loaded(h, idx)
    else
      var l := AddCopies(h, idx, o, ss[..|ss| - 1]);
      var (h', c) := CopyForAccess(l.heap, o, ss[|ss| - 1]);
      Loaded(h', AppendTo(l.idx, ss[|ss| - 1], c))
  }

  /** The body of the loop over the namespaces, after the subjects have been deduplicated. */
  function Visit(h: Heap, idx: HeapIndex, o: NsObj, ss: seq<Subject>): Loaded
    requires ObjIn(h, o)
  {
    AddCopies(SetVisibility(h, o, ss), idx, o, ss)
  }

  // ----- what the writes mean -----

  ghost function EntryView(h: Heap, idx: HeapIndex, s: Subject): seq<Namespace>
    requires IndexIn(h, idx)
  {
    if s in idx then ObjsView(h, idx[s]) else []
  }

  /** After the copies, the entry of `s` has one more namespace if `s` is among the subjects. */
  ghost predicate CopiesAdded(h: Heap, idx: HeapIndex, ns: Namespace, ss: seq<Subject>, r: Loaded) {
    && IndexIn(h, idx) && IndexIn(r.heap, r.idx)
    && (forall s :: s in r.idx <==> s in idx || s in ss)
    && (forall s :: EntryView(r.heap, r.idx, s) ==
                    EntryView(h, idx, s) + if s in ss then [ForAccess(ns, s)] else [])
  }

  lemma {:induction false} AddCopiesMeaning(h: Heap, idx: HeapIndex, o: NsObj, ss: seq<Subject>)
    requires IndexIn(h, idx) && ObjIn(h, o) && NoDup(ss)
    ensures CopiesAdded(h, idx, NsView(h, o), ss, AddCopies(h, idx, o, ss))
  {
    if ss == [] {
      forall s ensures EntryView(h, idx, s) == EntryView(h, idx, s) + [] {}
    } else {
      var init, last := ss[..|ss| - 1], ss[|ss| - 1];
      AddCopiesMeaning(h, idx, o, init);
      var l := AddCopies(h, idx, o, init);
      assert NsView(l.heap, o) == NsView(h, o);
      AppendMeaning(l, o, last);
      OneMoreCopy(h, idx, NsView(h, o), ss, l, AddCopies(h, idx, o, ss));
    }
  }

  lemma OneMoreCopy(h: Heap, idx: HeapIndex, ns: Namespace, ss: seq<Subject>, l: Loaded, r: Loaded)
    requires ss != [] && NoDup(ss) && CopiesAdded(h, idx, ns, ss[..|ss| - 1], l) && IndexIn(r.heap, r.idx)
    requires var last := ss[|ss| - 1];
             && (forall s :: s in r.idx <==> s in l.idx || s == last)
             && (forall s :: s != last ==> EntryView(r.heap, r.idx, s) == EntryView(l.heap, l.idx, s))
             && EntryView(r.heap, r.idx, last) == EntryView(l.heap, l.idx, last) + [ForAccess(ns, last)]
    ensures CopiesAdded(h, idx, ns, ss, r)
  {
    var init, last := ss[..|ss| - 1], ss[|ss| - 1];
    forall s ensures s in ss <==> s in init || s == last {
      assert ss == init + [last];
    }
    assert last !in init;
    forall s ensures EntryView(r.heap, r.idx, s) == EntryView(h, idx, s) + if s in ss then [ForAccess(ns, s)] else [] {
      if s == last {
        assert EntryView(l.heap, l.idx, s) == EntryView(h, idx, s) + [];
      }
    }
  }

  lemma AppendMeaning(l: Loaded, o: NsObj, sub: Subject)
    requires IndexIn(l.heap, l.idx) && ObjIn(l.heap, o)
    ensures var (h', c) := CopyForAccess(l.heap, o, sub);
            var idx' := AppendTo(l.idx, sub, c);
            && IndexIn(h', idx')
            && (forall s :: s != sub ==> EntryView(h', idx', s) == EntryView(l.heap, l.idx, s))
            && EntryView(h', idx', sub) == EntryView(l.heap, l.idx, sub) + [ForAccess(NsView(l.heap, o), sub)]
  {
  }

  /** The copies are new maps: the index stays private to the cache. */
  lemma {:induction false} AddCopiesPrivate(h: Heap, idx: HeapIndex, o: NsObj, ss: seq<Subject>, shared: set<Ref>)
    requires ObjIn(h, o) && Private(idx, shared)
    requires forall r :: r in shared ==> r < |h|
    ensures Private(AddCopies(h, idx, o, ss).idx, shared)
  {
    if ss != [] {
      AddCopiesPrivate(h, idx, o, ss[..|ss| - 1], shared);
    }
  }

  /** A write into a map the index does not hold leaves everything the index says as it was. */
  lemma ViewsSurviveSharedWrite(h: Heap, h': Heap, idx: HeapIndex, shared: set<Ref>)
    requires IndexIn(h, idx) && Private(idx, shared)
    requires |h| <= |h'| && forall r :: 0 <= r < |h| && r !in shared ==> h'[r] == h[r]
    ensures IndexIn(h', idx)
    ensures forall s :: s in idx ==> ObjsView(h', idx[s]) == ObjsView(h, idx[s])
  {
  }

  lemma SetVisibilityMeaning(h: Heap, o: NsObj, ss: seq<Subject>)
    requires ObjIn(h, o) && (o.labels.Some? ==> o.annotations != o.labels)
    ensures NsView(SetVisibility(h, o, ss), o) == WithVisibility(NsView(h, o), Elems(ss))
  {
  }

  /** Visiting one more namespace extends the pass by one read. */
  lemma VisitExtendsPass(h: Heap, idx: HeapIndex, o: NsObj, ss: seq<Subject>, pass: seq<Read>,
                         shared: set<Ref>, r: Read)
    requires IndexMatches(h, idx, pass) && Private(idx, shared)
    requires ObjIn(h, o) && Refs(o) <= shared && (o.labels.Some? ==> o.annotations != o.labels)
    requires forall a :: a in shared ==> a < |h|
    requires NoDup(ss)
    requires Pristine(r.ns) == Pristine(NsView(h, o)) && r.subs == Elems(ss)
    ensures var v := Visit(h, idx, o, ss);
            IndexMatches(v.heap, v.idx, pass + [r]) && Private(v.idx, shared)
  {
    var h1 := SetVisibility(h, o, ss);
    SetVisibilityMeaning(h, o, ss);
    ViewsSurviveSharedWrite(h, h1, idx, shared);
    AddCopiesMeaning(h1, idx, o, ss);
    AddCopiesPrivate(h1, idx, o, ss, shared);
    var v := Visit(h, idx, o, ss);
    forall s ensures (s in v.idx <==> Entry(pass + [r], s) != [])
                     && (s in v.idx ==> ObjsView(v.heap, v.idx[s]) == Entry(pass + [r], s))
    {
      EntryExtends(pass, r, s);
      StaleVisibilityNeverSurvives(r.ns, NsView(h, o), r.subs, s);
      assert s in ss <==> s in r.subs;
      assert EntryView(h1, idx, s) == Entry(pass, s);
      assert EntryView(v.heap, v.idx, s) == Entry(pass + [r], s);
    }
  }

  /** Visiting a namespace writes the visibility label of its own label map and allocates. */
  lemma VisitFrame(h: Heap, idx: HeapIndex, o: NsObj, ss: seq<Subject>)
    requires ObjIn(h, o)
    ensures var h' := Visit(h, idx, o, ss).heap;
            && |h| <= |h'|
            && (forall r :: 0 <= r < |h| && o.labels != Some(r) ==> h'[r] == h[r])
            && (forall r :: 0 <= r < |h| ==> h'[r] - {VISIBILITY} == h[r] - {VISIBILITY})
  {
  }
}
