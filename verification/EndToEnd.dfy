/** From the index to the answer of a request: who gets to see which namespace. */
module EndToEnd {
  import opened Common
  import opened Subjects
  import opened Namespaces
  import opened AccessIndex
  import opened SharedHeap
  import opened ListCache
  import opened Usernames
  import opened Synchronizer
  import opened Protocol
  import opened Invariants
  import opened LostUpdates
  import opened Matching
  import Rbac

  // ----- the lister -----

  datatype Reply = Listed(items: seq<NsObj>) | Panicked

  /** What a request may be answered, given the stored index. */
  ghost predicate ReplySpec(data: Option<HeapIndex>, username: string, groups: seq<string>, reply: Reply) {
    match ParseUsername(username)
    case OutOfRange => reply == Panicked
    case Parsed(sub) =>
      match reply
      case Panicked => ListSpec(data, SubjectSeq(sub, groups), NameOf, NilDereference)
      case Listed(items) => ListSpec(data, SubjectSeq(sub, groups), NameOf, Returned(items))
  }

  method ListNamespaces(c: SynchronizedAccessCache, username: string, groups: seq<string>) returns (reply: Reply)
    requires c.cache.idFunc == NameOf
    ensures ReplySpec(c.cache.data, username, groups, reply)
  {
    var subs := SubjectsOf(username, groups);
    if subs.None? { return Panicked; }
    var out := c.cache.List(subs.value);
    match out
    case NilDereference => reply := Panicked;
    case Returned(items) => reply := Listed(items);
  }

  /** A request fails if and only if its user name does not parse, or it has groups and there is no
      snapshot yet. */
  lemma PanicsExactly(data: Option<HeapIndex>, username: string, groups: seq<string>, reply: Reply)
    requires ReplySpec(data, username, groups, reply)
    ensures reply.Panicked? <==> ParseUsername(username).OutOfRange? || (data.None? && groups != [])
  {
  }

  // ----- exactness of the answer -----

  ghost predicate HasName(items: seq<NsObj>, n: string) {
    exists x :: x in items && NameOf(x) == n
  }

  ghost predicate DistinctItems(items: seq<NsObj>) {
    forall i, j :: 0 <= i < j < |items| ==> items[i].name != items[j].name
  }

  /** Some identity of `who` was allowed to get the namespace `n` of the pass. */
  ghost predicate SeenBy(pass: seq<Read>, n: string, who: set<Subject>) {
    exists i, s :: 0 <= i < |pass| && pass[i].ns.name == n && s in who && s in pass[i].subs
  }

  lemma EntryHasName(h: Heap, idx: HeapIndex, pass: seq<Read>, s: Subject, n: string)
    requires IndexMatches(h, idx, pass)
    ensures HasName(EntryOf(idx, s), n) <==> SeenBy(pass, n, {s})
  {
    EntryNames(pass, s, n);
    var e := EntryOf(idx, s);
    assert |e| == |Entry(pass, s)| && forall k :: 0 <= k < |e| ==> e[k].name == Entry(pass, s)[k].name by {
      if s in idx { assert ObjsView(h, idx[s]) == Entry(pass, s); }
    }
    if HasName(e, n) {
      var x :| x in e && NameOf(x) == n;
      var k :| 0 <= k < |e| && e[k] == x;
      assert Entry(pass, s)[k].name == n;
    }
    if k :| 0 <= k < |Entry(pass, s)| && Entry(pass, s)[k].name == n {
      assert e[k] in e && NameOf(e[k]) == n;
    }
  }

  lemma EntriesDistinct(h: Heap, idx: HeapIndex, pass: seq<Read>, s: Subject)
    requires IndexMatches(h, idx, pass) && DistinctNames(pass)
    ensures DistinctIds(EntryOf(idx, s), NameOf)
  {
    EntryHasDistinctNames(pass, s);
    if s in idx { assert ObjsView(h, idx[s]) == Entry(pass, s); }
  }

  /** On every index a run builds over distinct namespaces, the single-key path gives, up to order,
      what the general path gives on any repetition of the key. */
  lemma FastPathAgreesOnBuiltIndex(h: Heap, idx: HeapIndex, pass: seq<Read>, key: Subject, keys: seq<Subject>, r: seq<NsObj>)
    requires IndexMatches(h, idx, pass) && DistinctNames(pass)
    requires keys != [] && forall i :: 0 <= i < |keys| ==> keys[i] == key
    requires FirstWins(Concat(idx, keys), NameOf, r)
    ensures multiset(r) == multiset(EntryOf(idx, key))
  {
    EntriesDistinct(h, idx, pass, key);
    FastPathAgrees(idx, key, keys, NameOf, r);
  }

  lemma AllKeysHaveName(idx: HeapIndex, keys: seq<Subject>, r: seq<NsObj>, n: string)
    requires FirstWins(Concat(idx, keys), NameOf, r)
    ensures HasName(r, n) <==> exists k :: k in keys && HasName(EntryOf(idx, k), n)
  {
    IdsAreTheUnion(idx, keys, NameOf, r, n);
    if HasName(r, n) {
      var k, x :| k in keys && x in EntryOf(idx, k) && NameOf(x) == n;
      assert HasName(EntryOf(idx, k), n);
    }
    if k :| k in keys && HasName(EntryOf(idx, k), n) {
      var x :| x in EntryOf(idx, k) && NameOf(x) == n;
      assert k in keys && x in EntryOf(idx, k) && NameOf(x) == n;
    }
  }

  /** One key or many, a name is listed if and only if the entry of some key has it. */
  lemma ListHasName(idx: HeapIndex, keys: seq<Subject>, items: seq<NsObj>, n: string)
    requires keys != [] && ListSpec(Some(idx), keys, NameOf, Returned(items))
    ensures HasName(items, n) <==> exists k :: k in keys && HasName(EntryOf(idx, k), n)
  {
    if |keys| == 1 {
      assert keys[0] in keys;
      assert forall k :: k in keys ==> k == keys[0];
      assert items == EntryOf(idx, keys[0]);
    } else {
      AllKeysHaveName(idx, keys, items, n);
    }
  }

  lemma ListHasDistinctNames(idx: HeapIndex, keys: seq<Subject>, items: seq<NsObj>)
    requires keys != [] && ListSpec(Some(idx), keys, NameOf, Returned(items))
    requires DistinctIds(EntryOf(idx, keys[0]), NameOf)
    ensures DistinctItems(items)
  {
  }

  lemma ListedIffSeen(h: Heap, idx: HeapIndex, pass: seq<Read>, keys: seq<Subject>, items: seq<NsObj>, n: string)
    requires IndexMatches(h, idx, pass)
    requires keys != [] && ListSpec(Some(idx), keys, NameOf, Returned(items))
    ensures HasName(items, n) <==> SeenBy(pass, n, Elems(keys))
  {
    ListHasName(idx, keys, items, n);
    if HasName(items, n) {
      var k :| k in keys && HasName(EntryOf(idx, k), n);
      EntryHasName(h, idx, pass, k, n);
      assert k in Elems(keys);
    }
    if SeenBy(pass, n, Elems(keys)) {
      var i, s :| 0 <= i < |pass| && pass[i].ns.name == n && s in Elems(keys) && s in pass[i].subs;
      assert SeenBy(pass, n, {s});
      EntryHasName(h, idx, pass, s, n);
    }
  }

  /** After a run over distinct namespaces, a request is answered with each name once and exactly
      the namespaces whose allowed subjects meet the user and the groups, whatever the groups:
      none, some, or repeated ones. */
  lemma RequestIsAnsweredExactly(h: Heap, idx: HeapIndex, pass: seq<Read>,
                                 username: string, groups: seq<string>, reply: Reply)
    requires IndexMatches(h, idx, pass) && DistinctNames(pass)
    requires ParseUsername(username).Parsed? && ReplySpec(Some(idx), username, groups, reply)
    ensures reply.Listed? && DistinctItems(reply.items)
    ensures forall n :: HasName(reply.items, n)
                        <==> SeenBy(pass, n, Identities(ParseUsername(username).sub, groups))
  {
    PanicsExactly(Some(idx), username, groups, reply);
    var sub := ParseUsername(username).sub;
    var keys := SubjectSeq(sub, groups);
    EntriesDistinct(h, idx, pass, keys[0]);
    ListHasDistinctNames(idx, keys, reply.items);
    SubjectSeqElems(sub, groups);
    forall n ensures HasName(reply.items, n) <==> SeenBy(pass, n, Identities(sub, groups)) {
      ListedIffSeen(h, idx, pass, keys, reply.items, n);
    }
  }

  /** A namespace granted to the user directly is answered with the copy made for the user, even if
      groups grant it too. */
  lemma UserGrantWins(h: Heap, idx: HeapIndex, pass: seq<Read>, i: nat,
                      username: string, groups: seq<string>, reply: Reply)
    requires IndexMatches(h, idx, pass) && DistinctNames(pass)
    requires ParseUsername(username).Parsed? && ReplySpec(Some(idx), username, groups, reply)
    requires i < |pass| && ParseUsername(username).sub in pass[i].subs
    ensures reply.Listed?
    ensures exists x :: x in reply.items && ObjIn(h, x)
                        && NsView(h, x) == Decorate(pass[i].ns, pass[i].subs, ParseUsername(username).sub)
  {
    PanicsExactly(Some(idx), username, groups, reply);
    var sub := ParseUsername(username).sub;
    var keys := SubjectSeq(sub, groups);
    EntryIsSubsequence(pass, sub);
    assert i in Positions(pass, sub);
    var k :| 0 <= k < |Positions(pass, sub)| && Positions(pass, sub)[k] == i;
    assert sub in idx && ObjsView(h, idx[sub]) == Entry(pass, sub);
    var x := EntryOf(idx, sub)[k];
    assert ObjsIn(h, idx[sub]);
    assert ObjIn(h, x) && NsView(h, x) == Entry(pass, sub)[k];
    assert keys[0] == sub;
    if |keys| == 1 {
      assert x in reply.items;
    } else {
      EntriesDistinct(h, idx, pass, sub);
      FirstKeyWins(idx, keys, NameOf, reply.items, x);
    }
  }

  /** `keys[q]` is the first of the keys that namespace `p` of the pass allows. */
  ghost predicate FirstGrant(pass: seq<Read>, keys: seq<Subject>, p: nat, q: nat) {
    && p < |pass| && q < |keys| && keys[q] in pass[p].subs
    && forall r :: 0 <= r < q ==> keys[r] !in pass[p].subs
  }

  /** `x` is the copy of namespace `p` of the pass made for `keys[q]`. */
  ghost predicate CopyFor(h: Heap, pass: seq<Read>, keys: seq<Subject>, x: NsObj, p: nat, q: nat) {
    && FirstGrant(pass, keys, p, q)
    && ObjIn(h, x) && NsView(h, x) == Decorate(pass[p].ns, pass[p].subs, keys[q])
  }

  lemma OwnerOf(idx: HeapIndex, keys: seq<Subject>, items: seq<NsObj>, x: NsObj) returns (q: nat)
    requires keys != [] && ListSpec(Some(idx), keys, NameOf, Returned(items)) && x in items
    ensures q < |keys| && x in EntryOf(idx, keys[q])
    ensures forall r :: 0 <= r < q ==> !HasName(EntryOf(idx, keys[r]), x.name)
  {
    if |keys| == 1 {
      q := 0;
    } else {
      var all := Concat(idx, keys);
      var j :| 0 <= j < |items| && items[j] == x;
      var p :| FirstAt(all, NameOf, p) && all[p] == items[j];
      q := FirstOwner(idx, keys, NameOf, p);
      forall r | 0 <= r < q ensures !HasName(EntryOf(idx, keys[r]), x.name) {
        assert forall y :: y in EntryOf(idx, keys[r]) ==> NameOf(y) != NameOf(all[p]);
      }
    }
  }

  /** An item of an entry is the copy of a namespace that allows the subject. */
  lemma EntryItem(h: Heap, idx: HeapIndex, pass: seq<Read>, s: Subject, x: NsObj) returns (p: nat)
    requires IndexMatches(h, idx, pass) && x in EntryOf(idx, s)
    ensures p < |pass| && s in pass[p].subs
    ensures ObjIn(h, x) && NsView(h, x) == Decorate(pass[p].ns, pass[p].subs, s)
  {
    EntryIsSubsequence(pass, s);
    assert ObjsIn(h, idx[s]) && ObjsView(h, idx[s]) == Entry(pass, s);
    var k :| 0 <= k < |idx[s]| && idx[s][k] == x;
    p := Positions(pass, s)[k];
    assert p in Positions(pass, s);
  }

  /** Every item listed is the copy made for the first key, in key order, that its namespace allows. */
  lemma ItemIsFirstGrant(h: Heap, idx: HeapIndex, pass: seq<Read>, keys: seq<Subject>, items: seq<NsObj>, x: NsObj)
    returns (p: nat, q: nat)
    requires IndexMatches(h, idx, pass) && keys != []
    requires ListSpec(Some(idx), keys, NameOf, Returned(items)) && x in items
    ensures CopyFor(h, pass, keys, x, p, q)
  {
    q := OwnerOf(idx, keys, items, x);
    p := EntryItem(h, idx, pass, keys[q], x);
    forall r | 0 <= r < q ensures keys[r] !in pass[p].subs {
      EntryHasName(h, idx, pass, keys[r], x.name);
      assert keys[r] in pass[p].subs ==> SeenBy(pass, x.name, {keys[r]});
    }
  }

  /** And every namespace that allows some key is listed as that copy. */
  lemma FirstGrantIsItem(h: Heap, idx: HeapIndex, pass: seq<Read>, keys: seq<Subject>, items: seq<NsObj>, p: nat, q: nat)
    returns (x: NsObj)
    requires IndexMatches(h, idx, pass) && DistinctNames(pass) && keys != []
    requires ListSpec(Some(idx), keys, NameOf, Returned(items)) && FirstGrant(pass, keys, p, q)
    ensures x in items && CopyFor(h, pass, keys, x, p, q)
  {
    ListedIffSeen(h, idx, pass, keys, items, pass[p].ns.name);
    assert keys[q] in Elems(keys);
    assert SeenBy(pass, pass[p].ns.name, Elems(keys));
    x :| x in items && NameOf(x) == pass[p].ns.name;
    var p', q' := ItemIsFirstGrant(h, idx, pass, keys, items, x);
    assert pass[p'].ns.name == pass[p].ns.name;
    assert p' == p;
    assert !(q < q') && !(q' < q);
  }

  // ----- over every execution -----

  ghost predicate Visible(st: Store, n: string, who: set<Subject>) {
    (exists o :: o in st.objects && o.name == n) && exists s :: s in who && s in Allowed(st, n)
  }

  /** Every object of the version is known by its own name, and no two share one. */
  ghost predicate WellNamed(st: Store) {
    DistinctObjects(st) && forall o :: o in st.objects ==> st.objects[o].name == o.name
  }

  lemma ExactListing(h: Heap, idx: HeapIndex, st: Store) returns (listing: seq<NsObj>)
    requires Exact(h, idx, st)
    ensures Lists(listing, st) && (forall o :: o in listing ==> o in st.objects)
    ensures IndexMatches(h, idx, PassOver(st, listing))
  {
    listing :| Lists(listing, st) && IndexMatches(h, idx, PassOver(st, listing));
    forall o | o in listing ensures o in st.objects { assert o in Elems(listing); }
  }

  lemma SeenIffVisible(st: Store, listing: seq<NsObj>, n: string, who: set<Subject>)
    requires Lists(listing, st) && (forall o :: o in listing ==> o in st.objects)
    requires WellNamed(st)
    ensures SeenBy(PassOver(st, listing), n, who) <==> Visible(st, n, who)
  {
  }

  lemma ReachableStore(ss: seq<State>, steps: seq<Step>, i: nat, v: nat)
    requires Execution(ss, steps) && i < |ss| && v < |ss[i].world.history|
    ensures WellNamed(ss[i].world.history[v])
  {
    ReachableInv(ss, steps, i);
    var st := ss[i].world.history[v];
    assert StoreKept(ss[i].world, st);
    forall o | o in st.objects ensures st.objects[o].name == o.name {
      assert ObjectKept(ss[i].world, st, o);
    }
  }

  lemma PassHasDistinctNames(st: Store, listing: seq<NsObj>)
    requires WellNamed(st) && Lists(listing, st) && (forall o :: o in listing ==> o in st.objects)
    ensures DistinctNames(PassOver(st, listing))
  {
  }

  /** The index the atomic pointer holds. */
  ghost function Stored(s: State): Option<HeapIndex> {
    if s.published == [] then None else Some(s.published[|s.published| - 1].idx)
  }

  /** Once startup has succeeded, and the server is started only then, a request in any later state
      fails if and only if its user name does not parse: the nil snapshot is never met. */
  lemma ReadyRequestPanicsExactly(ss: seq<State>, steps: seq<Step>, i: nat, j: nat,
                                  username: string, groups: seq<string>, reply: Reply)
    requires Execution(ss, steps) && i <= j < |ss| && ss[i].ready
    requires ReplySpec(Stored(ss[j]), username, groups, reply)
    ensures reply.Panicked? <==> ParseUsername(username).OutOfRange?
  {
    ReadyMeansStocked(ss, steps, i, j);
    PanicsExactly(Stored(ss[j]), username, groups, reply);
  }

  lemma PublishedNamesDistinct(ss: seq<State>, steps: seq<Step>, i: nat, k: nat)
    requires Execution(ss, steps) && i < |ss| && k < |ss[i].published|
    ensures DistinctNames(Reads(ss[i].published[k].seen))
  {
    AllOrNothing(ss, steps, i, k);
    var w, run := ss[i].world, ss[i].published[k];
    ReachableStore(ss, steps, i, run.listedAt);
    var pass := Reads(run.seen);
    forall m, n | 0 <= m < n < |pass| ensures pass[m].ns.name != pass[n].ns.name {
      assert SeenOk(w, run, m) && SeenOk(w, run, n);
    }
  }

  /** In every reachable state with a snapshot, quiet or not, a request is answered with each name once
      and exactly the namespaces for which the last published run was answered an identity of it. */
  lemma ReachableRequestIsExact(ss: seq<State>, steps: seq<Step>, i: nat,
                                username: string, groups: seq<string>, reply: Reply)
    requires Execution(ss, steps) && i < |ss| && ss[i].published != []
    requires ParseUsername(username).Parsed? && ReplySpec(Stored(ss[i]), username, groups, reply)
    ensures reply.Listed? && DistinctItems(reply.items)
    ensures forall n :: HasName(reply.items, n)
              <==> SeenBy(Reads(ss[i].published[|ss[i].published| - 1].seen), n,
                          Identities(ParseUsername(username).sub, groups))
  {
    var k := |ss[i].published| - 1;
    AllOrNothing(ss, steps, i, k);
    PublishedNamesDistinct(ss, steps, i, k);
    RequestIsAnsweredExactly(ss[i].world.heap, ss[i].published[k].idx, Reads(ss[i].published[k].seen),
                             username, groups, reply);
  }

  /** A reply is stable: whatever runs and store changes follow while it is being written out, its items
      say in every later state what they said when it was given. They are the listed namespaces
      decorated for the first identity in key order, the user before the groups, that the run was
      answered for them, and every namespace with such an identity has its item. */
  lemma ReplyIsStable(ss: seq<State>, steps: seq<Step>, i: nat, j: nat,
                      username: string, groups: seq<string>, reply: Reply)
    requires Execution(ss, steps) && i <= j < |ss| && ss[i].published != []
    requires ParseUsername(username).Parsed? && ReplySpec(Stored(ss[i]), username, groups, reply)
    ensures reply.Listed?
    ensures var h, pass := ss[j].world.heap, Reads(ss[i].published[|ss[i].published| - 1].seen);
            var keys := SubjectSeq(ParseUsername(username).sub, groups);
            && (forall x :: x in reply.items ==> exists p, q :: CopyFor(h, pass, keys, x, p, q))
            && (forall p, q :: FirstGrant(pass, keys, p, q) ==>
                  exists x :: x in reply.items && CopyFor(h, pass, keys, x, p, q))
  {
    var k := |ss[i].published| - 1;
    SnapshotsAreImmutable(ss, steps, i, j, k);
    PublishedNamesDistinct(ss, steps, i, k);
    PanicsExactly(Stored(ss[i]), username, groups, reply);
    StableItems(ss[j].world.heap, ss[i].published[k].idx, Reads(ss[i].published[k].seen),
                SubjectSeq(ParseUsername(username).sub, groups), reply.items);
  }

  /** A namespace allowed to a group, to no earlier group of the request and not to the user, is answered,
      in every later state, with the copy made for that group. */
  lemma FirstGroupWins(ss: seq<State>, steps: seq<Step>, i: nat, j: nat,
                       username: string, groups: seq<string>, reply: Reply, p: nat, g: nat)
    requires Execution(ss, steps) && i <= j < |ss| && ss[i].published != []
    requires ParseUsername(username).Parsed? && ReplySpec(Stored(ss[i]), username, groups, reply)
    requires var pass := Reads(ss[i].published[|ss[i].published| - 1].seen);
             && p < |pass| && g < |groups| && ParseUsername(username).sub !in pass[p].subs
             && Subject("rbac.authorization.k8s.io", "Group", "", groups[g]) in pass[p].subs
             && forall k :: 0 <= k < g ==>
                  Subject("rbac.authorization.k8s.io", "Group", "", groups[k]) !in pass[p].subs
    ensures reply.Listed?
    ensures var r := Reads(ss[i].published[|ss[i].published| - 1].seen)[p];
            exists x :: x in reply.items && ObjIn(ss[j].world.heap, x) && NsView(ss[j].world.heap, x) ==
              Decorate(r.ns, r.subs, Subject("rbac.authorization.k8s.io", "Group", "", groups[g]))
  {
    ReplyIsStable(ss, steps, i, j, username, groups, reply);
    var pass := Reads(ss[i].published[|ss[i].published| - 1].seen);
    var keys := SubjectSeq(ParseUsername(username).sub, groups);
    forall r | 0 <= r < g + 1 ensures keys[r] !in pass[p].subs {
      if r > 0 { assert keys[r] == Subject("rbac.authorization.k8s.io", "Group", "", groups[r - 1]); }
    }
    assert keys[g + 1] == Subject("rbac.authorization.k8s.io", "Group", "", groups[g]);
    assert FirstGrant(pass, keys, p, g + 1);
  }

  lemma StableItems(h: Heap, idx: HeapIndex, pass: seq<Read>, keys: seq<Subject>, items: seq<NsObj>)
    requires IndexMatches(h, idx, pass) && DistinctNames(pass) && keys != []
    requires ListSpec(Some(idx), keys, NameOf, Returned(items))
    ensures forall x :: x in items ==> exists p, q :: CopyFor(h, pass, keys, x, p, q)
    ensures forall p, q :: FirstGrant(pass, keys, p, q) ==> exists x :: x in items && CopyFor(h, pass, keys, x, p, q)
  {
    forall x | x in items ensures exists p, q :: CopyFor(h, pass, keys, x, p, q) {
      var p, q := ItemIsFirstGrant(h, idx, pass, keys, items, x);
    }
    forall p, q | FirstGrant(pass, keys, p, q) ensures exists x :: x in items && CopyFor(h, pass, keys, x, p, q) {
      var x := FirstGrantIsItem(h, idx, pass, keys, items, p, q);
    }
  }

  /** The reply has each name once and exactly the namespaces of the version that `who` is allowed to get. */
  ghost predicate AnswersExactly(reply: Reply, st: Store, who: set<Subject>) {
    && reply.Listed? && DistinctItems(reply.items)
    && forall n :: HasName(reply.items, n) <==> Visible(st, n, who)
  }

  lemma ExactIndexAnswersExactly(h: Heap, idx: HeapIndex, st: Store,
                                 username: string, groups: seq<string>, reply: Reply)
    requires Exact(h, idx, st) && WellNamed(st)
    requires ParseUsername(username).Parsed? && ReplySpec(Some(idx), username, groups, reply)
    ensures AnswersExactly(reply, st, Identities(ParseUsername(username).sub, groups))
  {
    var listing := ExactListing(h, idx, st);
    PassHasDistinctNames(st, listing);
    RequestIsAnsweredExactly(h, idx, PassOver(st, listing), username, groups, reply);
    forall n ensures HasName(reply.items, n) <==> Visible(st, n, Identities(ParseUsername(username).sub, groups)) {
      SeenIffVisible(st, listing, n, Identities(ParseUsername(username).sub, groups));
    }
  }

  lemma FreshStateAnswersExactly(s: State, username: string, groups: seq<string>, reply: Reply)
    requires s.world.history != [] && s.published != [] && Fresh(s) && WellNamed(s.world.history[Now(s.world)])
    requires ParseUsername(username).Parsed? && ReplySpec(Stored(s), username, groups, reply)
    ensures AnswersExactly(reply, s.world.history[Now(s.world)], Identities(ParseUsername(username).sub, groups))
  {
    ExactIndexAnswersExactly(s.world.heap, s.published[|s.published| - 1].idx, s.world.history[Now(s.world)],
                             username, groups, reply);
  }

  lemma QuiescentFacts(ss: seq<State>, steps: seq<Step>, i: nat)
    requires Execution(ss, steps) && i < |ss| && ss[i].published != [] && Quiescent(ss[i])
    ensures ss[i].world.history != [] && Fresh(ss[i]) && WellNamed(ss[i].world.history[Now(ss[i].world)])
  {
    ExactAtQuiescence(ss, steps, i);
    ReachableStore(ss, steps, i, Now(ss[i].world));
  }

  /** At quiescence every request is answered from the current version of the resource cache: each
      name once, and exactly the namespaces the user or a group is allowed to get now. */
  lemma QuiescentRequestIsExact(ss: seq<State>, steps: seq<Step>, i: nat,
                                username: string, groups: seq<string>, reply: Reply)
    requires Execution(ss, steps) && i < |ss| && ss[i].published != [] && Quiescent(ss[i])
    requires ParseUsername(username).Parsed? && ReplySpec(Stored(ss[i]), username, groups, reply)
    ensures ss[i].world.history != []
    ensures AnswersExactly(reply, ss[i].world.history[Now(ss[i].world)],
                           Identities(ParseUsername(username).sub, groups))
  {
    QuiescentFacts(ss, steps, i);
    FreshStateAnswersExactly(ss[i], username, groups, reply);
  }

  /** After a change, as soon as any run that won the flag since has published, every request until the
      next change is answered exactly from the current version, quiet or not. */
  lemma RecoveredRequestIsExact(ss: seq<State>, steps: seq<Step>, i: nat, p: nat, j: nat,
                                username: string, groups: seq<string>, reply: Reply)
    requires Execution(ss, steps) && i <= p < j && NoChange(steps, i, j) && steps[p].Publish?
    requires At(ss[p], steps[p].t).Looping? && ss[i].runs <= At(ss[p], steps[p].t).run.order
    requires ParseUsername(username).Parsed? && ReplySpec(Stored(ss[j]), username, groups, reply)
    ensures ss[j].world.history != []
    ensures AnswersExactly(reply, ss[j].world.history[Now(ss[j].world)],
                           Identities(ParseUsername(username).sub, groups))
  {
    EveryRunRecovers(ss, steps, i, p, j);
    ReachableStore(ss, steps, j, Now(ss[j].world));
    FreshStateAnswersExactly(ss[j], username, groups, reply);
  }

  /** The version holds what the trimmed roles and selected bindings of the cluster allow. */
  ghost predicate Caches(st: Store, c: Rbac.Cluster) {
    forall o :: o in st.objects ==> Allowed(st, o.name) == Rbac.AllowedSubjects(Rbac.Trimmed(c), o.name)
  }

  /** At quiescence a namespace is answered if and only if a selected binding ties one of the subjects
      the request is parsed into to a literal rule for it; then the cluster allows that subject, and
      if literal grants cover the others, only then. */
  lemma QuiescentRequestIsLiteral(ss: seq<State>, steps: seq<Step>, i: nat, c: Rbac.Cluster,
                                  username: string, groups: seq<string>, reply: Reply, o: NsObj)
    requires Execution(ss, steps) && i < |ss| && ss[i].published != [] && Quiescent(ss[i])
    requires ParseUsername(username).Parsed? && ReplySpec(Stored(ss[i]), username, groups, reply)
    requires ss[i].world.history != []
    requires Caches(ss[i].world.history[Now(ss[i].world)], c)
    requires o in ss[i].world.history[Now(ss[i].world)].objects
    ensures reply.Listed?
    ensures HasName(reply.items, o.name) <==> Who(username, groups) * Rbac.LiterallyAllowed(c, o.name) != {}
    ensures HasName(reply.items, o.name) <==> exists s :: s in Who(username, groups) && Rbac.CacheAllows(c, s, o.name)
    ensures HasName(reply.items, o.name) ==> Who(username, groups) * Rbac.AllowedSubjects(c, o.name) != {}
    ensures Rbac.ClusterCovered(c) ==>
              (HasName(reply.items, o.name) <==> Who(username, groups) * Rbac.AllowedSubjects(c, o.name) != {})
  {
    QuiescentRequestIsExact(ss, steps, i, username, groups, reply);
    Rbac.TrimmedAllowedSubjects(c, o.name);
    Rbac.ClusterLosslessExactly(c);
    var st, who := ss[i].world.history[Now(ss[i].world)], Who(username, groups);
    assert Visible(st, o.name, who) <==> who * Allowed(st, o.name) != {} by {
      if s :| s in who && s in Allowed(st, o.name) { assert s in who * Allowed(st, o.name); }
      if s :| s in who * Allowed(st, o.name) { assert s in who && s in Allowed(st, o.name); }
    }
    if s :| s in who * Allowed(st, o.name) { assert s in who * Rbac.AllowedSubjects(c, o.name); }
    forall s ensures s in Allowed(st, o.name) <==> Rbac.CacheAllows(c, s, o.name) {
      Rbac.CacheAllowsExactly(c, s, o.name);
    }
  }

  /** At quiescence the answer against what RBAC grants the user under the name as it is. It is never
      more, in any cluster, for a plain user name and for that of a service account with four pieces
      and a namespace (exactly those, by SoundExactly). In a cluster whose literal grants cover the others
      it is the same if and only if the lookup decides as RBAC does. */
  lemma QuiescentRequestAgreesWithRbac(ss: seq<State>, steps: seq<Step>, i: nat, c: Rbac.Cluster,
                                       username: string, groups: seq<string>, reply: Reply, o: NsObj)
    requires Execution(ss, steps) && i < |ss| && ss[i].published != [] && Quiescent(ss[i])
    requires ParseUsername(username).Parsed? && ReplySpec(Stored(ss[i]), username, groups, reply)
    requires ss[i].world.history != []
    requires Caches(ss[i].world.history[Now(ss[i].world)], c)
    requires o in ss[i].world.history[Now(ss[i].world)].objects
    ensures reply.Listed?
    ensures HasName(reply.items, o.name) <==> Who(username, groups) * Rbac.LiterallyAllowed(c, o.name) != {}
    ensures FaithfulName(username) && HasName(reply.items, o.name) ==> RbacGrants(c, username, groups, o.name)
    ensures Rbac.ClusterCovered(c) ==>
              ((HasName(reply.items, o.name) <==> RbacGrants(c, username, groups, o.name))
               <==> LookupDecides(c, username, groups, o.name))
  {
    QuiescentRequestIsLiteral(ss, steps, i, c, username, groups, reply, o);
    LiteralAgainstRbac(c, username, groups, o.name);
  }

  lemma LiteralAgainstRbac(c: Rbac.Cluster, username: string, groups: seq<string>, n: string)
    requires ParseUsername(username).Parsed?
    ensures FaithfulName(username) && Who(username, groups) * Rbac.LiterallyAllowed(c, n) != {} ==>
              RbacGrants(c, username, groups, n)
    ensures Rbac.ClusterCovered(c) ==>
              ((Who(username, groups) * Rbac.LiterallyAllowed(c, n) != {} <==> RbacGrants(c, username, groups, n))
               <==> LookupDecides(c, username, groups, n))
  {
    Rbac.TrimmedAllowedSubjects(c, n);
    Rbac.ClusterLosslessExactly(c);
    if FaithfulName(username) && Who(username, groups) * Rbac.LiterallyAllowed(c, n) != {} {
      var s :| s in Who(username, groups) * Rbac.LiterallyAllowed(c, n);
      assert s in Who(username, groups) * Rbac.AllowedSubjects(c, n);
      FaithfulNameIsSound(c, username, groups, n);
    }
    LookupAgreesExactly(c, username, groups, n);
  }
}
