/** The keyed cache behind an atomic pointer: replaced as a whole, listed by one or more keys. */
module ListCache {
  import opened Common

  /** A call returns items, or dereferences the nil snapshot pointer. */
  datatype Outcome<T> = Returned(items: seq<T>) | NilDereference

  // ----- specification -----

  ghost function EntryOf<K, E>(m: map<K, seq<E>>, k: K): seq<E> {
    if k in m then m[k] else []
  }

  /** The elements of all keys, key by key. */
  ghost function Concat<K, E>(m: map<K, seq<E>>, keys: seq<K>): seq<E> {
    if keys == [] then [] else Concat(m, keys[..|keys| - 1]) + EntryOf(m, keys[|keys| - 1])
  }

  /** Position `p` of `all` is the first one with its id. */
  ghost predicate FirstAt<E, I>(all: seq<E>, id: E -> I, p: int) {
    0 <= p < |all| && forall q :: 0 <= q < p ==> id(all[q]) != id(all[p])
  }

  ghost predicate DistinctIds<E, I>(r: seq<E>, id: E -> I) {
    forall i, j :: 0 <= i < j < |r| ==> id(r[i]) != id(r[j])
  }

  ghost predicate HasId<E, I>(r: seq<E>, id: E -> I, i: I) {
    exists j :: 0 <= j < |r| && id(r[j]) == i
  }

  /** `r` holds, for every id of `all`, the first element with that id, once, in some order. */
  ghost predicate FirstWins<E, I>(all: seq<E>, id: E -> I, r: seq<E>) {
    && DistinctIds(r, id)
    && (forall j :: 0 <= j < |r| ==> exists p :: FirstAt(all, id, p) && all[p] == r[j])
    && (forall p :: 0 <= p < |all| ==> HasId(r, id, id(all[p])))
  }

  ghost predicate ListSpec<K, E, I>(data: Option<map<K, seq<E>>>, keys: seq<K>, id: E -> I, out: Outcome<E>) {
    if |keys| == 0 then out == Returned([])
    else if |keys| == 1 then
      out == Returned(if data.Some? then EntryOf(data.value, keys[0]) else [])
    else if data.None? then out == NilDereference
    else out.Returned? && FirstWins(Concat(data.value, keys), id, out.items)
  }

  // ----- what the specification means -----

  lemma {:induction false} InConcat<K, E>(m: map<K, seq<E>>, keys: seq<K>, x: E)
    ensures x in Concat(m, keys) <==> exists i :: 0 <= i < |keys| && x in EntryOf(m, keys[i])
  {
    if keys != [] {
      var init, last := keys[..|keys| - 1], keys[|keys| - 1];
      InConcat(m, init, x);
      if i :| 0 <= i < |keys| && x in EntryOf(m, keys[i]) {
        if i < |init| { assert init[i] == keys[i]; }
      }
      if x in Concat(m, init) {
        var i :| 0 <= i < |init| && x in EntryOf(m, init[i]);
        assert keys[i] == init[i];
      }
    }
  }

  lemma ConcatStep<K, E>(m: map<K, seq<E>>, keys: seq<K>, i: nat)
    requires i < |keys|
    ensures Concat(m, keys[..i + 1]) == Concat(m, keys[..i]) + EntryOf(m, keys[i])
    ensures keys[i] !in m ==> Concat(m, keys[..i + 1]) == Concat(m, keys[..i])
  {
    assert keys[..i + 1][..i] == keys[..i];
  }

  lemma {:induction false} ConcatStartsWithFirstKey<K, E>(m: map<K, seq<E>>, keys: seq<K>)
    requires keys != []
    ensures EntryOf(m, keys[0]) <= Concat(m, keys)
  {
    var init := keys[..|keys| - 1];
    if init == [] {
      assert Concat(m, init) == [];
    } else {
      ConcatStartsWithFirstKey(m, init);
    }
  }

  /** The ids returned are exactly the ids found under the keys. */
  lemma IdsAreTheUnion<K, E, I>(m: map<K, seq<E>>, keys: seq<K>, id: E -> I, r: seq<E>, i: I)
    requires FirstWins(Concat(m, keys), id, r)
    ensures (exists x :: x in r && id(x) == i)
            <==> (exists k, x :: k in keys && x in EntryOf(m, k) && id(x) == i)
  {
    var all := Concat(m, keys);
    if x :| x in r && id(x) == i {
      var j :| 0 <= j < |r| && r[j] == x;
      var p :| FirstAt(all, id, p) && all[p] == r[j];
      InConcat(m, keys, x);
      var n :| 0 <= n < |keys| && x in EntryOf(m, keys[n]);
      assert keys[n] in keys;
    }
    if k, x :| k in keys && x in EntryOf(m, k) && id(x) == i {
      var n :| 0 <= n < |keys| && keys[n] == k;
      InConcat(m, keys, x);
      var p :| 0 <= p < |all| && all[p] == x;
      assert HasId(r, id, id(all[p]));
      var j :| 0 <= j < |r| && id(r[j]) == id(all[p]);
      assert r[j] in r;
    }
  }

  /** The order is open, the contents are not: any two results are permutations of each other. */
  lemma FirstWinsIsDetermined<E, I>(all: seq<E>, id: E -> I, r: seq<E>, t: seq<E>)
    requires FirstWins(all, id, r) && FirstWins(all, id, t)
    ensures multiset(r) == multiset(t)
  {
    forall x ensures x in r <==> x in t {
      if x in r { FirstWinsIncludes(all, id, r, t, x); }
      if x in t { FirstWinsIncludes(all, id, t, r, x); }
    }
    NoDupPermutation(r, t);
  }

  lemma FirstWinsIncludes<E, I>(all: seq<E>, id: E -> I, r: seq<E>, t: seq<E>, x: E)
    requires FirstWins(all, id, r) && FirstWins(all, id, t) && x in r
    ensures x in t
  {
  }

  /** The first element with an id is the one returned for it. */
  lemma FirstIsReturned<E, I>(all: seq<E>, id: E -> I, r: seq<E>, p: int)
    requires FirstWins(all, id, r) && FirstAt(all, id, p)
    ensures all[p] in r
  {
  }

  /** An element found under the first key is returned as that key has it, whatever the other keys
      hold for the same id. */
  lemma FirstKeyWins<K, E, I>(m: map<K, seq<E>>, keys: seq<K>, id: E -> I, r: seq<E>, x: E)
    requires keys != [] && FirstWins(Concat(m, keys), id, r)
    requires x in EntryOf(m, keys[0]) && DistinctIds(EntryOf(m, keys[0]), id)
    ensures x in r && forall y :: y in r && id(y) == id(x) ==> y == x
  {
    var all, first := Concat(m, keys), EntryOf(m, keys[0]);
    ConcatStartsWithFirstKey(m, keys);
    var p :| 0 <= p < |first| && first[p] == x;
    FirstInPrefix(all, first, id, p);
    FirstIsReturned(all, id, r, p);
    var j :| 0 <= j < |r| && r[j] == x;
    forall y | y in r && id(y) == id(x) ensures y == x {
      var n :| 0 <= n < |r| && r[n] == y;
      assert n == j;
    }
  }

  /** The first element with an id belongs to the first key that has the id. */
  lemma {:induction false} FirstOwner<K, E, I>(m: map<K, seq<E>>, keys: seq<K>, id: E -> I, p: int) returns (q: nat)
    requires FirstAt(Concat(m, keys), id, p)
    ensures q < |keys| && Concat(m, keys)[p] in EntryOf(m, keys[q])
    ensures forall r, y :: 0 <= r < q && y in EntryOf(m, keys[r]) ==> id(y) != id(Concat(m, keys)[p])
  {
    var init, all := keys[..|keys| - 1], Concat(m, keys);
    if p < |Concat(m, init)| {
      assert forall k :: 0 <= k < |Concat(m, init)| ==> all[k] == Concat(m, init)[k];
      forall k | 0 <= k < p ensures id(Concat(m, init)[k]) != id(Concat(m, init)[p]) {
        assert id(all[k]) != id(all[p]);
      }
      q := FirstOwner(m, init, id, p);
    } else {
      q := |keys| - 1;
      forall r, y | 0 <= r < q && y in EntryOf(m, keys[r]) ensures id(y) != id(all[p]) {
        assert init[r] == keys[r];
        InConcat(m, init, y);
        var k :| 0 <= k < |Concat(m, init)| && Concat(m, init)[k] == y;
        assert all[k] == y;
      }
    }
  }

  lemma FirstInPrefix<E, I>(all: seq<E>, first: seq<E>, id: E -> I, p: int)
    requires first <= all && DistinctIds(first, id) && 0 <= p < |first|
    ensures FirstAt(all, id, p) && all[p] == first[p]
  {
  }

  lemma {:induction false} ConcatOfOneKey<K, E>(m: map<K, seq<E>>, key: K, keys: seq<K>, p: int)
    requires keys != [] && forall i :: 0 <= i < |keys| ==> keys[i] == key
    requires 0 <= p < |Concat(m, keys)|
    ensures Concat(m, keys)[p] in EntryOf(m, key)
  {
    InConcat(m, keys, Concat(m, keys)[p]);
  }

  /** The single-key fast path and the general path agree, up to order, on any repetition of a key
      whose entry does not repeat an id. */
  lemma FastPathAgrees<K, E, I>(m: map<K, seq<E>>, key: K, keys: seq<K>, id: E -> I, r: seq<E>)
    requires keys != [] && forall i :: 0 <= i < |keys| ==> keys[i] == key
    requires DistinctIds(EntryOf(m, key), id)
    requires FirstWins(Concat(m, keys), id, r)
    ensures multiset(r) == multiset(EntryOf(m, key))
  {
    var e, all := EntryOf(m, key), Concat(m, keys);
    forall x ensures x in r <==> x in e {
      if x in e { FirstKeyWins(m, keys, id, r, x); }
      if x in r {
        var j :| 0 <= j < |r| && r[j] == x;
        var p :| FirstAt(all, id, p) && all[p] == r[j];
        ConcatOfOneKey(m, key, keys, p);
      }
    }
    NoDupPermutation(r, e);
  }

  // ----- the code -----

  /** `d` maps every id of `all` to the first element that has it. */
  ghost predicate FirstMap<E, I>(all: seq<E>, id: E -> I, d: map<I, E>) {
    && (forall p :: 0 <= p < |all| ==> id(all[p]) in d)
    && (forall i :: i in d ==> exists p :: FirstAt(all, id, p) && all[p] == d[i] && id(all[p]) == i)
    && |d| <= |all|
  }

  lemma FirstMapStep<E, I>(all: seq<E>, id: E -> I, d: map<I, E>, n: E)
    requires FirstMap(all, id, d)
    ensures FirstMap(all + [n], id, if id(n) in d then d else d[id(n) := n])
  {
    var all', d' := all + [n], if id(n) in d then d else d[id(n) := n];
    forall i | i in d' ensures exists p :: FirstAt(all', id, p) && all'[p] == d'[i] && id(all'[p]) == i {
      if i in d {
        var p :| FirstAt(all, id, p) && all[p] == d[i] && id(all[p]) == i;
        assert FirstAt(all', id, p);
      } else {
        assert FirstAt(all', id, |all|);
      }
    }
  }

  lemma HasIdGrows<E, I>(r: seq<E>, id: E -> I, x: E)
    ensures HasId(r + [x], id, id(x))
    ensures forall i :: HasId(r, id, i) ==> HasId(r + [x], id, i)
  {
    assert (r + [x])[|r|] == x;
    forall i | HasId(r, id, i) ensures HasId(r + [x], id, i) {
      var j :| 0 <= j < |r| && id(r[j]) == i;
      assert (r + [x])[j] == r[j];
    }
  }

  class AtomicListRestockCache<K(==), E, I(==)> {
    const idFunc: E -> I
    var data: Option<map<K, seq<E>>>

    constructor (idFunc: E -> I)
      ensures this.idFunc == idFunc && data == None
    {
      this.idFunc := idFunc;
      data := None;
    }

    /** Replaces the data as a whole. */
    method Restock(m: map<K, seq<E>>)
      modifies this
      ensures data == Some(m)
    {
      data := Some(m);
    }

    method List(keys: seq<K>) returns (out: Outcome<E>)
      ensures ListSpec(data, keys, idFunc, out)
    {
      if |keys| == 0 {
        out := Returned([]);
      } else if |keys| == 1 {
        out := Returned(if data.Some? && keys[0] in data.value then data.value[keys[0]] else []);
      } else {
        var m := data;
        if m.None? {
          out := NilDereference;
        } else {
          var r := ListAll(m.value, keys, idFunc);
          out := Returned(r);
        }
      }
    }

    /** Works on the snapshot `m` alone: a Restock in the meantime cannot be seen. */
    static method ListAll(m: map<K, seq<E>>, keys: seq<K>, id: E -> I) returns (r: seq<E>)
      ensures FirstWins(Concat(m, keys), id, r)
      ensures |r| <= |Concat(m, keys)|
    {
      var maxSize := 0;
      var d: map<I, E> := map[];
      var i := 0;
      while i < |keys|
        invariant 0 <= i <= |keys|
        invariant maxSize == |Concat(m, keys[..i])|
        invariant FirstMap(Concat(m, keys[..i]), id, d)
      {
        ConcatStep(m, keys, i);
        if keys[i] in m {
          var nn := m[keys[i]];
          maxSize := maxSize + |nn|;
          d := AddAll(Concat(m, keys[..i]), d, nn, id);
        }
        i := i + 1;
      }
      assert keys[..i] == keys;
      r := Collapse(d, id, Concat(m, keys));
      assert |r| <= maxSize;
    }

    static method AddAll(ghost all: seq<E>, d0: map<I, E>, nn: seq<E>, id: E -> I) returns (d: map<I, E>)
      requires FirstMap(all, id, d0)
      ensures FirstMap(all + nn, id, d)
    {
      d := d0;
      var j := 0;
      assert all + nn[..0] == all;
      while j < |nn|
        invariant 0 <= j <= |nn|
        invariant FirstMap(all + nn[..j], id, d)
      {
        FirstMapStep(all + nn[..j], id, d, nn[j]);
        assert all + nn[..j] + [nn[j]] == all + nn[..j + 1];
        if id(nn[j]) !in d {
          d := d[id(nn[j]) := nn[j]];
        }
        j := j + 1;
      }
      assert nn[..j] == nn;
    }

    /** Ranging over a map takes its keys in any order. */
    static method Collapse(d: map<I, E>, id: E -> I, ghost all: seq<E>) returns (r: seq<E>)
      requires FirstMap(all, id, d)
      ensures FirstWins(all, id, r) && |r| == |d|
    {
      r := [];
      var rest := d.Keys;
      while rest != {}
        invariant rest <= d.Keys && |r| + |rest| == |d|
        invariant DistinctIds(r, id)
        invariant forall j :: 0 <= j < |r| ==> id(r[j]) in d && id(r[j]) !in rest && r[j] == d[id(r[j])]
        invariant forall i :: i in d && i !in rest ==> HasId(r, id, i)
        decreases |rest|
      {
        var i :| i in rest;
        assert exists p :: FirstAt(all, id, p) && all[p] == d[i] && id(all[p]) == i;
        HasIdGrows(r, id, d[i]);
        r := r + [d[i]];
        rest := rest - {i};
      }
    }
  }

  /** Listing fails if and only if there are two keys or more and no snapshot yet. */
  lemma NilDereferenceExactly<K, E, I>(data: Option<map<K, seq<E>>>, keys: seq<K>, id: E -> I, out: Outcome<E>)
    requires ListSpec(data, keys, id, out)
    ensures out.NilDereference? <==> data.None? && |keys| >= 2
  {
  }
}
