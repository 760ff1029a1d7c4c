/** Sorting and compacting a slice in place, for any comparator. */
module Slices {
  import opened Common

  /** Zero exactly on equal elements, antisymmetric and transitive. */
  ghost predicate TotalOrder<T(!new)>(cmp: (T, T) -> int) {
    && (forall a, b :: cmp(a, b) == 0 <==> a == b)
    && (forall a, b :: cmp(a, b) < 0 <==> cmp(b, a) > 0)
    && (forall a, b, c :: cmp(a, b) <= 0 && cmp(b, c) <= 0 ==> cmp(a, c) <= 0)
  }

  ghost predicate Increasing<T>(s: seq<T>, cmp: (T, T) -> int) {
    forall i, j :: 0 <= i < j < |s| ==> cmp(s[i], s[j]) <= 0
  }

  ghost predicate StrictlyIncreasing<T>(s: seq<T>, cmp: (T, T) -> int) {
    forall i, j :: 0 <= i < j < |s| ==> cmp(s[i], s[j]) < 0
  }

  // ----- sort -----

  /** Inserts `x` after the elements at the end of `s` that exceed it. */
  function Insert<T>(s: seq<T>, x: T, cmp: (T, T) -> int): (r: seq<T>)
    ensures |r| == |s| + 1
  {
    if s != [] && cmp(s[|s| - 1], x) > 0
    then Insert(s[..|s| - 1], x, cmp) + [s[|s| - 1]]
    else s + [x]
  }

  function Sort<T>(s: seq<T>, cmp: (T, T) -> int): (r: seq<T>)
    ensures |r| == |s|
  {
    if s == [] then [] else Insert(Sort(s[..|s| - 1], cmp), s[|s| - 1], cmp)
  }

  lemma {:induction false} InsertPermutes<T>(s: seq<T>, x: T, cmp: (T, T) -> int)
    ensures multiset(Insert(s, x, cmp)) == multiset(s) + multiset{x}
  {
    if s != [] && cmp(s[|s| - 1], x) > 0 {
      InsertPermutes(s[..|s| - 1], x, cmp);
      assert s == s[..|s| - 1] + [s[|s| - 1]];
    }
  }

  lemma {:induction false} SortPermutes<T>(s: seq<T>, cmp: (T, T) -> int)
    ensures multiset(Sort(s, cmp)) == multiset(s)
  {
    if s != [] {
      SortPermutes(s[..|s| - 1], cmp);
      InsertPermutes(Sort(s[..|s| - 1], cmp), s[|s| - 1], cmp);
      assert s == s[..|s| - 1] + [s[|s| - 1]];
    }
  }

  lemma SortKeepsElements<T>(s: seq<T>, cmp: (T, T) -> int)
    ensures forall x :: x in Sort(s, cmp) <==> x in s
  {
    SortPermutes(s, cmp);
    SameElements(Sort(s, cmp), s);
  }

  lemma SameElements<T>(a: seq<T>, b: seq<T>)
    requires multiset(a) == multiset(b)
    ensures forall x :: x in a <==> x in b
  {
    forall x ensures x in a <==> x in b {
      assert x in a <==> x in multiset(a);
      assert x in b <==> x in multiset(b);
    }
  }

  lemma {:induction false} InsertKeepsOrder<T(!new)>(s: seq<T>, x: T, cmp: (T, T) -> int)
    requires TotalOrder(cmp) && Increasing(s, cmp)
    ensures Increasing(Insert(s, x, cmp), cmp)
  {
    if s != [] && cmp(s[|s| - 1], x) > 0 {
      var init, last := s[..|s| - 1], s[|s| - 1];
      InsertKeepsOrder(init, x, cmp);
      InsertPermutes(init, x, cmp);
      SameElements(Insert(init, x, cmp), init + [x]);
      forall y | y in Insert(init, x, cmp) ensures cmp(y, last) <= 0 {
        assert y in init + [x];
      }
      AppendUpperBound(Insert(init, x, cmp), last, cmp);
    } else {
      forall y | y in s ensures cmp(y, x) <= 0 {
        var i :| 0 <= i < |s| && s[i] == y;
        assert cmp(y, s[|s| - 1]) <= 0 && cmp(s[|s| - 1], x) <= 0;
      }
      AppendUpperBound(s, x, cmp);
    }
  }

  lemma AppendUpperBound<T>(s: seq<T>, x: T, cmp: (T, T) -> int)
    requires Increasing(s, cmp) && forall y :: y in s ==> cmp(y, x) <= 0
    ensures Increasing(s + [x], cmp)
  {
  }

  lemma {:induction false} SortIncreasing<T(!new)>(s: seq<T>, cmp: (T, T) -> int)
    requires TotalOrder(cmp)
    ensures Increasing(Sort(s, cmp), cmp)
  {
    if s != [] {
      SortIncreasing(s[..|s| - 1], cmp);
      InsertKeepsOrder(Sort(s[..|s| - 1], cmp), s[|s| - 1], cmp);
    }
  }

  // ----- compact -----

  /** Keeps the first element of every run of equal neighbours. */
  function Compact<T(==)>(s: seq<T>): (r: seq<T>)
    ensures |r| <= |s|
    ensures s != [] ==> r != [] && r[|r| - 1] == s[|s| - 1]
  {
    if |s| <= 1 then s
    else
      var r := Compact(s[..|s| - 1]);
      if s[|s| - 1] == s[|s| - 2] then r else r + [s[|s| - 1]]
  }

  lemma {:induction false} CompactKeepsElements<T>(s: seq<T>)
    ensures forall x :: x in Compact(s) <==> x in s
  {
    if |s| > 1 {
      CompactKeepsElements(s[..|s| - 1]);
      assert s == s[..|s| - 1] + [s[|s| - 1]];
    }
  }

  lemma {:induction false} CompactSorted<T(!new)>(s: seq<T>, cmp: (T, T) -> int)
    requires TotalOrder(cmp) && Increasing(s, cmp)
    ensures StrictlyIncreasing(Compact(s), cmp)
  {
    if |s| > 1 {
      var init, last := s[..|s| - 1], s[|s| - 1];
      CompactSorted(init, cmp);
      if last != s[|s| - 2] {
        CompactKeepsElements(init);
        forall y | y in Compact(init) ensures cmp(y, last) < 0 {
          StrictlyBelowLast(s, y, cmp);
        }
        AppendStrictBound(Compact(init), last, cmp);
      }
    }
  }

  lemma StrictlyBelowLast<T(!new)>(s: seq<T>, y: T, cmp: (T, T) -> int)
    requires TotalOrder(cmp) && Increasing(s, cmp)
    requires |s| > 1 && s[|s| - 1] != s[|s| - 2] && y in s[..|s| - 1]
    ensures cmp(y, s[|s| - 1]) < 0
  {
  }

  lemma AppendStrictBound<T>(s: seq<T>, x: T, cmp: (T, T) -> int)
    requires StrictlyIncreasing(s, cmp) && forall y :: y in s ==> cmp(y, x) < 0
    ensures StrictlyIncreasing(s + [x], cmp)
  {
  }

  lemma StrictlyIncreasingNoDup<T(!new)>(s: seq<T>, cmp: (T, T) -> int)
    requires TotalOrder(cmp) && StrictlyIncreasing(s, cmp)
    ensures NoDup(s)
  {
  }

  lemma HasElement<T>(s: seq<T>)
    ensures s == [] || exists x :: x in s
  {
    if s != [] { assert s[0] in s; }
  }

  /** A strictly increasing sequence is determined by its elements. */
  lemma {:induction false} StrictlyIncreasingUnique<T(!new)>(a: seq<T>, b: seq<T>, cmp: (T, T) -> int)
    requires TotalOrder(cmp)
    requires StrictlyIncreasing(a, cmp) && StrictlyIncreasing(b, cmp)
    requires forall x :: x in a <==> x in b
    ensures a == b
  {
    if a == [] {
      HasElement(b);
    } else {
      SameHead(a, b, cmp);
      forall x ensures x in a[1..] <==> x in b[1..] {
        TailElement(a, x, cmp);
        TailElement(b, x, cmp);
      }
      StrictlyIncreasingUnique(a[1..], b[1..], cmp);
      assert a == [a[0]] + a[1..] && b == [b[0]] + b[1..];
    }
  }

  lemma SameHead<T(!new)>(a: seq<T>, b: seq<T>, cmp: (T, T) -> int)
    requires TotalOrder(cmp)
    requires StrictlyIncreasing(a, cmp) && StrictlyIncreasing(b, cmp)
    requires a != [] && forall x :: x in a <==> x in b
    ensures b != [] && a[0] == b[0]
  {
    assert a[0] in b;
    assert b[0] in a;
    var i :| 0 <= i < |b| && b[i] == a[0];
    var j :| 0 <= j < |a| && a[j] == b[0];
    assert cmp(a[0], b[0]) <= 0;
    assert cmp(b[0], a[0]) <= 0;
  }

  lemma TailElement<T(!new)>(a: seq<T>, x: T, cmp: (T, T) -> int)
    requires TotalOrder(cmp) && StrictlyIncreasing(a, cmp) && a != []
    ensures x in a[1..] <==> x in a && x != a[0]
  {
  }

  /** Sort-then-compact keeps exactly the elements, once each, in increasing order. */
  lemma SortCompact<T(!new)>(s: seq<T>, cmp: (T, T) -> int)
    requires TotalOrder(cmp)
    ensures StrictlyIncreasing(Compact(Sort(s, cmp)), cmp)
    ensures NoDup(Compact(Sort(s, cmp)))
    ensures Elems(Compact(Sort(s, cmp))) == Elems(s)
  {
    SortIncreasing(s, cmp);
    CompactSorted(Sort(s, cmp), cmp);
    StrictlyIncreasingNoDup(Compact(Sort(s, cmp)), cmp);
    SortCompactElements(s, cmp);
  }

  lemma SortCompactElements<T>(s: seq<T>, cmp: (T, T) -> int)
    ensures Elems(Compact(Sort(s, cmp))) == Elems(s)
  {
    SortKeepsElements(s, cmp);
    CompactKeepsElements(Sort(s, cmp));
    SameElems(Compact(Sort(s, cmp)), s);
  }

  lemma SameElems<T>(a: seq<T>, b: seq<T>)
    requires forall x :: x in a <==> x in b
    ensures Elems(a) == Elems(b)
  {
  }

  // ----- in place -----

  method SortInPlace<T>(a: array<T>, cmp: (T, T) -> int)
    modifies a
    ensures a[..] == Sort(old(a[..]), cmp)
  {
    var i := 0;
    while i < a.Length
      invariant 0 <= i <= a.Length
      invariant a[..i] == Sort(old(a[..])[..i], cmp)
      invariant a[i..] == old(a[..])[i..]
    {
      ghost var s, p := old(a[..]), a[..i];
      InsertLast(a, i, cmp);
      assert s[..i + 1][..i] == s[..i];
      assert a[..i + 1] == Insert(p, s[i], cmp);
      i := i + 1;
    }
    assert a[..] == a[..i];
    assert old(a[..])[..i] == old(a[..]);
  }

  /** Shifts `a[i]` left to its place in the sorted prefix `a[..i]`. */
  method InsertLast<T>(a: array<T>, i: nat, cmp: (T, T) -> int)
    requires i < a.Length
    modifies a
    ensures a[..i + 1] == Insert(old(a[..i]), old(a[i]), cmp)
    ensures a[i + 1..] == old(a[i + 1..])
  {
    ghost var p := a[..i];
    var x := a[i];
    var j := i;
    while j > 0 && cmp(a[j - 1], x) > 0
      invariant 0 <= j <= i
      invariant forall k :: 0 <= k < j ==> a[k] == p[k]
      invariant forall k :: j < k <= i ==> a[k] == p[k - 1]
      invariant forall k :: j <= k < i ==> cmp(p[k], x) > 0
      invariant forall k :: i < k < a.Length ==> a[k] == old(a[k])
    {
      a[j] := a[j - 1];
      j := j - 1;
    }
    a[j] := x;
    InsertAt(p, j, x, cmp);
    assert a[..i + 1] == p[..j] + [x] + p[j..];
  }

  lemma {:induction false} InsertAt<T>(p: seq<T>, j: nat, x: T, cmp: (T, T) -> int)
    requires j <= |p| && (j > 0 ==> cmp(p[j - 1], x) <= 0)
    requires forall k :: j <= k < |p| ==> cmp(p[k], x) > 0
    ensures Insert(p, x, cmp) == p[..j] + [x] + p[j..]
  {
    if j < |p| {
      var init := p[..|p| - 1];
      InsertAt(init, j, x, cmp);
      assert init[..j] == p[..j];
      assert init[j..] + [p[|p| - 1]] == p[j..];
    } else {
      assert p[..j] == p;
    }
  }

  /** Moves the kept elements to the front and returns how many there are. */
  method CompactInPlace<T(==)>(a: array<T>) returns (k: nat)
    modifies a
    ensures k <= a.Length
    ensures a[..k] == Compact(old(a[..]))
  {
    if a.Length < 2 {
      assert a[..a.Length] == a[..];
      return a.Length;
    }
    k := 1;
    var i := 1;
    ghost var s := a[..];
    assert a[..1] == s[..1];
    while i < a.Length
      invariant 1 <= k <= i <= a.Length
      invariant a[..k] == Compact(s[..i])
      invariant a[i..] == s[i..]
      invariant a[k - 1] == s[i - 1]
    {
      assert s[..i + 1][..i] == s[..i];
      assert a[i] == a[i..][0] == s[i];
      if a[i] != a[k - 1] {
        ghost var before := a[..k];
        a[k] := a[i];
        k := k + 1;
        assert a[..k] == before + [s[i]];
      }
      i := i + 1;
    }
    assert s[..i] == s;
  }
}
