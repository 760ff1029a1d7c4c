/** Adding up a function over a finite set. */
module Totals {

  ghost function Pick<K(!new)>(a: set<K>): (k: K)
    requires a != {}
    ensures k in a
  {
    var k :| k in a; k
  }

  ghost function Sum<K(!new)>(a: set<K>, f: K -> nat): nat {
    if a == {} then 0 else f(Pick(a)) + Sum(a - {Pick(a)}, f)
  }

  /** The sum does not depend on the order in which the elements are taken. */
  lemma {:induction false} SumRemove<K(!new)>(a: set<K>, f: K -> nat, k: K)
    requires k in a
    ensures Sum(a, f) == f(k) + Sum(a - {k}, f)
    decreases |a|
  {
    var j := Pick(a);
    if j != k {
      SumRemove(a - {j}, f, k);
      SumRemove(a - {k}, f, j);
      assert a - {j} - {k} == a - {k} - {j};
    }
  }

  lemma SumAdd<K(!new)>(a: set<K>, f: K -> nat, k: K)
    requires k !in a
    ensures Sum(a + {k}, f) == f(k) + Sum(a, f)
  {
    SumRemove(a + {k}, f, k);
    assert a + {k} - {k} == a;
  }

  lemma {:induction false} SumEqual<K(!new)>(a: set<K>, f: K -> nat, g: K -> nat)
    requires forall k :: k in a ==> f(k) == g(k)
    ensures Sum(a, f) == Sum(a, g)
    decreases |a|
  {
    if a != {} { SumEqual(a - {Pick(a)}, f, g); }
  }

  lemma {:induction false} SumUnion<K(!new)>(a: set<K>, b: set<K>, f: K -> nat)
    requires a !! b
    ensures Sum(a + b, f) == Sum(a, f) + Sum(b, f)
    decreases |b|
  {
    if k :| k in b {
      SumUnion(a, b - {k}, f);
      SumRemove(b, f, k);
      SumRemove(a + b, f, k);
      assert a + b - {k} == a + (b - {k});
    } else {
      assert a + b == a;
    }
  }

  lemma {:induction false} SumZero<K(!new)>(a: set<K>, f: K -> nat)
    ensures Sum(a, f) == 0 <==> forall k :: k in a ==> f(k) == 0
    decreases |a|
  {
    if k :| k in a {
      SumRemove(a, f, k);
      SumZero(a - {k}, f);
    }
  }

  /** `f` is `g` plus one on the elements of `b`. */
  lemma {:induction false} SumOneHigher<K(!new)>(a: set<K>, b: set<K>, f: K -> nat, g: K -> nat)
    requires b <= a
    requires forall k :: k in a ==> f(k) == g(k) + if k in b then 1 else 0
    ensures Sum(a, f) == Sum(a, g) + |b|
    decreases |a|
  {
    if k :| k in a {
      SumRemove(a, f, k);
      SumRemove(a, g, k);
      SumOneHigher(a - {k}, b - {k}, f, g);
      assert k !in b ==> b - {k} == b;
    } else {
      assert b == {};
    }
  }

  // ----- adding up by class -----

  ghost function Class<K(!new), C(!new)>(a: set<K>, c: K -> C, x: C): set<K> {
    set k | k in a && c(k) == x
  }

  ghost function ClassSum<K(!new), C(!new)>(a: set<K>, c: K -> C, f: K -> nat): C -> nat {
    x => Sum(Class(a, c, x), f)
  }

  ghost function Classes<K(!new), C(!new)>(a: set<K>, c: K -> C): set<C> {
    set k | k in a :: c(k)
  }

  ghost function InClasses<K(!new), C(!new)>(a: set<K>, c: K -> C, xs: set<C>): set<K> {
    set k | k in a && c(k) in xs
  }

  lemma {:induction false} SumOfSomeClasses<K(!new), C(!new)>(a: set<K>, c: K -> C, f: K -> nat, xs: set<C>)
    ensures Sum(xs, ClassSum(a, c, f)) == Sum(InClasses(a, c, xs), f)
    decreases |xs|
  {
    if x :| x in xs {
      SumOfSomeClasses(a, c, f, xs - {x});
      SumRemove(xs, ClassSum(a, c, f), x);
      var others := InClasses(a, c, xs - {x});
      SumUnion(others, Class(a, c, x), f);
      assert InClasses(a, c, xs) == others + Class(a, c, x);
    } else {
      assert InClasses(a, c, xs) == {};
    }
  }

  /** Adding up class by class is adding up. */
  lemma SumByClass<K(!new), C(!new)>(a: set<K>, c: K -> C, f: K -> nat)
    ensures Sum(Classes(a, c), ClassSum(a, c, f)) == Sum(a, f)
  {
    SumOfSomeClasses(a, c, f, Classes(a, c));
    assert InClasses(a, c, Classes(a, c)) == a;
  }
}
