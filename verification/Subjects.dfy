/** RBAC subjects, the order they are sorted by, and sort-then-compact deduplication. */
module Subjects {
  import opened Common
  import opened Slices

  datatype Subject = Subject(apiGroup: string, kind: string, namespace: string, name: string)

  const RBAC_GROUP := "rbac.authorization.k8s.io"
  const USER_KIND := "User"
  const GROUP_KIND := "Group"
  const SERVICE_ACCOUNT_KIND := "ServiceAccount"

  /** Lexicographic comparison: -1, 0 or 1. */
  function CompareStrings(a: string, b: string): (c: int)
    ensures -1 <= c <= 1
  {
    if a == [] then (if b == [] then 0 else -1)
    else if b == [] then 1
    else if a[0] < b[0] then -1
    else if a[0] > b[0] then 1
    else CompareStrings(a[1..], b[1..])
  }

  /** The comparator of the sort: group, then kind, then namespace, then name. */
  function Compare(a: Subject, b: Subject): int {
    var g := CompareStrings(a.apiGroup, b.apiGroup);
    if g != 0 then g else
    var k := CompareStrings(a.kind, b.kind);
    if k != 0 then k else
    var n := CompareStrings(a.namespace, b.namespace);
    if n != 0 then n else
    CompareStrings(a.name, b.name)
  }

  lemma {:induction false} StringsEqual(a: string, b: string)
    ensures CompareStrings(a, b) == 0 <==> a == b
  {
    if a != [] && b != [] {
      StringsEqual(a[1..], b[1..]);
      assert a == [a[0]] + a[1..] && b == [b[0]] + b[1..];
    }
  }

  lemma {:induction false} StringsAntisymmetric(a: string, b: string)
    ensures CompareStrings(a, b) == -CompareStrings(b, a)
  {
    if a != [] && b != [] { StringsAntisymmetric(a[1..], b[1..]); }
  }

  lemma {:induction false} StringsTransitive(a: string, b: string, c: string)
    requires CompareStrings(a, b) <= 0 && CompareStrings(b, c) <= 0
    ensures CompareStrings(a, c) <= 0
    ensures CompareStrings(a, b) < 0 || CompareStrings(b, c) < 0 ==> CompareStrings(a, c) < 0
  {
    if a != [] && b != [] && c != [] && a[0] == b[0] == c[0] {
      StringsTransitive(a[1..], b[1..], c[1..]);
    }
  }

  /** The comparator answers 0 exactly on equal subjects, and swapping its arguments flips the sign. */
  lemma CompareIsAntisymmetric(a: Subject, b: Subject)
    ensures Compare(a, b) == 0 <==> a == b
    ensures Compare(a, b) == -Compare(b, a)
  {
    StringsEqual(a.apiGroup, b.apiGroup);
    StringsEqual(a.kind, b.kind);
    StringsEqual(a.namespace, b.namespace);
    StringsEqual(a.name, b.name);
    StringsAntisymmetric(a.apiGroup, b.apiGroup);
    StringsAntisymmetric(a.kind, b.kind);
    StringsAntisymmetric(a.namespace, b.namespace);
    StringsAntisymmetric(a.name, b.name);
  }

  /** The comparator is transitive, strictly so as soon as one side is strict. */
  lemma CompareIsTransitive(a: Subject, b: Subject, c: Subject)
    requires Compare(a, b) <= 0 && Compare(b, c) <= 0
    ensures Compare(a, c) <= 0
    ensures Compare(a, b) < 0 || Compare(b, c) < 0 ==> Compare(a, c) < 0
  {
    FieldTransitive(a.apiGroup, b.apiGroup, c.apiGroup);
    FieldTransitive(a.kind, b.kind, c.kind);
    FieldTransitive(a.namespace, b.namespace, c.namespace);
    FieldTransitive(a.name, b.name, c.name);
  }

  lemma FieldTransitive(a: string, b: string, c: string)
    ensures CompareStrings(a, b) == 0 <==> a == b
    ensures CompareStrings(b, c) == 0 <==> b == c
    ensures CompareStrings(a, b) <= 0 && CompareStrings(b, c) <= 0 ==> CompareStrings(a, c) <= 0
    ensures CompareStrings(a, b) < 0 && CompareStrings(b, c) <= 0 ==> CompareStrings(a, c) < 0
    ensures CompareStrings(a, b) <= 0 && CompareStrings(b, c) < 0 ==> CompareStrings(a, c) < 0
  {
    StringsEqual(a, b);
    StringsEqual(b, c);
    if CompareStrings(a, b) <= 0 && CompareStrings(b, c) <= 0 { StringsTransitive(a, b, c); }
  }

  /** `a` comes before `b`: at the first place where they differ it has the smaller character, or ends. */
  ghost predicate Before(a: string, b: string) {
    exists i :: FirstDifference(a, b, i)
  }

  ghost predicate FirstDifference(a: string, b: string, i: nat) {
    && i <= |a| && i < |b|
    && (forall k :: 0 <= k < i ==> a[k] == b[k])
    && (i == |a| || a[i] < b[i])
  }

  lemma {:induction false} StringsLexicographic(a: string, b: string)
    ensures CompareStrings(a, b) == -1 <==> Before(a, b)
  {
    if b != [] && (a == [] || a[0] < b[0]) {
      assert FirstDifference(a, b, 0);
    } else if a != [] && b != [] && a[0] == b[0] {
      StringsLexicographic(a[1..], b[1..]);
      if i: nat :| FirstDifference(a[1..], b[1..], i) {
        assert forall k :: 0 < k < i + 1 ==> a[k] == a[1..][k - 1] && b[k] == b[1..][k - 1];
        assert FirstDifference(a, b, i + 1);
      }
      if i: nat :| FirstDifference(a, b, i) {
        assert i > 0 && FirstDifference(a[1..], b[1..], i - 1);
      }
    }
  }

  /** The comparator orders by API group, then kind, then namespace, then name. */
  lemma CompareIsLexicographic(a: Subject, b: Subject)
    ensures Compare(a, b) < 0 <==>
            if a.apiGroup != b.apiGroup then Before(a.apiGroup, b.apiGroup)
            else if a.kind != b.kind then Before(a.kind, b.kind)
            else if a.namespace != b.namespace then Before(a.namespace, b.namespace)
            else Before(a.name, b.name)
  {
    StringsEqual(a.apiGroup, b.apiGroup);
    StringsEqual(a.kind, b.kind);
    StringsEqual(a.namespace, b.namespace);
    StringsLexicographic(a.apiGroup, b.apiGroup);
    StringsLexicographic(a.kind, b.kind);
    StringsLexicographic(a.namespace, b.namespace);
    StringsLexicographic(a.name, b.name);
  }

  /** The comparator is a total order that answers 0 exactly on equal subjects. */
  lemma CompareIsTotalOrder()
    ensures TotalOrder(Compare)
  {
    forall a, b ensures Compare(a, b) == 0 <==> a == b { CompareIsAntisymmetric(a, b); }
    forall a, b ensures Compare(a, b) < 0 <==> Compare(b, a) > 0 { CompareIsAntisymmetric(a, b); }
    forall a, b, c | Compare(a, b) <= 0 && Compare(b, c) <= 0 ensures Compare(a, c) <= 0 {
      CompareIsTransitive(a, b, c);
    }
  }

  // ----- sort then compact -----

  function Dedup(s: seq<Subject>): seq<Subject> {
    Compact(Sort(s, Compare))
  }

  /** Sort-then-compact keeps exactly the set of subjects, once each, in increasing order. */
  lemma DedupKeepsSet(s: seq<Subject>)
    ensures StrictlyIncreasing(Dedup(s), Compare)
    ensures NoDup(Dedup(s))
    ensures Elems(Dedup(s)) == Elems(s)
  {
    CompareIsTotalOrder();
    SortCompact(s, Compare);
  }

  /** The order and the repetitions of an answer do not matter, only its set of subjects does. */
  lemma DedupDependsOnSetOnly(s: seq<Subject>, t: seq<Subject>)
    ensures Elems(s) == Elems(t) <==> Dedup(s) == Dedup(t)
  {
    DedupKeepsSet(s);
    DedupKeepsSet(t);
    if Elems(s) == Elems(t) {
      forall x ensures x in Dedup(s) <==> x in Dedup(t) {
        assert x in Dedup(s) <==> x in Elems(Dedup(s));
        assert x in Dedup(t) <==> x in Elems(Dedup(t));
      }
      CompareIsTotalOrder();
      StrictlyIncreasingUnique(Dedup(s), Dedup(t), Compare);
    }
  }

  /** Sorts and compacts the slice in place and returns its kept part. */
  method RemoveDuplicateSubjects(a: array<Subject>) returns (out: seq<Subject>)
    modifies a
    ensures out == Dedup(old(a[..]))
    ensures StrictlyIncreasing(out, Compare) && NoDup(out) && Elems(out) == Elems(old(a[..]))
  {
    DedupKeepsSet(a[..]);
    SortInPlace(a, Compare);
    var k := CompactInPlace(a);
    out := a[..k];
  }
}
