/** The inverted index, stated over values: what one pass over the namespaces should produce. */
module AccessIndex {
  import opened Subjects
  import opened Namespaces

  /** One namespace together with the subjects allowed to get it. */
  datatype Read = Read(ns: Namespace, subs: set<Subject>)

  /** The namespaces of `pass` that `s` may get, in list order, each as the copy made for `s`. */
  ghost function Entry(pass: seq<Read>, s: Subject): seq<Namespace> {
    if pass == [] then []
    else
      var r := pass[|pass| - 1];
      Entry(pass[..|pass| - 1], s) + if s in r.subs then [Decorate(r.ns, r.subs, s)] else []
  }

  /** The positions of `pass` at which `s` is allowed. */
  ghost function Positions(pass: seq<Read>, s: Subject): seq<nat> {
    if pass == [] then []
    else
      Positions(pass[..|pass| - 1], s) + if s in pass[|pass| - 1].subs then [|pass| - 1] else []
  }

  lemma EntryExtends(pass: seq<Read>, r: Read, s: Subject)
    ensures Entry(pass + [r], s) == Entry(pass, s) + if s in r.subs then [Decorate(r.ns, r.subs, s)] else []
  {
  }

  /** Every position at which `s` is allowed, only such positions, in order and once. */
  lemma {:induction false} PositionsExact(pass: seq<Read>, s: Subject)
    ensures forall i :: i in Positions(pass, s) <==> 0 <= i < |pass| && s in pass[i].subs
    ensures forall j, k :: 0 <= j < k < |Positions(pass, s)| ==> Positions(pass, s)[j] < Positions(pass, s)[k]
  {
    if pass != [] {
      var init := pass[..|pass| - 1];
      PositionsExact(init, s);
      forall k | 0 <= k < |Positions(init, s)| ensures Positions(init, s)[k] < |init| {
        assert Positions(init, s)[k] in Positions(init, s);
      }
    }
  }

  lemma {:induction false} EntryAt(pass: seq<Read>, s: Subject, k: nat)
    requires k < |Positions(pass, s)|
    ensures |Entry(pass, s)| == |Positions(pass, s)| && Positions(pass, s)[k] < |pass|
    ensures Entry(pass, s)[k] == var r := pass[Positions(pass, s)[k]]; Decorate(r.ns, r.subs, s)
  {
    var init := pass[..|pass| - 1];
    SameLength(init, s);
    if k < |Positions(init, s)| {
      EntryAt(init, s, k);
    }
  }

  lemma {:induction false} SameLength(pass: seq<Read>, s: Subject)
    ensures |Entry(pass, s)| == |Positions(pass, s)|
  {
    if pass != [] { SameLength(pass[..|pass| - 1], s); }
  }

  /** The entry of `s` is the subsequence of the pass at the positions whose allowed subjects
      contain `s`: every such position, only such positions, in order and once. */
  lemma {:induction false} EntryIsSubsequence(pass: seq<Read>, s: Subject)
    ensures |Entry(pass, s)| == |Positions(pass, s)|
    ensures forall i :: i in Positions(pass, s) <==> 0 <= i < |pass| && s in pass[i].subs
    ensures forall j, k :: 0 <= j < k < |Positions(pass, s)| ==> Positions(pass, s)[j] < Positions(pass, s)[k]
    ensures forall k :: 0 <= k < |Entry(pass, s)| ==>
              && Positions(pass, s)[k] < |pass|
              && Entry(pass, s)[k] == var r := pass[Positions(pass, s)[k]]; Decorate(r.ns, r.subs, s)
  {
    PositionsExact(pass, s);
    SameLength(pass, s);
    forall k | 0 <= k < |Entry(pass, s)|
      ensures Positions(pass, s)[k] < |pass|
      ensures Entry(pass, s)[k] == var r := pass[Positions(pass, s)[k]]; Decorate(r.ns, r.subs, s)
    {
      EntryAt(pass, s, k);
    }
  }

  ghost predicate DistinctNames(pass: seq<Read>) {
    forall i, j :: 0 <= i < j < |pass| ==> pass[i].ns.name != pass[j].ns.name
  }

  ghost predicate DistinctNsNames(nn: seq<Namespace>) {
    forall i, j :: 0 <= i < j < |nn| ==> nn[i].name != nn[j].name
  }

  /** Over distinct namespaces an entry never repeats a name. */
  lemma EntryHasDistinctNames(pass: seq<Read>, s: Subject)
    requires DistinctNames(pass)
    ensures DistinctNsNames(Entry(pass, s))
  {
    EntryIsSubsequence(pass, s);
  }

  /** A name is in the entry of `s` if and only if a namespace of that name allows `s`. */
  lemma EntryNames(pass: seq<Read>, s: Subject, n: string)
    ensures (exists k :: 0 <= k < |Entry(pass, s)| && Entry(pass, s)[k].name == n)
            <==> (exists i :: 0 <= i < |pass| && pass[i].ns.name == n && s in pass[i].subs)
  {
    EntryIsSubsequence(pass, s);
    if i :| 0 <= i < |pass| && pass[i].ns.name == n && s in pass[i].subs {
      assert i in Positions(pass, s);
      var k :| 0 <= k < |Positions(pass, s)| && Positions(pass, s)[k] == i;
      assert Entry(pass, s)[k].name == n;
    }
    if k :| 0 <= k < |Entry(pass, s)| && Entry(pass, s)[k].name == n {
      var i := Positions(pass, s)[k];
      assert i in Positions(pass, s);
      assert pass[i].ns.name == n;
    }
  }

  /** Two passes that agree up to stale visibility labels have the same entries. */
  lemma {:induction false} EntryIgnoresStaleVisibility(p: seq<Read>, q: seq<Read>, s: Subject)
    requires |p| == |q|
    requires forall i :: 0 <= i < |p| ==> Pristine(p[i].ns) == Pristine(q[i].ns) && p[i].subs == q[i].subs
    ensures Entry(p, s) == Entry(q, s)
  {
    if p != [] {
      var r, t := p[|p| - 1], q[|q| - 1];
      EntryIgnoresStaleVisibility(p[..|p| - 1], q[..|q| - 1], s);
      StaleVisibilityNeverSurvives(r.ns, t.ns, r.subs, s);
    }
  }
}
