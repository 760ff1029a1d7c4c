/** RBAC rules, what trimming keeps of them, and what that means for the allowed subjects. */
module Rbac {
  import opened Common
  import opened Subjects

  datatype PolicyRule = PolicyRule(verbs: seq<string>, apiGroups: seq<string>, resources: seq<string>,
                                   resourceNames: seq<string>, nonResourceURLs: seq<string>)

  // ----- RBAC semantics of "get the namespace `name`" -----

  ghost predicate Matches(list: seq<string>, x: string) {
    x in list || "*" in list
  }

  ghost predicate Admits(r: PolicyRule, name: string) {
    r.resourceNames == [] || name in r.resourceNames
  }

  ghost predicate MatchesGet(r: PolicyRule) {
    Matches(r.verbs, "get") && Matches(r.apiGroups, "") && Matches(r.resources, "namespaces")
  }

  ghost predicate Allows(rules: seq<PolicyRule>, name: string) {
    exists i :: 0 <= i < |rules| && MatchesGet(rules[i]) && Admits(rules[i], name)
  }

  // ----- trimming -----

  /** The rule lists group, resource and verb by name: a wildcard does not count. */
  predicate IsLiteral(r: PolicyRule) {
    "" in r.apiGroups && "namespaces" in r.resources && "get" in r.verbs
  }

  function TrimRule(r: PolicyRule): PolicyRule {
    r.(apiGroups := [""], resources := ["namespaces"], verbs := ["get"])
  }

  function Trim(rules: seq<PolicyRule>): seq<PolicyRule> {
    if rules == [] then []
    else
      var r := rules[|rules| - 1];
      Trim(rules[..|rules| - 1]) + if IsLiteral(r) then [TrimRule(r)] else []
  }

  method FilterNamespacesRelatedPolicyRules(pp: seq<PolicyRule>) returns (fr: seq<PolicyRule>)
    ensures fr == Trim(pp)
    ensures exists from :: NarrowedFrom(pp, from, fr)
  {
    fr := [];
    var i := 0;
    while i < |pp|
      invariant 0 <= i <= |pp|
      invariant fr == Trim(pp[..i])
    {
      assert pp[..i + 1][..i] == pp[..i];
      var r := pp[i];
      if "" in r.apiGroups && "namespaces" in r.resources && "get" in r.verbs {
        r := r.(apiGroups := [""]);
        r := r.(resources := ["namespaces"]);
        r := r.(verbs := ["get"]);
        fr := fr + [r];
      }
      i := i + 1;
    }
    assert pp[..i] == pp;
    var from := TrimNarrows(pp);
  }

  /** The rule lists the core group, namespaces and get. */
  ghost predicate ListsGet(r: PolicyRule) {
    "" in r.apiGroups && "namespaces" in r.resources && "get" in r.verbs
  }

  /** `t` is `r` reduced to just these, with its names and URLs as they were. */
  ghost predicate NarrowedTo(r: PolicyRule, t: PolicyRule) {
    t == PolicyRule(["get"], [""], ["namespaces"], r.resourceNames, r.nonResourceURLs)
  }

  /** `fr` are the rules of `pp` at positions `from`, narrowed; the positions are those of the rules that
      list the core group, namespaces and get, in order and once. */
  ghost predicate NarrowedFrom(pp: seq<PolicyRule>, from: seq<nat>, fr: seq<PolicyRule>) {
    && |from| == |fr|
    && (forall j, k :: 0 <= j < k < |from| ==> from[j] < from[k])
    && (forall k :: 0 <= k < |fr| ==> from[k] < |pp| && ListsGet(pp[from[k]]) && NarrowedTo(pp[from[k]], fr[k]))
    && (forall i :: 0 <= i < |pp| && ListsGet(pp[i]) ==> i in from)
  }

  lemma {:induction false} TrimNarrows(pp: seq<PolicyRule>) returns (from: seq<nat>)
    ensures NarrowedFrom(pp, from, Trim(pp))
  {
    if pp == [] {
      from := [];
    } else {
      var last := |pp| - 1;
      var init := TrimNarrows(pp[..last]);
      from := if IsLiteral(pp[last]) then init + [last] else init;
      OneMoreRule(pp, init, Trim(pp[..last]));
    }
  }

  lemma OneMoreRule(pp: seq<PolicyRule>, from: seq<nat>, fr: seq<PolicyRule>)
    requires pp != [] && NarrowedFrom(pp[..|pp| - 1], from, fr)
    ensures var last := |pp| - 1;
            && (ListsGet(pp[last]) ==> forall t :: NarrowedTo(pp[last], t) ==> NarrowedFrom(pp, from + [last], fr + [t]))
            && (!ListsGet(pp[last]) ==> NarrowedFrom(pp, from, fr))
  {
    var last := |pp| - 1;
    assert forall k :: 0 <= k < |from| ==> from[k] < last && pp[..last][from[k]] == pp[from[k]];
    forall i | 0 <= i < last && ListsGet(pp[i]) ensures i in from && i in from + [last] {
      assert pp[..last][i] == pp[i];
    }
    assert last in from + [last];
  }

  ghost predicate LiterallyAllows(rules: seq<PolicyRule>, name: string) {
    exists i :: 0 <= i < |rules| && IsLiteral(rules[i]) && Admits(rules[i], name)
  }

  ghost predicate ComesFrom(rules: seq<PolicyRule>, t: PolicyRule, i: nat) {
    i < |rules| && IsLiteral(rules[i]) && t == TrimRule(rules[i])
  }

  lemma {:induction false} InTrim(rules: seq<PolicyRule>, t: PolicyRule)
    ensures t in Trim(rules) <==> exists i :: ComesFrom(rules, t, i)
  {
    if rules != [] {
      var init, last := rules[..|rules| - 1], |rules| - 1;
      InTrim(init, t);
      assert forall i :: ComesFrom(rules, t, i) <==> ComesFrom(init, t, i) || (i == last && ComesFrom(rules, t, last));
      assert t in Trim(rules) <==> t in Trim(init) || ComesFrom(rules, t, last);
    }
  }

  /** Trimmed rules allow a name exactly when an original rule lists group, resource and verb
      literally and admits the name. */
  lemma TrimMeaning(rules: seq<PolicyRule>, name: string)
    ensures Allows(Trim(rules), name) <==> LiterallyAllows(rules, name)
  {
    var t := Trim(rules);
    if i :| 0 <= i < |t| && MatchesGet(t[i]) && Admits(t[i], name) {
      InTrim(rules, t[i]);
      assert t[i] in t;
      var j: nat :| ComesFrom(rules, t[i], j);
    }
    if j :| 0 <= j < |rules| && IsLiteral(rules[j]) && Admits(rules[j], name) {
      var r := TrimRule(rules[j]);
      InTrim(rules, r);
      assert ComesFrom(rules, r, j);
      var i :| 0 <= i < |t| && t[i] == r;
      assert "get" in r.verbs && "" in r.apiGroups && "namespaces" in r.resources;
      assert MatchesGet(t[i]) && Admits(t[i], name);
    }
  }

  /** Trimming never allows what the full rules deny. */
  lemma TrimIsSound(rules: seq<PolicyRule>, name: string)
    ensures Allows(Trim(rules), name) ==> Allows(rules, name)
  {
    TrimMeaning(rules, name);
    if i :| 0 <= i < |rules| && IsLiteral(rules[i]) && Admits(rules[i], name) {
      assert MatchesGet(rules[i]);
    }
  }

  lemma {:induction false} TrimIsIdempotent(rules: seq<PolicyRule>)
    ensures Trim(Trim(rules)) == Trim(rules)
  {
    if rules != [] {
      var init, r := rules[..|rules| - 1], rules[|rules| - 1];
      TrimIsIdempotent(init);
      var t := Trim(rules);
      if IsLiteral(r) {
        assert t[..|t| - 1] == Trim(init);
        var q := TrimRule(r);
        assert "get" in q.verbs && "" in q.apiGroups && "namespaces" in q.resources;
        assert Trim(t) == Trim(Trim(init)) + [TrimRule(q)];
      } else {
        assert t == Trim(init);
      }
    }
  }

  // ----- when trimming loses nothing -----

  /** Whatever a rule grants through a wildcard, literal rules grant too. */
  ghost predicate Covered(rules: seq<PolicyRule>) {
    forall i :: 0 <= i < |rules| && MatchesGet(rules[i]) && !IsLiteral(rules[i]) ==>
      if rules[i].resourceNames == []
      then exists j :: 0 <= j < |rules| && IsLiteral(rules[j]) && rules[j].resourceNames == []
      else forall n :: n in rules[i].resourceNames ==> LiterallyAllows(rules, n)
  }

  ghost predicate WildcardFree(rules: seq<PolicyRule>) {
    forall i :: 0 <= i < |rules| ==>
      "*" !in rules[i].verbs && "*" !in rules[i].apiGroups && "*" !in rules[i].resources
  }

  lemma WildcardFreeIsCovered(rules: seq<PolicyRule>)
    requires WildcardFree(rules)
    ensures Covered(rules)
  {
  }

  ghost function LongestName(names: seq<string>): (n: nat)
    ensures forall x :: x in names ==> |x| <= n
  {
    if names == [] then 0
    else
      var m := LongestName(names[1..]);
      assert forall x :: x in names ==> x == names[0] || x in names[1..];
      if |names[0]| > m then |names[0]| else m
  }

  ghost function LongestResourceName(rules: seq<PolicyRule>): (n: nat)
    ensures forall i, x :: 0 <= i < |rules| && x in rules[i].resourceNames ==> |x| <= n
  {
    if rules == [] then 0
    else
      var init, l := rules[..|rules| - 1], LongestName(rules[|rules| - 1].resourceNames);
      var m := LongestResourceName(init);
      assert forall i :: 0 <= i < |init| ==> init[i] == rules[i];
      if l > m then l else m
  }

  /** Some name is listed by no rule, so only rules without resource names admit it. */
  lemma UnlistedName(rules: seq<PolicyRule>) returns (name: string)
    ensures forall i :: 0 <= i < |rules| ==> (Admits(rules[i], name) <==> rules[i].resourceNames == [])
  {
    name := seq(LongestResourceName(rules) + 1, _ => 'x');
  }

  lemma CoveredLosesNothing(rules: seq<PolicyRule>, name: string)
    requires Covered(rules)
    ensures Allows(rules, name) ==> Allows(Trim(rules), name)
  {
    TrimMeaning(rules, name);
    if i :| 0 <= i < |rules| && MatchesGet(rules[i]) && Admits(rules[i], name) {
      if IsLiteral(rules[i]) {
        assert LiterallyAllows(rules, name);
      } else if rules[i].resourceNames == [] {
        var j :| 0 <= j < |rules| && IsLiteral(rules[j]) && rules[j].resourceNames == [];
        assert Admits(rules[j], name);
      }
    }
  }

  lemma LosslessMeansCovered(rules: seq<PolicyRule>)
    requires forall name :: Allows(Trim(rules), name) <==> Allows(rules, name)
    ensures Covered(rules)
  {
    forall i | 0 <= i < |rules| && MatchesGet(rules[i]) && !IsLiteral(rules[i])
      ensures if rules[i].resourceNames == []
              then exists j :: 0 <= j < |rules| && IsLiteral(rules[j]) && rules[j].resourceNames == []
              else forall n :: n in rules[i].resourceNames ==> LiterallyAllows(rules, n)
    {
      if rules[i].resourceNames == [] {
        var name := UnlistedName(rules);
        assert Allows(rules, name);
        TrimMeaning(rules, name);
        var j :| 0 <= j < |rules| && IsLiteral(rules[j]) && Admits(rules[j], name);
      } else {
        forall n | n in rules[i].resourceNames ensures LiterallyAllows(rules, n) {
          assert Admits(rules[i], n);
          assert Allows(rules, n);
          TrimMeaning(rules, n);
        }
      }
    }
  }

  /** Trimming preserves every decision if and only if literal rules cover the wildcard ones. */
  lemma TrimIsLosslessExactly(rules: seq<PolicyRule>)
    ensures (forall name :: Allows(Trim(rules), name) <==> Allows(rules, name)) <==> Covered(rules)
  {
    if Covered(rules) {
      forall name ensures Allows(Trim(rules), name) <==> Allows(rules, name) {
        CoveredLosesNothing(rules, name);
        TrimIsSound(rules, name);
      }
    } else if forall name :: Allows(Trim(rules), name) <==> Allows(rules, name) {
      LosslessMeansCovered(rules);
    }
  }

  /** A wildcard verb grants the access, and trimming drops it. */
  lemma WildcardIsLost(name: string)
    ensures var rules := [PolicyRule(["*"], [""], ["namespaces"], [], [])];
            Allows(rules, name) && !Allows(Trim(rules), name) && Trim(rules) == []
  {
    var rules := [PolicyRule(["*"], [""], ["namespaces"], [], [])];
    assert MatchesGet(rules[0]) && Admits(rules[0], name);
    assert Trim(rules[..0]) == [];
  }

  // ----- roles and bindings -----

  datatype RoleRef = ClusterRole(name: string) | Role(namespace: string, name: string)

  /** A role binding holds in its namespace, a cluster role binding (scope `None`) everywhere.
      `useForAccess` says whether it carries the label that selects cluster role bindings. */
  datatype Binding = Binding(scope: Option<string>, role: RoleRef, subjects: set<Subject>, useForAccess: bool)

  /** `always` are the subjects the evaluator adds to every answer. */
  datatype Cluster = Cluster(roles: map<RoleRef, seq<PolicyRule>>, bindings: set<Binding>, always: set<Subject>)

  ghost predicate InScope(b: Binding, n: string) {
    b.scope.None? || b.scope.value == n
  }

  ghost predicate BindingGrants(c: Cluster, b: Binding, n: string) {
    InScope(b, n) && b.role in c.roles && Allows(c.roles[b.role], n)
  }

  /** The subjects that may get namespace `n`. A binding to a missing role grants nothing. */
  ghost function AllowedSubjects(c: Cluster, n: string): set<Subject> {
    c.always + set b, s | b in c.bindings && s in b.subjects && BindingGrants(c, b, n) :: s
  }

  /** A role binding, or a cluster role binding with the label. */
  ghost predicate Selected(b: Binding) {
    b.scope.Some? || b.useForAccess
  }

  /** What the resource cache holds of the cluster: trimmed roles, emptied ones evicted, and the
      selected bindings. */
  ghost function Trimmed(c: Cluster): Cluster {
    c.(roles := map r | r in c.roles && Trim(c.roles[r]) != [] :: Trim(c.roles[r]),
       bindings := set b | b in c.bindings && Selected(b))
  }

  /** The binding is selected and its role grants the name by a literal rule. */
  ghost predicate LiterallyGrants(c: Cluster, b: Binding, n: string) {
    Selected(b) && InScope(b, n) && b.role in c.roles && LiterallyAllows(c.roles[b.role], n)
  }

  ghost function LiterallyAllowed(c: Cluster, n: string): set<Subject> {
    c.always + set b, s | b in c.bindings && s in b.subjects && LiterallyGrants(c, b, n) :: s
  }

  lemma TrimmedBinding(c: Cluster, b: Binding, n: string)
    requires b in c.bindings
    ensures b in Trimmed(c).bindings && BindingGrants(Trimmed(c), b, n) <==> LiterallyGrants(c, b, n)
    ensures LiterallyGrants(c, b, n) ==> BindingGrants(c, b, n)
    ensures BindingGrants(c, b, n) && Selected(b) && Covered(c.roles[b.role]) ==> LiterallyGrants(c, b, n)
  {
    if b.role in c.roles {
      var rules := c.roles[b.role];
      TrimMeaning(rules, n);
      TrimIsSound(rules, n);
      if Covered(rules) { CoveredLosesNothing(rules, n); }
    }
  }

  /** What the resource cache holds allows exactly the subjects that a selected binding ties to a
      literal rule, and never a subject the cluster does not allow. */
  lemma TrimmedAllowedSubjects(c: Cluster, n: string)
    ensures AllowedSubjects(Trimmed(c), n) == LiterallyAllowed(c, n)
    ensures LiterallyAllowed(c, n) <= AllowedSubjects(c, n)
  {
    forall b | b in c.bindings
      ensures b in Trimmed(c).bindings && BindingGrants(Trimmed(c), b, n) <==> LiterallyGrants(c, b, n)
      ensures LiterallyGrants(c, b, n) ==> BindingGrants(c, b, n)
    {
      TrimmedBinding(c, b, n);
    }
  }

  /** Rule `i` of the role of binding `b` lists the core group, namespaces and get and admits `n`; the
      binding is a role binding in `n`, labelled or not, or a labelled cluster role binding. */
  ghost predicate TiedBy(c: Cluster, s: Subject, n: string, b: Binding, i: nat) {
    && b in c.bindings && s in b.subjects
    && (match b.scope case Some(scope) => scope == n case None => b.useForAccess)
    && b.role in c.roles && i < |c.roles[b.role]|
    && var r := c.roles[b.role][i];
       && "" in r.apiGroups && "namespaces" in r.resources && "get" in r.verbs
       && (r.resourceNames == [] || n in r.resourceNames)
  }

  ghost predicate CacheAllows(c: Cluster, s: Subject, n: string) {
    s in c.always || exists b, i :: TiedBy(c, s, n, b, i)
  }

  /** Binding by binding and rule by rule, whom what the resource cache holds allows. */
  lemma CacheAllowsExactly(c: Cluster, s: Subject, n: string)
    ensures s in AllowedSubjects(Trimmed(c), n) <==> CacheAllows(c, s, n)
  {
    TrimmedAllowedSubjects(c, n);
    if s in LiterallyAllowed(c, n) && s !in c.always {
      var b :| b in c.bindings && s in b.subjects && LiterallyGrants(c, b, n);
      var i :| 0 <= i < |c.roles[b.role]| && IsLiteral(c.roles[b.role][i]) && Admits(c.roles[b.role][i], n);
      assert TiedBy(c, s, n, b, i);
    }
    if b, i: nat :| TiedBy(c, s, n, b, i) {
      assert IsLiteral(c.roles[b.role][i]) && Admits(c.roles[b.role][i], n);
      assert LiterallyGrants(c, b, n);
    }
  }

  /** A role binding is seen whether or not it carries the label; a cluster role binding with it is. */
  lemma BindingIsSeen(c: Cluster, b: Binding, n: string)
    requires b in c.bindings && (b.scope == Some(n) || (b.scope == None && b.useForAccess))
    requires b.role in c.roles && LiterallyAllows(c.roles[b.role], n)
    ensures b.subjects <= AllowedSubjects(Trimmed(c), n)
  {
    var i :| 0 <= i < |c.roles[b.role]| && IsLiteral(c.roles[b.role][i]) && Admits(c.roles[b.role][i], n);
    forall s | s in b.subjects ensures s in AllowedSubjects(Trimmed(c), n) {
      assert TiedBy(c, s, n, b, i);
      CacheAllowsExactly(c, s, n);
    }
  }

  // ----- when the resource cache loses nothing of the cluster -----

  /** A selected cluster role binding ties `s` to a literal rule for all names. */
  ghost predicate LiterallyEverywhere(c: Cluster, s: Subject) {
    exists b, i :: EverywhereBy(c, s, b, i)
  }

  ghost predicate EverywhereBy(c: Cluster, s: Subject, b: Binding, i: nat) {
    && b in c.bindings && b.scope.None? && b.useForAccess && s in b.subjects && b.role in c.roles
    && i < |c.roles[b.role]| && IsLiteral(c.roles[b.role][i]) && c.roles[b.role][i].resourceNames == []
  }

  /** Whatever rule `r` grants `s` through binding `b`, selected bindings grant `s` by literal rules:
      for every name the rule lists, for the namespace of the binding, or for all names. */
  ghost predicate GrantCovered(c: Cluster, b: Binding, s: Subject, r: PolicyRule) {
    if r.resourceNames != [] then forall n :: n in r.resourceNames && InScope(b, n) ==> s in LiterallyAllowed(c, n)
    else if b.scope.Some? then s in LiterallyAllowed(c, b.scope.value)
    else s in c.always || LiterallyEverywhere(c, s)
  }

  ghost predicate RoleGrantsCovered(c: Cluster, b: Binding, s: Subject) {
    b.role in c.roles ==> forall i :: 0 <= i < |c.roles[b.role]| && MatchesGet(c.roles[b.role][i]) ==>
      GrantCovered(c, b, s, c.roles[b.role][i])
  }

  ghost predicate ClusterCovered(c: Cluster) {
    forall b, s :: b in c.bindings && s in b.subjects ==> RoleGrantsCovered(c, b, s)
  }

  lemma CoveredClusterLosesNothing(c: Cluster, n: string)
    requires ClusterCovered(c)
    ensures AllowedSubjects(c, n) <= LiterallyAllowed(c, n)
  {
  }

  /** No binding of `bs` has its scope or a resource name of its role longer than `k`. */
  ghost predicate NamesUpTo(c: Cluster, bs: set<Binding>, k: nat) {
    forall b :: b in bs ==>
      && (b.scope.Some? ==> |b.scope.value| <= k)
      && (b.role in c.roles ==> LongestResourceName(c.roles[b.role]) <= k)
  }

  lemma NameBound(c: Cluster, bs: set<Binding>) returns (k: nat)
    ensures NamesUpTo(c, bs, k)
  {
    if bs == {} {
      k := 0;
    } else {
      var b :| b in bs;
      k := NameBound(c, bs - {b});
      k := k + (if b.scope.Some? then |b.scope.value| else 0);
      k := k + if b.role in c.roles then LongestResourceName(c.roles[b.role]) else 0;
    }
  }

  /** Some name is the scope of no binding and listed by no rule bound. */
  lemma UnmentionedName(c: Cluster) returns (name: string)
    ensures forall b :: b in c.bindings ==> b.scope != Some(name)
    ensures forall b, i :: b in c.bindings && b.role in c.roles && 0 <= i < |c.roles[b.role]| ==>
              (Admits(c.roles[b.role][i], name) <==> c.roles[b.role][i].resourceNames == [])
  {
    var k := NameBound(c, c.bindings);
    name := seq(k + 1, _ => 'x');
  }

  lemma EverywhereFromUnmentioned(c: Cluster, s: Subject, name: string)
    requires forall b :: b in c.bindings ==> b.scope != Some(name)
    requires forall b, i :: b in c.bindings && b.role in c.roles && 0 <= i < |c.roles[b.role]| ==>
               (Admits(c.roles[b.role][i], name) <==> c.roles[b.role][i].resourceNames == [])
    requires s in LiterallyAllowed(c, name)
    ensures s in c.always || LiterallyEverywhere(c, s)
  {
    if s !in c.always {
      var b :| b in c.bindings && s in b.subjects && LiterallyGrants(c, b, name);
      var i :| 0 <= i < |c.roles[b.role]| && IsLiteral(c.roles[b.role][i]) && Admits(c.roles[b.role][i], name);
      assert EverywhereBy(c, s, b, i);
    }
  }

  /** What a rule grants through a binding, the cluster allows. */
  lemma RuleAllows(c: Cluster, b: Binding, s: Subject, i: nat, n: string)
    requires b in c.bindings && s in b.subjects && b.role in c.roles && i < |c.roles[b.role]|
    requires MatchesGet(c.roles[b.role][i]) && Admits(c.roles[b.role][i], n) && InScope(b, n)
    ensures s in AllowedSubjects(c, n)
  {
  }

  lemma LosslessGrantCovered(c: Cluster, b: Binding, s: Subject, i: nat)
    requires forall n :: AllowedSubjects(c, n) <= LiterallyAllowed(c, n)
    requires b in c.bindings && s in b.subjects && b.role in c.roles && i < |c.roles[b.role]|
    requires MatchesGet(c.roles[b.role][i])
    ensures GrantCovered(c, b, s, c.roles[b.role][i])
  {
    var r := c.roles[b.role][i];
    if r.resourceNames != [] {
      forall n | n in r.resourceNames && InScope(b, n) ensures s in LiterallyAllowed(c, n) {
        RuleAllows(c, b, s, i, n);
      }
    } else if b.scope.Some? {
      RuleAllows(c, b, s, i, b.scope.value);
    } else {
      var name := UnmentionedName(c);
      RuleAllows(c, b, s, i, name);
      EverywhereFromUnmentioned(c, s, name);
    }
  }

  /** The resource cache preserves every decision of the cluster, for every namespace, if and only if
      selected bindings to literal rules cover whatever else a binding grants. */
  lemma ClusterLosslessExactly(c: Cluster)
    ensures (forall n :: AllowedSubjects(Trimmed(c), n) == AllowedSubjects(c, n)) <==> ClusterCovered(c)
  {
    forall n ensures AllowedSubjects(Trimmed(c), n) == LiterallyAllowed(c, n)
                     && LiterallyAllowed(c, n) <= AllowedSubjects(c, n)
    {
      TrimmedAllowedSubjects(c, n);
    }
    if ClusterCovered(c) {
      forall n ensures AllowedSubjects(Trimmed(c), n) == AllowedSubjects(c, n) { CoveredClusterLosesNothing(c, n); }
    } else if forall n :: AllowedSubjects(Trimmed(c), n) == AllowedSubjects(c, n) {
      forall b, s | b in c.bindings && s in b.subjects ensures RoleGrantsCovered(c, b, s) {
        if b.role in c.roles {
          forall i | 0 <= i < |c.roles[b.role]| && MatchesGet(c.roles[b.role][i])
            ensures GrantCovered(c, b, s, c.roles[b.role][i])
          {
            LosslessGrantCovered(c, b, s, i);
          }
        }
      }
    }
  }

  /** Every binding is selected, and the rules of every role cover their wildcards. */
  ghost predicate Faithful(c: Cluster) {
    (forall b :: b in c.bindings ==> Selected(b)) && forall r :: r in c.roles ==> Covered(c.roles[r])
  }

  /** A condition binding by binding and role by role that is enough. */
  lemma FaithfulIsCovered(c: Cluster)
    requires Faithful(c)
    ensures ClusterCovered(c)
  {
    forall n ensures AllowedSubjects(Trimmed(c), n) == AllowedSubjects(c, n) {
      TrimmedAllowedSubjects(c, n);
      forall b | b in c.bindings && BindingGrants(c, b, n) ensures LiterallyGrants(c, b, n) { TrimmedBinding(c, b, n); }
    }
    ClusterLosslessExactly(c);
  }

  /** A cluster role binding without the label grants access to every namespace by a literal rule,
      and the resource cache does not see it. */
  lemma UnlabelledBindingIsLost(s: Subject, n: string)
    ensures var role, rule := ClusterRole("viewer"), PolicyRule(["get"], [""], ["namespaces"], [], []);
            var c := Cluster(map[role := [rule]], {Binding(None, role, {s}, false)}, {});
            s in AllowedSubjects(c, n) && s !in AllowedSubjects(Trimmed(c), n) && !ClusterCovered(c)
  {
    var role, rule := ClusterRole("viewer"), PolicyRule(["get"], [""], ["namespaces"], [], []);
    var b := Binding(None, role, {s}, false);
    var c := Cluster(map[role := [rule]], {b}, {});
    RuleAllows(c, b, s, 0, n);
    TrimmedAllowedSubjects(c, n);
    ClusterLosslessExactly(c);
  }
}
