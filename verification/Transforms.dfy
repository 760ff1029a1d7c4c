/** The transforms objects go through before the resource cache stores them. */
module Transforms {
  import opened Common
  import opened Rbac

  datatype Result<+T> = Ok(value: T) | Err(error: string)

  // ----- chaining -----

  /** Applies the functions in turn and stops at the first error. */
  function Merge<T>(ff: seq<T -> Result<T>>, x: T): Result<T> {
    if ff == [] then Ok(x)
    else match ff[0](x)
      case Err(e) => Err(e)
      case Ok(y) => Merge(ff[1..], y)
  }

  method MergeTransformFunc<T>(ff: seq<T -> Result<T>>, x: T) returns (r: Result<T>)
    ensures r == Merge(ff, x)
  {
    var i := x;
    var k := 0;
    while k < |ff|
      invariant 0 <= k <= |ff|
      invariant Merge(ff, x) == Merge(ff[k..], i)
    {
      assert ff[k..][1..] == ff[k + 1..];
      match ff[k](i)
      case Err(e) => return Err(e);
      case Ok(y) => i := y;
      k := k + 1;
    }
    r := Ok(i);
  }

  /** Merging a concatenation is merging the parts one after the other; an error of the first part
      is the result, and the second part is then not applied. */
  lemma {:induction false} MergeConcat<T>(f: seq<T -> Result<T>>, g: seq<T -> Result<T>>, x: T)
    ensures Merge(f + g, x) == match Merge(f, x) case Err(e) => Err(e) case Ok(y) => Merge(g, y)
  {
    if f == [] {
      assert f + g == g;
    } else {
      assert (f + g)[0] == f[0] && (f + g)[1..] == f[1..] + g;
      match f[0](x)
      case Err(e) =>
      case Ok(y) => MergeConcat(f[1..], g, y);
    }
  }

  /** A chain of one is the function. */
  lemma MergeOne<T>(f: T -> Result<T>, x: T)
    ensures Merge([f], x) == f(x)
  {
    assert [f][1..] == [];
    assert forall y: T :: Merge<T>([], y) == Ok(y);
  }

  /** The chain fails if and only if some function fails on what those before it produced. */
  lemma {:induction false} MergeFailsExactly<T>(ff: seq<T -> Result<T>>, x: T)
    ensures Merge(ff, x).Err? <==>
            exists k :: 0 <= k < |ff| && Merge(ff[..k], x).Ok? && ff[k](Merge(ff[..k], x).value).Err?
  {
    if Merge(ff, x).Err? { var k := FailingFunction(ff, x); }
    if k :| 0 <= k < |ff| && Merge(ff[..k], x).Ok? && ff[k](Merge(ff[..k], x).value).Err? {
      MergeConcat(ff[..k], ff[k..], x);
      assert ff == ff[..k] + ff[k..];
    }
  }

  lemma {:induction false} FailingFunction<T>(ff: seq<T -> Result<T>>, x: T) returns (k: nat)
    requires Merge(ff, x).Err?
    ensures k < |ff| && Merge(ff[..k], x).Ok? && ff[k](Merge(ff[..k], x).value).Err?
  {
    match ff[0](x)
    case Err(e) => k := 0;
    case Ok(y) =>
      var j := FailingFunction(ff[1..], y);
      k := j + 1;
      assert ff[..k][0] == ff[0] && ff[..k][1..] == ff[1..][..j];
  }

  // ----- objects -----

  datatype Meta = Meta(name: string, labels: Option<StrMap>, annotations: Option<StrMap>, managedFields: seq<string>)

  /** What a transform is given: nil, a value without metadata, or an API object. */
  datatype Object =
    | Nil
    | Plain
    | RoleObj(meta: Meta, rules: seq<PolicyRule>)
    | ClusterRoleObj(meta: Meta, rules: seq<PolicyRule>)
    | NamespaceObj(meta: Meta, spec: string, status: string)
    | BindingObj(meta: Meta, body: string)
  {
    predicate HasMeta() { !Nil? && !Plain? }

    function WithMeta(m: Meta): Object
      requires HasMeta()
    {
      match this
      case RoleObj(_, rules) => RoleObj(m, rules)
      case ClusterRoleObj(_, rules) => ClusterRoleObj(m, rules)
      case NamespaceObj(_, spec, status) => NamespaceObj(m, spec, status)
      case BindingObj(_, body) => BindingObj(m, body)
    }
  }

  function StripManagedFields(o: Object): Result<Object> {
    Ok(if o.HasMeta() then o.WithMeta(o.meta.(managedFields := [])) else o)
  }

  function TrimAnnotations(o: Object): Result<Object> {
    Ok(if o.HasMeta() then o.WithMeta(o.meta.(annotations := None)) else o)
  }

  function TrimRoleRules(o: Object): Result<Object> {
    if !o.RoleObj? then Err("expected Role")
    else if Trim(o.rules) == [] then Ok(Nil)
    else Ok(RoleObj(o.meta, Trim(o.rules)))
  }

  function TrimClusterRoleRules(o: Object): Result<Object> {
    if !o.ClusterRoleObj? then Err("expected a ClusterRole")
    else if Trim(o.rules) == [] then Ok(Nil)
    else Ok(ClusterRoleObj(o.meta, Trim(o.rules)))
  }

  const ROLE_CHAIN: seq<Object -> Result<Object>> := [StripManagedFields, TrimAnnotations, TrimRoleRules]
  const CLUSTER_ROLE_CHAIN: seq<Object -> Result<Object>> := [StripManagedFields, TrimAnnotations, TrimClusterRoleRules]

  // ----- what the chains do -----

  /** What an object in the resource cache grants; an evicted one grants nothing. */
  ghost predicate Grants(o: Object, name: string) {
    (o.RoleObj? || o.ClusterRoleObj?) && Allows(o.rules, name)
  }

  lemma MergeThree<T>(f: T -> Result<T>, g: T -> Result<T>, h: T -> Result<T>, x: T)
    requires f(x).Ok? && g(f(x).value).Ok?
    ensures Merge([f, g, h], x) == h(g(f(x).value).value)
  {
    assert [f, g, h][1..] == [g, h] && [g, h][1..] == [h] && [h][1..] == [];
    var y := g(f(x).value).value;
    assert Merge([h], y) == match h(y) case Err(e) => Err(e) case Ok(z) => Merge([], z);
    assert Merge([g, h], f(x).value) == Merge([h], y);
  }

  /** A role is either replaced by one that grants what its literal rules grant, without
      annotations and managed fields, or evicted, exactly when that is nothing for any name;
      either way the cached result grants what the literal rules grant. Anything else is an error. */
  lemma TrimRoleMeaning(o: Object, name: string)
    ensures var r := Merge(ROLE_CHAIN, o);
            && (r.Ok? <==> o.RoleObj?)
            && (o.RoleObj? ==>
                  && (Grants(r.value, name) <==> LiterallyAllows(o.rules, name))
                  && (r.value == Nil <==> forall n :: !LiterallyAllows(o.rules, n))
                  && (r.value != Nil ==> r.value == RoleObj(Meta(o.meta.name, o.meta.labels, None, []), Trim(o.rules))))
  {
    MergeThree(StripManagedFields, TrimAnnotations, TrimRoleRules, o);
    if o.RoleObj? {
      TrimMeaning(o.rules, name);
      EmptyTrim(o.rules);
    }
  }

  lemma TrimClusterRoleMeaning(o: Object, name: string)
    ensures var r := Merge(CLUSTER_ROLE_CHAIN, o);
            && (r.Ok? <==> o.ClusterRoleObj?)
            && (o.ClusterRoleObj? ==>
                  && (Grants(r.value, name) <==> LiterallyAllows(o.rules, name))
                  && (r.value == Nil <==> forall n :: !LiterallyAllows(o.rules, n))
                  && (r.value != Nil ==> r.value == ClusterRoleObj(Meta(o.meta.name, o.meta.labels, None, []), Trim(o.rules))))
  {
    MergeThree(StripManagedFields, TrimAnnotations, TrimClusterRoleRules, o);
    if o.ClusterRoleObj? {
      TrimMeaning(o.rules, name);
      EmptyTrim(o.rules);
    }
  }

  /** Nothing is left of the rules exactly when they literally allow no name at all. */
  lemma EmptyTrim(rules: seq<PolicyRule>)
    ensures Trim(rules) == [] <==> forall n :: !LiterallyAllows(rules, n)
  {
    if Trim(rules) == [] {
      forall n ensures !LiterallyAllows(rules, n) { TrimMeaning(rules, n); }
    } else {
      var t := Trim(rules)[0];
      InTrim(rules, t);
      var i: nat :| ComesFrom(rules, t, i);
      var n := if rules[i].resourceNames == [] then "" else rules[i].resourceNames[0];
      assert Admits(rules[i], n);
      assert LiterallyAllows(rules, n);
    }
  }

  /** The resource cache holds a role if and only if it literally allows some name. */
  lemma CachedRoles(c: Cluster, r: RoleRef)
    ensures r in Trimmed(c).roles <==> r in c.roles && exists n :: LiterallyAllows(c.roles[r], n)
  {
    if r in c.roles { EmptyTrim(c.roles[r]); }
  }

  function ClearNamespace(o: Object): Result<Object> {
    if o.NamespaceObj? then Ok(NamespaceObj(o.meta, "", "")) else Err("expected a Namespace")
  }

  const NAMESPACE_CHAIN: seq<Object -> Result<Object>> := [StripManagedFields, ClearNamespace]
  const BINDING_CHAIN: seq<Object -> Result<Object>> := [StripManagedFields, TrimAnnotations]

  lemma MergeTwo<T>(f: T -> Result<T>, g: T -> Result<T>, x: T)
    requires f(x).Ok?
    ensures Merge([f, g], x) == g(f(x).value)
  {
    assert [f, g][1..] == [g];
    MergeOne(g, f(x).value);
  }

  /** A cached namespace keeps its name, labels and annotations, which the access cache copies, and
      nothing else; what is no namespace is refused. */
  lemma TrimNamespaceMeaning(o: Object)
    ensures var r := Merge(NAMESPACE_CHAIN, o);
            && (r.Ok? <==> o.NamespaceObj?)
            && (o.NamespaceObj? ==>
                  r.value == NamespaceObj(Meta(o.meta.name, o.meta.labels, o.meta.annotations, []), "", ""))
  {
    MergeTwo(StripManagedFields, ClearNamespace, o);
  }

  /** A cached binding keeps its role and subjects, its name and its labels, among them the one that
      selects cluster role bindings. */
  lemma TrimBindingMeaning(meta: Meta, body: string)
    ensures Merge(BINDING_CHAIN, BindingObj(meta, body)) == Ok(BindingObj(Meta(meta.name, meta.labels, None, []), body))
  {
    MergeTwo(StripManagedFields, TrimAnnotations, BindingObj(meta, body));
  }

  // ----- in place -----

  /** What becomes of an object that a transform has worked on in place. */
  datatype Fate = Kept | Evicted | Refused(error: string)

  ghost predicate FateOf(before: Object, after: Object, chain: seq<Object -> Result<Object>>, f: Fate) {
    match Merge(chain, before)
    case Err(e) => f == Refused(e)
    case Ok(o) => if o == Nil then f == Evicted else f == Kept && after == o
  }

  lemma RoleFate(before: Object, after: Object, f: Fate)
    requires if !before.RoleObj? then f == Refused("expected Role")
             else && after == RoleObj(Meta(before.meta.name, before.meta.labels, None, []), Trim(before.rules))
                  && f == if Trim(before.rules) == [] then Evicted else Kept
    ensures FateOf(before, after, ROLE_CHAIN, f)
  {
    MergeThree(StripManagedFields, TrimAnnotations, TrimRoleRules, before);
  }

  lemma ClusterRoleFate(before: Object, after: Object, f: Fate)
    requires if !before.ClusterRoleObj? then f == Refused("expected a ClusterRole")
             else && after == ClusterRoleObj(Meta(before.meta.name, before.meta.labels, None, []), Trim(before.rules))
                  && f == if Trim(before.rules) == [] then Evicted else Kept
    ensures FateOf(before, after, CLUSTER_ROLE_CHAIN, f)
  {
    MergeThree(StripManagedFields, TrimAnnotations, TrimClusterRoleRules, before);
  }

  /** A stored object: the transforms assign its fields and hand the same object on. */
  class Cell {
    var stored: Object

    constructor (o: Object)
      ensures stored == o
    {
      stored := o;
    }

    method StripAll()
      modifies this
      ensures old(stored).HasMeta() ==>
                stored == old(stored).WithMeta(old(stored).meta.(managedFields := [], annotations := None))
      ensures !old(stored).HasMeta() ==> stored == old(stored)
    {
      if stored.HasMeta() {
        stored := stored.WithMeta(stored.meta.(managedFields := []));
        if stored.meta.annotations != None {
          stored := stored.WithMeta(stored.meta.(annotations := None));
        }
      }
    }

    method TrimRole() returns (f: Fate)
      modifies this
      ensures FateOf(old(stored), stored, ROLE_CHAIN, f)
      ensures f.Refused? <==> !old(stored).RoleObj?
      ensures old(stored).RoleObj? ==>
                && stored.RoleObj? && (f == Evicted <==> stored.rules == [])
                && stored.meta == Meta(old(stored).meta.name, old(stored).meta.labels, None, [])
                && exists from :: NarrowedFrom(old(stored).rules, from, stored.rules)
    {
      StripAll();
      if stored.RoleObj? {
        var rules := FilterNamespacesRelatedPolicyRules(stored.rules);
        stored := RoleObj(stored.meta, rules);
        f := if |rules| == 0 then Evicted else Kept;
      } else {
        f := Refused("expected Role");
      }
      RoleFate(old(stored), stored, f);
    }

    method TrimClusterRole() returns (f: Fate)
      modifies this
      ensures FateOf(old(stored), stored, CLUSTER_ROLE_CHAIN, f)
      ensures f.Refused? <==> !old(stored).ClusterRoleObj?
      ensures old(stored).ClusterRoleObj? ==>
                && stored.ClusterRoleObj? && (f == Evicted <==> stored.rules == [])
                && stored.meta == Meta(old(stored).meta.name, old(stored).meta.labels, None, [])
                && exists from :: NarrowedFrom(old(stored).rules, from, stored.rules)
    {
      StripAll();
      if stored.ClusterRoleObj? {
        var rules := FilterNamespacesRelatedPolicyRules(stored.rules);
        stored := ClusterRoleObj(stored.meta, rules);
        f := if |rules| == 0 then Evicted else Kept;
      } else {
        f := Refused("expected a ClusterRole");
      }
      ClusterRoleFate(old(stored), stored, f);
    }
  }
}
