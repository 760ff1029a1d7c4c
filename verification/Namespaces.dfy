/** Namespace values and the virtual labels and annotations a cached copy carries. */
module Namespaces {
  import opened Common
  import opened Subjects

  const VISIBILITY := "virtual.konflux-ci.dev/visibility"
  const ACCESS := "virtual.konflux-ci.dev/access"
  const SUBJECT_NAME := "virtual.konflux-ci.dev/subject-name"
  const SUBJECT_NAMESPACE := "virtual.konflux-ci.dev/subject-namespace"
  const AUTHENTICATED := "authenticated"
  const PRIVATE := "private"

  /** A namespace as a value; `None` is Go's nil map. */
  datatype Namespace = Namespace(name: string, labels: Option<StrMap>, annotations: Option<StrMap>)

  /** The match looks at group, kind and name, and not at the subject's namespace. */
  predicate IsSystemAuthenticated(sub: Subject) {
    sub.apiGroup == RBAC_GROUP && sub.kind == GROUP_KIND && sub.name == "system:authenticated"
  }

  ghost predicate SharedWithAuthenticated(subs: set<Subject>) {
    exists sub :: sub in subs && IsSystemAuthenticated(sub)
  }

  ghost function Visibility(subs: set<Subject>): string {
    if SharedWithAuthenticated(subs) then AUTHENTICATED else PRIVATE
  }

  /** The kind in lower case (letters A to Z). */
  function ToLower(s: string): string {
    seq(|s|, i requires 0 <= i < |s| =>
      if 'A' <= s[i] <= 'Z' then s[i] - 'A' + 'a' else s[i])
  }

  function OrEmpty(m: Option<StrMap>): StrMap {
    match m case None => map[] case Some(v) => v
  }

  function AccessLabels(labels: Option<StrMap>, sub: Subject): StrMap {
    OrEmpty(labels)[ACCESS := ToLower(sub.kind)]
  }

  function AccessAnnotations(annotations: Option<StrMap>, sub: Subject): StrMap {
    var aa := OrEmpty(annotations)[SUBJECT_NAME := sub.name];
    if sub.namespace != "" then aa[SUBJECT_NAMESPACE := sub.namespace] else aa
  }

  /** A nil label map cannot be written: the visibility is then lost. */
  ghost function WithVisibility(ns: Namespace, subs: set<Subject>): Namespace {
    match ns.labels
    case None => ns
    case Some(m) => ns.(labels := Some(m[VISIBILITY := Visibility(subs)]))
  }

  function ForAccess(ns: Namespace, sub: Subject): Namespace {
    Namespace(ns.name, Some(AccessLabels(ns.labels, sub)), Some(AccessAnnotations(ns.annotations, sub)))
  }

  /** The copy of `ns` cached for `sub` when `subs` are allowed to see it. */
  ghost function Decorate(ns: Namespace, subs: set<Subject>, sub: Subject): Namespace {
    ForAccess(WithVisibility(ns, subs), sub)
  }

  /** The namespace without whatever visibility label it carries. */
  function Pristine(ns: Namespace): Namespace {
    match ns.labels
    case None => ns
    case Some(m) => ns.(labels := Some(m - {VISIBILITY}))
  }

  /** A visibility left behind by an earlier run never reaches a copy. */
  lemma StaleVisibilityNeverSurvives(ns: Namespace, stale: Namespace, subs: set<Subject>, sub: Subject)
    requires Pristine(ns) == Pristine(stale)
    ensures Decorate(ns, subs, sub) == Decorate(stale, subs, sub)
  {
    if ns.labels.Some? && stale.labels.Some? {
      var v := Visibility(subs);
      var a, b := ns.labels.value, stale.labels.value;
      assert a[VISIBILITY := v] == (a - {VISIBILITY})[VISIBILITY := v];
      assert b[VISIBILITY := v] == (b - {VISIBILITY})[VISIBILITY := v];
    }
  }

  /** A copy states the right visibility if and only if the namespace's label map was not nil. */
  lemma VisibilityExact(ns: Namespace, subs: set<Subject>, sub: Subject)
    ensures var labels := Decorate(ns, subs, sub).labels.value;
            && (ns.labels.Some? <==> VISIBILITY in labels)
            && (ns.labels.Some? ==> (labels[VISIBILITY] == AUTHENTICATED <==> SharedWithAuthenticated(subs)))
            && (ns.labels.Some? ==> (labels[VISIBILITY] == PRIVATE <==> !SharedWithAuthenticated(subs)))
  {
  }

  /** In the words of the API: the label of a copy is "authenticated" if and only if the group of all
      authenticated users is among the allowed subjects, and "private" otherwise. */
  lemma VisibilityLabel(ns: Namespace, subs: set<Subject>, sub: Subject)
    requires ns.labels.Some?
    ensures var labels := Decorate(ns, subs, sub).labels.value;
            && "virtual.konflux-ci.dev/visibility" in labels
            && labels["virtual.konflux-ci.dev/visibility"] ==
               if exists x: string :: Subject("rbac.authorization.k8s.io", "Group", x, "system:authenticated") in subs
               then "authenticated" else "private"
  {
    VisibilityExact(ns, subs, sub);
    AuthenticatedGroup(subs);
  }

  lemma AuthenticatedGroup(subs: set<Subject>)
    ensures SharedWithAuthenticated(subs)
            <==> exists x: string :: Subject("rbac.authorization.k8s.io", "Group", x, "system:authenticated") in subs
  {
    if SharedWithAuthenticated(subs) {
      var sub :| sub in subs && IsSystemAuthenticated(sub);
      assert Subject("rbac.authorization.k8s.io", "Group", sub.namespace, "system:authenticated") in subs;
    }
    if x: string :| Subject("rbac.authorization.k8s.io", "Group", x, "system:authenticated") in subs {
      assert IsSystemAuthenticated(Subject("rbac.authorization.k8s.io", "Group", x, "system:authenticated"));
    }
  }

  /** An input on which a namespace shared with every authenticated user does not say so. */
  lemma NilLabelsLoseVisibility()
    ensures var sub := Subject(RBAC_GROUP, GROUP_KIND, "", "system:authenticated");
            SharedWithAuthenticated({sub}) && VISIBILITY !in Decorate(Namespace("n", None, None), {sub}, sub).labels.value
  {
    var sub := Subject(RBAC_GROUP, GROUP_KIND, "", "system:authenticated");
    assert IsSystemAuthenticated(sub);
    VisibilityExact(Namespace("n", None, None), {sub}, sub);
  }

  /** Every other label and annotation of the copy is the namespace's own. */
  lemma CopyKeepsTheRest(ns: Namespace, subs: set<Subject>, sub: Subject)
    ensures var c := Decorate(ns, subs, sub);
            && c.name == ns.name
            && c.labels.value - {VISIBILITY, ACCESS} == OrEmpty(ns.labels) - {VISIBILITY, ACCESS}
            && c.annotations.value - {SUBJECT_NAME, SUBJECT_NAMESPACE}
               == OrEmpty(ns.annotations) - {SUBJECT_NAME, SUBJECT_NAMESPACE}
  {
  }

  /** What a copy should say about the subject it was made for. */
  ghost predicate NamesSubject(c: Namespace, sub: Subject) {
    && c.labels.Some? && c.annotations.Some?
    && ACCESS in c.labels.value && c.labels.value[ACCESS] == ToLower(sub.kind)
    && SUBJECT_NAME in c.annotations.value && c.annotations.value[SUBJECT_NAME] == sub.name
    && (if sub.namespace == "" then SUBJECT_NAMESPACE !in c.annotations.value
        else SUBJECT_NAMESPACE in c.annotations.value
             && c.annotations.value[SUBJECT_NAMESPACE] == sub.namespace)
  }

  /** A copy names its subject exactly, unless the subject has no namespace and the namespace
      object already carries the subject-namespace annotation, which is then left standing. */
  lemma CopyNamesItsSubject(ns: Namespace, subs: set<Subject>, sub: Subject)
    ensures NamesSubject(Decorate(ns, subs, sub), sub)
            <==> sub.namespace != "" || SUBJECT_NAMESPACE !in OrEmpty(ns.annotations)
  {
  }

  /** The access label of the three kinds of subject. */
  lemma LowerKinds()
    ensures ToLower("User") == "user" && ToLower("Group") == "group" && ToLower("ServiceAccount") == "serviceaccount"
  {
    assert forall i :: 0 <= i < 4 ==> ToLower("User")[i] == "user"[i];
    assert forall i :: 0 <= i < 5 ==> ToLower("Group")[i] == "group"[i];
    assert forall i :: 0 <= i < 14 ==> ToLower("ServiceAccount")[i] == "serviceaccount"[i];
  }

  /** In the words of the API: what a copy says of the subject it was made for. */
  lemma CopyLabels(ns: Namespace, subs: set<Subject>, sub: Subject)
    ensures var c := Decorate(ns, subs, sub);
            && c.labels.Some? && c.annotations.Some?
            && "virtual.konflux-ci.dev/access" in c.labels.value
            && (sub.kind == "User" ==> c.labels.value["virtual.konflux-ci.dev/access"] == "user")
            && (sub.kind == "Group" ==> c.labels.value["virtual.konflux-ci.dev/access"] == "group")
            && (sub.kind == "ServiceAccount" ==> c.labels.value["virtual.konflux-ci.dev/access"] == "serviceaccount")
            && "virtual.konflux-ci.dev/subject-name" in c.annotations.value
            && c.annotations.value["virtual.konflux-ci.dev/subject-name"] == sub.name
            && (sub.namespace != "" ==>
                  && "virtual.konflux-ci.dev/subject-namespace" in c.annotations.value
                  && c.annotations.value["virtual.konflux-ci.dev/subject-namespace"] == sub.namespace)
  {
    LowerKinds();
    assert |SUBJECT_NAME| != |SUBJECT_NAMESPACE|;
  }

  /** An input on which the subject-namespace annotation belongs to nobody. */
  lemma ForeignSubjectNamespaceSurvives()
    ensures var ns := Namespace("n", None, Some(map[SUBJECT_NAMESPACE := "other"]));
            var sub := Subject(RBAC_GROUP, USER_KIND, "", "u");
            !NamesSubject(Decorate(ns, {sub}, sub), sub)
  {
  }
}
