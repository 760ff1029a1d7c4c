/** Whom a binding's subject stands for: RBAC matches subjects against the user name as it is, the
    lister parses the name into one subject and looks that up. */
module Matching {
  import opened Common
  import opened Subjects
  import opened Usernames
  import opened Rbac

  // ----- the match RBAC makes -----

  /** RBAC honours `s` for a user and its groups: a user by its name, a group by membership, a service
      account by the name the API server gives it. The API group and, for users and groups, the
      namespace are not looked at. A service account without namespace is one of the namespace `local`
      of the role binding; a cluster role binding has none. */
  ghost predicate AppliesTo(s: Subject, local: Option<string>, username: string, groups: seq<string>) {
    if s.kind == USER_KIND then s.name == username
    else if s.kind == GROUP_KIND then s.name in groups
    else if s.kind == SERVICE_ACCOUNT_KIND then
      var ns := if s.namespace != "" then s.namespace else if local.Some? then local.value else "";
      ns != "" && username == PREFIX + ns + ":" + s.name
    else false
  }

  ghost predicate GrantsBy(c: Cluster, username: string, groups: seq<string>, n: string, b: Binding, s: Subject) {
    b in c.bindings && s in b.subjects && BindingGrants(c, b, n) && AppliesTo(s, b.scope, username, groups)
  }

  /** The user may get namespace `n`, by the bindings of the cluster or as one of the subjects that
      always may. */
  ghost predicate RbacGrants(c: Cluster, username: string, groups: seq<string>, n: string) {
    || (exists s :: s in c.always && AppliesTo(s, None, username, groups))
    || (exists b, s :: GrantsBy(c, username, groups, n, b, s))
  }

  // ----- the subjects the lister looks up -----

  ghost function UserSubject(username: string): Subject {
    Subject(RBAC_GROUP, USER_KIND, "", username)
  }

  ghost function Who(username: string, groups: seq<string>): set<Subject>
    requires ParseUsername(username).Parsed?
  {
    Identities(ParseUsername(username).sub, groups)
  }


  lemma KindsDiffer()
    ensures USER_KIND != GROUP_KIND && USER_KIND != SERVICE_ACCOUNT_KIND && GROUP_KIND != SERVICE_ACCOUNT_KIND
  {
    assert |USER_KIND| == 4 && |GROUP_KIND| == 5 && |SERVICE_ACCOUNT_KIND| == 14;
  }

  lemma AfterPrefix(username: string)
    requires HasPrefix(username, PREFIX)
    ensures username == PREFIX + username[|PREFIX|..]
    ensures Split(username) == ["system", "serviceaccount"] + Split(username[|PREFIX|..])
  {
    SplitServiceAccount(username[|PREFIX|..]);
  }

  lemma FirstTwoPieces(rest: string)
    requires |Split(rest)| >= 2
    ensures var parts := Split(rest);
            && ':' !in parts[0] && ':' !in parts[1]
            && (rest == parts[0] + ":" + parts[1] <==> |parts| == 2)
  {
    var parts := Split(rest);
    SplitIsInverseOfJoin(rest);
    if |parts| == 2 {
      assert parts[1..] == [parts[1]];
    }
    if rest == parts[0] + ":" + parts[1] {
      SplitHead(parts[0], parts[1]);
      SplitWhole(parts[1]);
    }
  }

  lemma SamePrefix(p: string, rest: string, a: string, b: string)
    ensures p + rest == p + a + ":" + b <==> rest == a + ":" + b
  {
    assert p + a + ":" + b == p + (a + ":" + b);
    assert (p + rest)[|p|..] == rest;
    assert (p + (a + ":" + b))[|p|..] == a + ":" + b;
  }

  /** Parsing takes the third and fourth piece: they are free of colons, and they are the whole name
      after the prefix if and only if there is no fifth. */
  lemma ParsedPieces(username: string)
    requires HasPrefix(username, PREFIX) && ParseUsername(username).Parsed?
    ensures var s := ParseUsername(username).sub;
            && s.apiGroup == "" && s.kind == SERVICE_ACCOUNT_KIND && ':' !in s.namespace && ':' !in s.name
            && (username == PREFIX + s.namespace + ":" + s.name <==> |Split(username)| == 4)
  {
    var s, rest := ParseUsername(username).sub, username[|PREFIX|..];
    AfterPrefix(username);
    FirstTwoPieces(rest);
    SamePrefix(PREFIX, rest, s.namespace, s.name);
  }

  /** A name made of the prefix and the rest, with at least two pieces, parses to the first two. */
  lemma ParsesToPieces(rest: string, a: string, b: string, more: seq<string>)
    requires Split(rest) == [a, b] + more
    ensures HasPrefix(PREFIX + rest, PREFIX)
    ensures Split(PREFIX + rest) == ["system", "serviceaccount", a, b] + more
    ensures ParseUsername(PREFIX + rest) == Parsed(Subject("", SERVICE_ACCOUNT_KIND, a, b))
  {
    SplitServiceAccount(rest);
  }

  /** The printed name of a service account has four pieces and parses to it. */
  lemma PrintedPieces(a: string, b: string)
    requires ':' !in a && ':' !in b
    ensures var u := PREFIX + a + ":" + b;
            && HasPrefix(u, PREFIX) && Split(u) == ["system", "serviceaccount", a, b]
            && ParseUsername(u) == Parsed(Subject("", SERVICE_ACCOUNT_KIND, a, b))
  {
    SplitHead(a, b);
    SplitWhole(b);
    SamePrefix(PREFIX, a + ":" + b, a, b);
    ParsesToPieces(a + ":" + b, a, b, []);
  }

  // ----- subject by subject -----

  /** The form in which a subject is found: the kind with its own API group, no namespace for users and
      groups, a namespace and no colons for service accounts. */
  ghost predicate Canonical(s: Subject) {
    if s.kind == SERVICE_ACCOUNT_KIND then
      s.apiGroup == "" && s.namespace != "" && ':' !in s.namespace && ':' !in s.name
    else
      (s.kind == USER_KIND || s.kind == GROUP_KIND) && s.apiGroup == RBAC_GROUP && s.namespace == ""
  }

  lemma AccountMatches(s: Subject, local: Option<string>, username: string, groups: seq<string>)
    requires Canonical(s) && s.kind == SERVICE_ACCOUNT_KIND && ParseUsername(username).Parsed?
    ensures AppliesTo(s, local, username, groups)
            <==> HasPrefix(username, PREFIX) && s == ParseUsername(username).sub && |Split(username)| == 4
  {
    KindsDiffer();
    if AppliesTo(s, local, username, groups) { PrintedPieces(s.namespace, s.name); }
    if HasPrefix(username, PREFIX) { ParsedPieces(username); }
  }

  lemma UserMatches(s: Subject, local: Option<string>, username: string, groups: seq<string>)
    requires Canonical(s) && s.kind == USER_KIND
    ensures AppliesTo(s, local, username, groups) <==> s == UserSubject(username)
  {
    KindsDiffer();
  }

  lemma GroupMatches(s: Subject, local: Option<string>, username: string, groups: seq<string>)
    requires Canonical(s) && s.kind == GROUP_KIND && ParseUsername(username).Parsed?
    ensures AppliesTo(s, local, username, groups) <==> s in Who(username, groups)
  {
    KindsDiffer();
    assert s == GroupSubject(s.name);
  }

  lemma LookedUp(s: Subject, username: string, groups: seq<string>)
    requires ParseUsername(username).Parsed?
    ensures s.kind != GROUP_KIND ==> (s in Who(username, groups) <==> s == ParseUsername(username).sub)
    ensures !HasPrefix(username, PREFIX) ==> ParseUsername(username).sub == UserSubject(username)
    ensures HasPrefix(username, PREFIX) ==> ParseUsername(username).sub.kind == SERVICE_ACCOUNT_KIND
  {
    KindsDiffer();
  }

  /** For a canonical subject the lookup and RBAC agree if and only if, for the name of a service
      account, the subject is not a user of that very name, nor the parsed account of a name with more
      than four pieces. */
  lemma MatchExactly(s: Subject, local: Option<string>, username: string, groups: seq<string>)
    requires Canonical(s) && ParseUsername(username).Parsed?
    ensures (s in Who(username, groups) <==> AppliesTo(s, local, username, groups))
            <==> (HasPrefix(username, PREFIX) ==>
                    s != UserSubject(username) && (s == ParseUsername(username).sub ==> |Split(username)| == 4))
  {
    KindsDiffer();
    LookedUp(s, username, groups);
    if s.kind == SERVICE_ACCOUNT_KIND {
      AccountMatches(s, local, username, groups);
    } else if s.kind == USER_KIND {
      UserMatches(s, local, username, groups);
    } else {
      GroupMatches(s, local, username, groups);
    }
  }

  /** Any other subject is never looked up, except a service account without namespace: whatever RBAC
      grants it is not found. */
  lemma IrregularIsNotFound(s: Subject, username: string, groups: seq<string>)
    requires !Canonical(s) && ParseUsername(username).Parsed?
    requires s.kind == SERVICE_ACCOUNT_KIND ==> s.namespace != ""
    ensures s !in Who(username, groups)
  {
    KindsDiffer();
    if HasPrefix(username, PREFIX) { ParsedPieces(username); }
  }

  // ----- request by request -----

  ghost predicate SomeApplies(a: set<Subject>, username: string, groups: seq<string>) {
    exists s :: s in a && AppliesTo(s, None, username, groups)
  }

  ghost function CanonicalPart(a: set<Subject>): set<Subject> {
    set s | s in a && Canonical(s)
  }

  /** RBAC grants the access through a subject that is not canonical. */
  ghost predicate StrayGrant(c: Cluster, username: string, groups: seq<string>, n: string) {
    || (exists s :: s in c.always && !Canonical(s) && AppliesTo(s, None, username, groups))
    || (exists b, s :: !Canonical(s) && GrantsBy(c, username, groups, n, b, s))
  }

  /** The namespace of the binding matters to service accounts without one only. */
  lemma ScopeIsIrrelevant(s: Subject, local: Option<string>, username: string, groups: seq<string>)
    requires Canonical(s)
    ensures AppliesTo(s, local, username, groups) <==> AppliesTo(s, None, username, groups)
  {
  }

  /** RBAC grants through a canonical subject among the allowed ones, or a stray one. */
  lemma GrantsSplit(c: Cluster, username: string, groups: seq<string>, n: string)
    ensures RbacGrants(c, username, groups, n)
            <==> SomeApplies(CanonicalPart(AllowedSubjects(c, n)), username, groups)
                 || StrayGrant(c, username, groups, n)
  {
    var a := CanonicalPart(AllowedSubjects(c, n));
    if b, s :| GrantsBy(c, username, groups, n, b, s) && Canonical(s) {
      ScopeIsIrrelevant(s, b.scope, username, groups);
      assert s in a;
    }
    if s :| s in c.always && Canonical(s) && AppliesTo(s, None, username, groups) { assert s in a; }
    if s :| s in a && AppliesTo(s, None, username, groups) {
      if s !in c.always {
        var b :| b in c.bindings && s in b.subjects && BindingGrants(c, b, n);
        ScopeIsIrrelevant(s, b.scope, username, groups);
        assert GrantsBy(c, username, groups, n, b, s);
      }
    }
  }

  ghost predicate GroupIn(a: set<Subject>, groups: seq<string>) {
    exists g :: g in groups && GroupSubject(g) in a
  }

  /** RBAC finds a group, the user, or the service account of the name among `a`. */
  ghost predicate Found(a: set<Subject>, username: string, groups: seq<string>)
    requires ParseUsername(username).Parsed?
  {
    || GroupIn(a, groups) || UserSubject(username) in a
    || (HasPrefix(username, PREFIX) && |Split(username)| == 4 && ParseUsername(username).sub in a)
  }

  lemma MatchSide(a: set<Subject>, username: string, groups: seq<string>)
    requires ParseUsername(username).Parsed? && forall s :: s in a ==> Canonical(s)
    ensures SomeApplies(a, username, groups) <==> Found(a, username, groups)
  {
    if s :| s in a && AppliesTo(s, None, username, groups) { AppliesOneWay(a, s, username, groups); }
    if Found(a, username, groups) { AppliesOtherWay(a, username, groups); }
  }

  lemma LookupSide(a: set<Subject>, username: string, groups: seq<string>)
    requires ParseUsername(username).Parsed?
    ensures Who(username, groups) * a != {} <==> GroupIn(a, groups) || ParseUsername(username).sub in a
  {
    var sub := ParseUsername(username).sub;
    if s :| s in Who(username, groups) * a {
      if s != sub {
        var g :| g in groups && s == GroupSubject(g);
        assert GroupSubject(g) in a;
      }
    }
    if g :| g in groups && GroupSubject(g) in a { assert GroupSubject(g) in Who(username, groups) * a; }
    if sub in a { assert sub in Who(username, groups) * a; }
  }

  lemma AppliesOneWay(a: set<Subject>, s: Subject, username: string, groups: seq<string>)
    requires ParseUsername(username).Parsed? && s in a && Canonical(s) && AppliesTo(s, None, username, groups)
    ensures Found(a, username, groups)
  {
    KindsDiffer();
    if s.kind == SERVICE_ACCOUNT_KIND {
      AccountMatches(s, None, username, groups);
    } else if s.kind == GROUP_KIND {
      assert GroupSubject(s.name) == s;
    }
  }

  lemma AppliesOtherWay(a: set<Subject>, username: string, groups: seq<string>)
    requires ParseUsername(username).Parsed? && forall s :: s in a ==> Canonical(s)
    requires Found(a, username, groups)
    ensures SomeApplies(a, username, groups)
  {
    KindsDiffer();
    if g :| g in groups && GroupSubject(g) in a {
      assert AppliesTo(GroupSubject(g), None, username, groups);
    } else if UserSubject(username) in a {
      assert AppliesTo(UserSubject(username), None, username, groups);
    } else {
      var sub := ParseUsername(username).sub;
      LookedUp(sub, username, groups);
      AccountMatches(sub, None, username, groups);
    }
  }

  /** The parsed subject is one that RBAC honours for the name: the name is no service account's, or has
      exactly four pieces and a namespace. */
  ghost predicate FaithfulName(username: string)
    requires ParseUsername(username).Parsed?
  {
    HasPrefix(username, PREFIX) ==> |Split(username)| == 4 && ParseUsername(username).sub.namespace != ""
  }

  /** Looking up the parsed subject decides as RBAC does: a group grants the access anyway; or the parsed
      subject is allowed, and the name is faithful or allowed otherwise, as a user or through a stray
      subject; or none of the three is. */
  ghost predicate LookupDecides(c: Cluster, username: string, groups: seq<string>, n: string)
    requires ParseUsername(username).Parsed?
  {
    var a := AllowedSubjects(c, n);
    || GroupIn(a, groups)
    || (if ParseUsername(username).sub in a
        then FaithfulName(username) || UserSubject(username) in a || StrayGrant(c, username, groups, n)
        else UserSubject(username) !in a && !StrayGrant(c, username, groups, n))
  }

  lemma PartsFound(a: set<Subject>, username: string, groups: seq<string>)
    requires ParseUsername(username).Parsed?
    ensures var sub := ParseUsername(username).sub;
            Found(CanonicalPart(a), username, groups)
            <==> GroupIn(a, groups) || UserSubject(username) in a || (FaithfulName(username) && sub in a)
  {
    KindsDiffer();
    assert forall g :: Canonical(GroupSubject(g));
    assert Canonical(UserSubject(username));
    if HasPrefix(username, PREFIX) { ParsedPieces(username); }
    if g :| g in groups && GroupSubject(g) in a { assert GroupSubject(g) in CanonicalPart(a); }
  }

  /** Request by request and namespace by namespace, in every cluster, exactly when. */
  lemma LookupAgreesExactly(c: Cluster, username: string, groups: seq<string>, n: string)
    requires ParseUsername(username).Parsed?
    ensures (Who(username, groups) * AllowedSubjects(c, n) != {} <==> RbacGrants(c, username, groups, n))
            <==> LookupDecides(c, username, groups, n)
  {
    var a := AllowedSubjects(c, n);
    GrantsSplit(c, username, groups, n);
    LookupSide(a, username, groups);
    MatchSide(CanonicalPart(a), username, groups);
    PartsFound(a, username, groups);
  }

  // ----- for every cluster -----

  lemma FaithfulApplies(s: Subject, local: Option<string>, username: string, groups: seq<string>)
    requires ParseUsername(username).Parsed? && FaithfulName(username) && s in Who(username, groups)
    ensures AppliesTo(s, local, username, groups)
  {
    KindsDiffer();
    if HasPrefix(username, PREFIX) { ParsedPieces(username); }
  }

  lemma FaithfulNameIsSound(c: Cluster, username: string, groups: seq<string>, n: string)
    requires ParseUsername(username).Parsed? && FaithfulName(username)
    requires Who(username, groups) * AllowedSubjects(c, n) != {}
    ensures RbacGrants(c, username, groups, n)
  {
    var s :| s in Who(username, groups) * AllowedSubjects(c, n);
    if s in c.always {
      FaithfulApplies(s, None, username, groups);
    } else {
      var b :| b in c.bindings && s in b.subjects && BindingGrants(c, b, n);
      FaithfulApplies(s, b.scope, username, groups);
      assert GrantsBy(c, username, groups, n, b, s);
    }
  }

  /** The cluster in which one labelled cluster role binding lets one subject get every namespace. */
  ghost function OneGrant(s: Subject): Cluster {
    var role := ClusterRole("viewer");
    Cluster(map[role := [PolicyRule(["get"], [""], ["namespaces"], [], [])]], {Binding(None, role, {s}, true)}, {})
  }

  lemma OneGrantAllows(s: Subject, username: string, groups: seq<string>, n: string)
    ensures AllowedSubjects(OneGrant(s), n) == {s}
    ensures RbacGrants(OneGrant(s), username, groups, n) <==> AppliesTo(s, None, username, groups)
  {
    var c, role := OneGrant(s), ClusterRole("viewer");
    var b := Binding(None, role, {s}, true);
    RuleAllows(c, b, s, 0, n);
    assert MatchesGet(c.roles[role][0]) && Admits(c.roles[role][0], n);
    assert BindingGrants(c, b, n);
    if AppliesTo(s, None, username, groups) { assert GrantsBy(c, username, groups, n, b, s); }
  }

  /** The lister never answers more than RBAC grants, in whatever cluster, if and only if the name is no
      service account's, or has exactly four pieces and a namespace. */
  lemma SoundExactly(username: string, groups: seq<string>)
    requires ParseUsername(username).Parsed?
    ensures (forall c, n :: Who(username, groups) * AllowedSubjects(c, n) != {} ==> RbacGrants(c, username, groups, n))
            <==> FaithfulName(username)
  {
    if FaithfulName(username) {
      forall c, n | Who(username, groups) * AllowedSubjects(c, n) != {} ensures RbacGrants(c, username, groups, n) {
        FaithfulNameIsSound(c, username, groups, n);
      }
    } else {
      var sub := ParseUsername(username).sub;
      ParsedPieces(username);
      KindsDiffer();
      OneGrantAllows(sub, username, groups, "n");
      assert sub in Who(username, groups) * AllowedSubjects(OneGrant(sub), "n");
    }
  }

  /** All subjects of the cluster are canonical. */
  ghost predicate Regular(c: Cluster) {
    && (forall s :: s in c.always ==> Canonical(s))
    && (forall b, s :: b in c.bindings && s in b.subjects ==> Canonical(s))
  }

  /** The lister answers all that RBAC grants, in whatever regular cluster, if and only if the name is no
      service account's: those can also be bound as users. */
  lemma CompleteExactly(username: string, groups: seq<string>)
    requires ParseUsername(username).Parsed?
    ensures (forall c, n :: Regular(c) && RbacGrants(c, username, groups, n) ==>
               Who(username, groups) * AllowedSubjects(c, n) != {})
            <==> !HasPrefix(username, PREFIX)
  {
    if HasPrefix(username, PREFIX) {
      BoundAsUser(username, groups, "n");
    } else {
      forall c, n | Regular(c) && RbacGrants(c, username, groups, n)
        ensures Who(username, groups) * AllowedSubjects(c, n) != {}
      {
        assert !StrayGrant(c, username, groups, n);
        LookupAgreesExactly(c, username, groups, n);
        LookupSide(AllowedSubjects(c, n), username, groups);
        LookedUp(UserSubject(username), username, groups);
      }
    }
  }

  lemma BoundAsUser(username: string, groups: seq<string>, n: string)
    requires ParseUsername(username).Parsed? && HasPrefix(username, PREFIX)
    ensures var c := OneGrant(UserSubject(username));
            Regular(c) && RbacGrants(c, username, groups, n) && Who(username, groups) * AllowedSubjects(c, n) == {}
  {
    KindsDiffer();
    var u := UserSubject(username);
    OneGrantAllows(u, username, groups, n);
    LookedUp(u, username, groups);
    assert u !in Who(username, groups);
  }

  // ----- inputs on which the two differ -----

  lemma TwoHeads(a: string, b: string, x: string)
    requires ':' !in a && ':' !in b
    ensures Split(a + ":" + (b + ":" + x)) == [a, b] + Split(x)
  {
    var tail := b + ":" + x;
    SplitHead(a, tail);
    SplitHead(b, x);
    assert [a] + ([b] + Split(x)) == [a, b] + Split(x);
  }

  lemma FivePieces(a: string, b: string, x: string)
    requires ':' !in a && ':' !in b
    ensures var username := PREFIX + (a + ":" + (b + ":" + x));
            HasPrefix(username, PREFIX) && ParseUsername(username) == Parsed(Subject("", SERVICE_ACCOUNT_KIND, a, b))
  {
    TwoHeads(a, b, x);
    ParsesToPieces(a + ":" + (b + ":" + x), a, b, Split(x));
  }

  /** A fifth piece: the request is answered as the service account a/b, which RBAC does not take it for. */
  lemma ExtraColonIsAnswered(a: string, b: string, x: string, groups: seq<string>, n: string)
    requires ':' !in a && ':' !in b
    ensures var username, s := PREFIX + (a + ":" + (b + ":" + x)), Subject("", SERVICE_ACCOUNT_KIND, a, b);
            && ParseUsername(username) == Parsed(s)
            && Who(username, groups) * AllowedSubjects(OneGrant(s), n) != {}
            && !RbacGrants(OneGrant(s), username, groups, n)
  {
    FivePieces(a, b, x);
    KindsDiffer();
    var username, s := PREFIX + (a + ":" + (b + ":" + x)), Subject("", SERVICE_ACCOUNT_KIND, a, b);
    assert |username| > |PREFIX + a + ":" + b|;
    OneGrantAllows(s, username, groups, n);
    assert s in Who(username, groups) * AllowedSubjects(OneGrant(s), n);
  }

  /** A service account bound as a user: RBAC grants the access and the lookup does not find it. */
  lemma AccountBoundAsUserIsLost(a: string, b: string, groups: seq<string>, n: string)
    requires ':' !in a && ':' !in b
    ensures var username := PREFIX + a + ":" + b;
            && ParseUsername(username) == Parsed(Subject("", SERVICE_ACCOUNT_KIND, a, b))
            && RbacGrants(OneGrant(UserSubject(username)), username, groups, n)
            && Who(username, groups) * AllowedSubjects(OneGrant(UserSubject(username)), n) == {}
  {
    PrintedPieces(a, b);
    BoundAsUser(PREFIX + a + ":" + b, groups, n);
  }

  /** A user subject that carries a namespace: RBAC does not look at it, the lookup does. */
  lemma StrayNamespaceIsLost(username: string, ns: string, groups: seq<string>, n: string)
    requires !HasPrefix(username, PREFIX) && ns != ""
    ensures var s := Subject(RBAC_GROUP, USER_KIND, ns, username);
            && RbacGrants(OneGrant(s), username, groups, n)
            && Who(username, groups) * AllowedSubjects(OneGrant(s), n) == {}
  {
    var s := Subject(RBAC_GROUP, USER_KIND, ns, username);
    KindsDiffer();
    OneGrantAllows(s, username, groups, n);
    IrregularIsNotFound(s, username, groups);
  }
}
