/** Turning a user name and its groups into subjects, and the printer the parser must undo. */
module Usernames {
  import opened Common
  import opened Subjects

  const PREFIX := "system:serviceaccount:"

  predicate HasPrefix(s: string, p: string) {
    p <= s
  }

  // ----- splitting at colons -----

  function FirstColon(s: string): (i: nat)
    ensures i <= |s| && ':' !in s[..i] && (i < |s| ==> s[i] == ':')
  {
    if s == [] || s[0] == ':' then 0
    else
      var i := 1 + FirstColon(s[1..]);
      assert s[..i] == [s[0]] + s[1..][..i - 1];
      i
  }

  /** The pieces between the colons of `s`; at least one, possibly empty. */
  function Split(s: string): (parts: seq<string>)
    ensures |parts| >= 1
    decreases |s|
  {
    var i := FirstColon(s);
    if i == |s| then [s] else [s[..i]] + Split(s[i + 1..])
  }

  function Join(parts: seq<string>): string
    requires parts != []
  {
    if |parts| == 1 then parts[0] else parts[0] + ":" + Join(parts[1..])
  }

  /** The pieces have no colon and put together again give the string. */
  lemma {:induction false} SplitIsInverseOfJoin(s: string)
    ensures Join(Split(s)) == s
    ensures forall k :: 0 <= k < |Split(s)| ==> ':' !in Split(s)[k]
    decreases |s|
  {
    var i := FirstColon(s);
    if i == |s| {
      assert s[..i] == s;
    } else {
      SplitIsInverseOfJoin(s[i + 1..]);
      JoinHead(s[..i], Split(s[i + 1..]));
      CutAt(s, i);
    }
  }

  lemma JoinHead(a: string, parts: seq<string>)
    requires parts != []
    ensures Join([a] + parts) == a + ":" + Join(parts)
  {
  }

  lemma CutAt(s: string, i: nat)
    requires i < |s| && s[i] == ':'
    ensures s[..i] + ":" + s[i + 1..] == s
  {
  }

  lemma {:induction false} FirstColonAfter(a: string, b: string)
    requires ':' !in a
    ensures FirstColon(a + ":" + b) == |a|
  {
    if a != [] {
      FirstColonAfter(a[1..], b);
      assert (a + ":" + b)[1..] == a[1..] + ":" + b;
      assert a[0] in a;
    }
  }

  lemma SplitHead(a: string, b: string)
    requires ':' !in a
    ensures Split(a + ":" + b) == [a] + Split(b)
  {
    FirstColonAfter(a, b);
    var s := a + ":" + b;
    assert s[..|a|] == a && s[|a| + 1..] == b;
  }

  lemma SplitWhole(a: string)
    ensures |Split(a)| >= 2 <==> ':' in a
    ensures ':' !in a ==> Split(a) == [a]
  {
  }

  lemma ServiceAccountPrefix(rest: string)
    ensures PREFIX + rest == "system" + ":" + ("serviceaccount" + ":" + rest)
    ensures ':' !in "system" && ':' !in "serviceaccount"
  {
  }

  lemma SplitServiceAccount(rest: string)
    ensures Split(PREFIX + rest) == ["system", "serviceaccount"] + Split(rest)
  {
    ServiceAccountPrefix(rest);
    SplitHead("system", "serviceaccount" + ":" + rest);
    SplitHead("serviceaccount", rest);
  }

  // ----- the parser -----

  /** A subject, or the index of the split name out of range. */
  datatype Parsed = Parsed(sub: Subject) | OutOfRange

  function ParseUsername(username: string): Parsed {
    if HasPrefix(username, PREFIX) then
      var ss := Split(username);
      if |ss| < 4 then OutOfRange else Parsed(Subject("", SERVICE_ACCOUNT_KIND, ss[2], ss[3]))
    else Parsed(Subject(RBAC_GROUP, USER_KIND, "", username))
  }

  /** Parsing fails if and only if no colon follows the service account prefix. */
  lemma ParseFailsExactly(username: string)
    ensures ParseUsername(username).OutOfRange?
            <==> HasPrefix(username, PREFIX) && ':' !in username[|PREFIX|..]
  {
    if HasPrefix(username, PREFIX) {
      var rest := username[|PREFIX|..];
      assert username == PREFIX + rest;
      SplitServiceAccount(rest);
      SplitWhole(rest);
    }
  }

  /** A name on which the index is out of range. */
  lemma ParseCanFail()
    ensures ParseUsername(PREFIX + "n").OutOfRange?
  {
    assert (PREFIX + "n")[|PREFIX|..] == "n";
    ParseFailsExactly(PREFIX + "n");
  }

  /** Any name without the prefix is a user's, as it is. */
  lemma PlainNameParses(username: string)
    requires !("system:serviceaccount:" <= username)
    ensures ParseUsername(username) == Parsed(Subject("rbac.authorization.k8s.io", "User", "", username))
  {
  }

  /** The piece after the prefix is the namespace, the one after that the name. */
  lemma {:induction false} AccountNameParses(a: string, b: string)
    requires ':' !in a && ':' !in b
    ensures ParseUsername("system:serviceaccount:" + (a + ":" + b)) == Parsed(Subject("", "ServiceAccount", a, b))
  {
    SplitServiceAccount(a + ":" + b);
    SplitHead(a, b);
    SplitWhole(b);
  }

  function GroupSubject(g: string): Subject {
    Subject(RBAC_GROUP, GROUP_KIND, "", g)
  }

  /** The user first, then the groups in order. */
  ghost function SubjectSeq(sub: Subject, groups: seq<string>): seq<Subject> {
    [sub] + seq(|groups|, i requires 0 <= i < |groups| => GroupSubject(groups[i]))
  }

  method SubjectsOf(username: string, groups: seq<string>) returns (r: Option<seq<Subject>>)
    ensures r.None? <==> ParseUsername(username).OutOfRange?
    ensures r.Some? ==> r.value == SubjectSeq(ParseUsername(username).sub, groups)
    ensures r.Some? ==> |r.value| == |groups| + 1 && r.value[0] == ParseUsername(username).sub
    ensures r.Some? ==> forall i :: 0 <= i < |groups| ==>
              r.value[i + 1] == Subject("rbac.authorization.k8s.io", "Group", "", groups[i])
  {
    var p := ParseUsername(username);
    if p.OutOfRange? { return None; }
    var subs := new Subject[|groups| + 1](_ => p.sub);
    var i := 0;
    while i < |groups|
      invariant 0 <= i <= |groups|
      invariant subs[0] == p.sub
      invariant forall k :: 0 <= k < i ==> subs[1 + k] == GroupSubject(groups[k])
    {
      subs[1 + i] := GroupSubject(groups[i]);
      i := i + 1;
    }
    assert subs[..] == SubjectSeq(p.sub, groups);
    r := Some(subs[..]);
  }

  /** The set of subjects a request acts as. */
  ghost function Identities(sub: Subject, groups: seq<string>): set<Subject> {
    {sub} + set g | g in groups :: GroupSubject(g)
  }

  lemma SubjectSeqElems(sub: Subject, groups: seq<string>)
    ensures Elems(SubjectSeq(sub, groups)) == Identities(sub, groups)
  {
    var ss := SubjectSeq(sub, groups);
    forall x ensures x in ss <==> x in Identities(sub, groups) {
      if x in ss {
        var i :| 0 <= i < |ss| && ss[i] == x;
        if i > 0 { assert groups[i - 1] in groups; }
      }
      if x in Identities(sub, groups) && x != sub {
        var g :| g in groups && x == GroupSubject(g);
        var i :| 0 <= i < |groups| && groups[i] == g;
        assert ss[i + 1] == x;
      }
      assert ss[0] == sub;
    }
  }

  // ----- the printer -----

  datatype UserInfo = UserInfo(namespace: string, name: string, apiGroup: string, kind: string) {
    function AsSubject(): Subject {
      Subject(apiGroup, kind, namespace, name)
    }

    function FullName(): string {
      if kind == "ServiceAccount" then PREFIX + namespace + ":" + name else name
    }
  }

  function FromServiceAccount(namespace: string, name: string): UserInfo {
    UserInfo(namespace, name, "", "ServiceAccount")
  }

  function FromUsername(username: string): UserInfo {
    UserInfo("", username, RBAC_GROUP, "User")
  }

  /** Parsing the printed name of a service account gives it back if and only if neither its
      namespace nor its name has a colon. */
  lemma ServiceAccountRoundTrip(namespace: string, name: string)
    ensures var u := FromServiceAccount(namespace, name);
            ParseUsername(u.FullName()) == Parsed(u.AsSubject()) <==> ':' !in namespace && ':' !in name
  {
    var u := FromServiceAccount(namespace, name);
    var rest := namespace + ":" + name;
    assert u.FullName() == PREFIX + rest;
    SplitServiceAccount(rest);
    var parts := Split(PREFIX + rest);
    assert parts[2..] == Split(rest);
    SplitIsInverseOfJoin(rest);
    if ':' !in namespace {
      SplitHead(namespace, name);
      SplitWhole(name);
      SplitIsInverseOfJoin(name);
      assert parts[3] == Split(name)[0];
    } else {
      assert ':' !in parts[2];
    }
  }

  /** Parsing a user name gives the user back if and only if it lacks the service account prefix. */
  lemma UserRoundTrip(username: string)
    ensures var u := FromUsername(username);
            ParseUsername(u.FullName()) == Parsed(u.AsSubject()) <==> !HasPrefix(username, PREFIX)
  {
  }
}
