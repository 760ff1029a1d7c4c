/** The counters and gauges of the access cache. */
module Metrics {
  import opened Common
  import opened Subjects
  import opened AccessIndex
  import opened SharedHeap
  import opened Totals

  // ----- pairs by group and kind -----

  function TrimLeftSlashes(s: string): string {
    if s != [] && s[0] == '/' then TrimLeftSlashes(s[1..]) else s
  }

  /** The label of the pair gauge of a subject. */
  function GroupKind(s: Subject): string {
    TrimLeftSlashes(s.apiGroup + "/" + s.kind)
  }

  /** What is left are the characters after the leading slashes. */
  lemma {:induction false} TrimLeftExactly(s: string) returns (k: nat)
    ensures k <= |s| && TrimLeftSlashes(s) == s[k..]
    ensures (forall i :: 0 <= i < k ==> s[i] == '/') && (k < |s| ==> s[k] != '/')
  {
    if s != [] && s[0] == '/' {
      var j := TrimLeftExactly(s[1..]);
      k := j + 1;
      assert forall i :: 0 < i < k ==> s[i] == s[1..][i - 1];
    } else {
      k := 0;
    }
  }

  /** Group and kind with a slash between them; the kind alone for a subject without API group. */
  lemma {:induction false} GroupKindLabel(s: Subject)
    ensures s.apiGroup != "" && s.apiGroup[0] != '/' ==> GroupKind(s) == s.apiGroup + "/" + s.kind
    ensures s.apiGroup == "" && (s.kind == "" || s.kind[0] != '/') ==> GroupKind(s) == s.kind
  {
    if s.apiGroup == "" {
      assert (s.apiGroup + "/" + s.kind)[0] == '/' && (s.apiGroup + "/" + s.kind)[1..] == s.kind;
      assert TrimLeftSlashes(s.apiGroup + "/" + s.kind) == TrimLeftSlashes(s.kind);
    }
  }

  /** The number of namespaces of a subject. */
  ghost function Size<E>(data: map<Subject, seq<E>>): Subject -> nat {
    s => if s in data then |data[s]| else 0
  }

  /** The number of (subject, namespace) pairs. */
  ghost function Pairs<E>(data: map<Subject, seq<E>>): nat {
    Sum(data.Keys, Size(data))
  }

  ghost function GroupKinds<E>(data: map<Subject, seq<E>>): set<string> {
    Classes(data.Keys, GroupKind)
  }

  /** The number of pairs of one group and kind. */
  ghost function PairsOf<E>(data: map<Subject, seq<E>>): string -> nat {
    ClassSum(data.Keys, GroupKind, Size(data))
  }

  ghost function Gauge(gauges: map<string, nat>): string -> nat {
    gk => if gk in gauges then gauges[gk] else 0
  }

  /** The gauges after a run: those of its groups and kinds are set, the others stay. */
  ghost predicate GaugesSet<E>(before: map<string, nat>, after: map<string, nat>, data: map<Subject, seq<E>>) {
    && (forall gk :: gk in after <==> gk in before || gk in GroupKinds(data))
    && forall gk :: gk in after ==>
         after[gk] == if gk in GroupKinds(data) then PairsOf(data)(gk) else before[gk]
  }

  /** The gauges a run writes add up to the pairs in its index. */
  lemma WrittenGaugesAddUp<E>(before: map<string, nat>, after: map<string, nat>, data: map<Subject, seq<E>>)
    requires GaugesSet(before, after, data)
    ensures Sum(GroupKinds(data), Gauge(after)) == Pairs(data)
  {
    SumByClass(data.Keys, GroupKind, Size(data));
    SumEqual(GroupKinds(data), Gauge(after), PairsOf(data));
  }

  /** All gauges together add up to the pairs in the index if and only if every gauge that the run
      did not write was zero: gauges of vanished groups and kinds are never reset. */
  lemma AllGaugesAddUpExactly<E>(before: map<string, nat>, after: map<string, nat>, data: map<Subject, seq<E>>)
    requires GaugesSet(before, after, data)
    ensures Sum(after.Keys, Gauge(after)) == Pairs(data)
            <==> forall gk :: gk in before && gk !in GroupKinds(data) ==> before[gk] == 0
  {
    var stale := before.Keys - GroupKinds(data);
    assert after.Keys == GroupKinds(data) + stale;
    SumUnion(GroupKinds(data), stale, Gauge(after));
    WrittenGaugesAddUp(before, after, data);
    SumZero(stale, Gauge(after));
    assert forall gk :: gk in stale ==> Gauge(after)(gk) == before[gk];
  }

  /** An empty index after one pair of a user: the gauge still counts it. */
  lemma StaleGaugeSurvives(after: map<string, nat>)
    requires var nothing: HeapIndex := map[]; GaugesSet(map["rbac.authorization.k8s.io/User" := 1], after, nothing)
    ensures var nothing: HeapIndex := map[]; Sum(after.Keys, Gauge(after)) != Pairs(nothing)
  {
    var nothing: HeapIndex := map[];
    var before: map<string, nat> := map["rbac.authorization.k8s.io/User" := 1];
    AllGaugesAddUpExactly(before, after, nothing);
    assert "rbac.authorization.k8s.io/User" in before;
  }

  // ----- pairs by namespace -----

  ghost function DistinctPairs(pass: seq<Read>): nat {
    if pass == [] then 0 else DistinctPairs(pass[..|pass| - 1]) + |pass[|pass| - 1].subs|
  }

  ghost function EntrySize(pass: seq<Read>): Subject -> nat {
    s => |Entry(pass, s)|
  }

  /** Over any set of subjects that has all allowed ones, the entries of a pass have one element for
      every namespace and distinct allowed subject. */
  lemma {:induction false} EntriesCountPairs(pass: seq<Read>, a: set<Subject>)
    requires forall i :: 0 <= i < |pass| ==> pass[i].subs <= a
    ensures Sum(a, EntrySize(pass)) == DistinctPairs(pass)
  {
    if pass == [] {
      SumZero(a, EntrySize(pass));
    } else {
      var init, r := pass[..|pass| - 1], pass[|pass| - 1];
      EntriesCountPairs(init, a);
      SumOneHigher(a, r.subs, EntrySize(pass), EntrySize(init));
    }
  }

  /** An index that says what its pass produced has one pair for every namespace and distinct
      allowed subject. */
  lemma PairsCountThePass(h: Heap, idx: HeapIndex, pass: seq<Read>)
    requires IndexMatches(h, idx, pass)
    ensures Pairs(idx) == DistinctPairs(pass)
  {
    forall i, s | 0 <= i < |pass| && s in pass[i].subs ensures s in idx {
      EntryIsSubsequence(pass, s);
      assert i in Positions(pass, s);
    }
    assert forall i :: 0 <= i < |pass| ==> pass[i].subs <= idx.Keys;
    EntriesCountPairs(pass, idx.Keys);
    forall s | s in idx ensures Size(idx)(s) == EntrySize(pass)(s) {
      assert |ObjsView(h, idx[s])| == |idx[s]|;
    }
    SumEqual(idx.Keys, Size(idx), EntrySize(pass));
  }

  // ----- the collector -----

  datatype EventType = Added | Updated | Deleted

  datatype Event = TimeTriggered | OnResource(kind: EventType)

  /** The counter of label `l` goes up by one; a new one starts from zero. */
  function Bumped(counters: map<string, nat>, l: string): map<string, nat> {
    counters[l := (if l in counters then counters[l] else 0) + 1]
  }

  ghost function Counter(counters: map<string, nat>, l: string): nat {
    if l in counters then counters[l] else 0
  }

  class AccessCacheMetrics {
    var timeQueued: nat
    var timeSkipped: nat
    var resourceQueued: nat
    var resourceSkipped: nat
    var completed: nat
    var failed: map<string, nat>
    var completedDurations: seq<nat>
    var failedDurations: seq<nat>
    var subjects: nat
    var pairs: map<string, nat>

    constructor ()
      ensures timeQueued == timeSkipped == resourceQueued == resourceSkipped == completed == subjects == 0
      ensures failed == map[] && pairs == map[] && completedDurations == failedDurations == []
    {
      timeQueued, timeSkipped, resourceQueued, resourceSkipped := 0, 0, 0, 0;
      completed, failed, subjects, pairs := 0, map[], 0, map[];
      completedDurations, failedDurations := [], [];
    }

    method CollectRequestMetrics(event: Event, queued: bool)
      modifies `timeQueued, `timeSkipped, `resourceQueued, `resourceSkipped
      ensures timeQueued == old(timeQueued) + if event.TimeTriggered? && queued then 1 else 0
      ensures timeSkipped == old(timeSkipped) + if event.TimeTriggered? && !queued then 1 else 0
      ensures resourceQueued == old(resourceQueued) + if event.OnResource? && queued then 1 else 0
      ensures resourceSkipped == old(resourceSkipped) + if event.OnResource? && !queued then 1 else 0
    {
      match event
      case TimeTriggered =>
        if queued { timeQueued := timeQueued + 1; } else { timeSkipped := timeSkipped + 1; }
      case OnResource(_) =>
        if queued { resourceQueued := resourceQueued + 1; } else { resourceSkipped := resourceSkipped + 1; }
    }

    /** A failed run counts under its error and leaves the gauges as they were; a completed one
        sets the subject gauge and the pair gauges of the groups and kinds it has. The duration, in
        milliseconds, is observed under the outcome. */
    method CollectSynchMetrics(duration: nat, data: HeapIndex, err: Option<string>)
      modifies `completed, `failed, `subjects, `pairs, `completedDurations, `failedDurations
      ensures completedDurations == old(completedDurations) + if err.None? then [duration] else []
      ensures failedDurations == old(failedDurations) + if err.Some? then [duration] else []
      ensures err.Some? ==>
                && completed == old(completed) && subjects == old(subjects) && pairs == old(pairs)
                && failed == Bumped(old(failed), err.value)
                && forall l :: Counter(failed, l) == Counter(old(failed), l) + if l == err.value then 1 else 0
      ensures err.None? ==>
                && completed == old(completed) + 1 && failed == old(failed)
                && subjects == |data| && GaugesSet(old(pairs), pairs, data)
    {
      if err.Some? {
        failedDurations := failedDurations + [duration];
        failed := Bumped(failed, err.value);
        return;
      }
      completedDurations := completedDurations + [duration];
      completed := completed + 1;
      subjects := |data|;
      var counts := CountPairs(data);
      SetGauges(counts);
    }

    /** Ranging over a map takes its keys in any order. */
    static method CountPairs(data: HeapIndex) returns (counts: map<string, nat>)
      ensures forall gk :: gk in counts <==> gk in GroupKinds(data)
      ensures forall gk :: gk in counts ==> counts[gk] == PairsOf(data)(gk)
    {
      counts := map[];
      var rest := data.Keys;
      ghost var seen: set<Subject> := {};
      while rest != {}
        invariant forall s :: s in data <==> s in rest || s in seen
        invariant forall s :: s in rest ==> s !in seen
        invariant Counted(counts, seen, data)
        decreases |rest|
      {
        var s :| s in rest;
        CountedOneMore(counts, seen, s, data);
        var gk := GroupKind(s);
        counts := counts[gk := (if gk in counts then counts[gk] else 0) + |data[s]|];
        rest := rest - {s};
        seen := seen + {s};
      }
      assert seen == data.Keys;
    }

    method SetGauges(counts: map<string, nat>)
      modifies `pairs
      ensures forall gk :: gk in pairs <==> gk in old(pairs) || gk in counts
      ensures forall gk :: gk in pairs ==> pairs[gk] == if gk in counts then counts[gk] else old(pairs)[gk]
    {
      var rest := counts.Keys;
      while rest != {}
        invariant rest <= counts.Keys
        invariant forall gk :: gk in pairs <==> gk in old(pairs) || (gk in counts && gk !in rest)
        invariant forall gk :: gk in pairs ==>
                    pairs[gk] == if gk in counts && gk !in rest then counts[gk] else old(pairs)[gk]
        decreases |rest|
      {
        var gk :| gk in rest;
        pairs := pairs[gk := counts[gk]];
        rest := rest - {gk};
      }
    }
  }

  /** The counts of the subjects taken so far. */
  ghost predicate Counted(counts: map<string, nat>, seen: set<Subject>, data: HeapIndex) {
    && (forall gk :: gk in counts <==> gk in Classes(seen, GroupKind))
    && forall gk :: gk in counts ==> counts[gk] == Sum(Class(seen, GroupKind, gk), Size(data))
  }

  lemma CountedOneMore(counts: map<string, nat>, seen: set<Subject>, s: Subject, data: HeapIndex)
    requires Counted(counts, seen, data) && s !in seen && s in data
    ensures var gk := GroupKind(s);
            Counted(counts[gk := (if gk in counts then counts[gk] else 0) + |data[s]|], seen + {s}, data)
  {
    ClassGrows(seen, s, data);
  }

  /** One more subject adds its namespaces to the count of its group and kind, and to no other. */
  lemma ClassGrows(seen: set<Subject>, s: Subject, data: HeapIndex)
    requires s !in seen
    ensures Classes(seen + {s}, GroupKind) == Classes(seen, GroupKind) + {GroupKind(s)}
    ensures forall gk :: gk != GroupKind(s) ==> Class(seen + {s}, GroupKind, gk) == Class(seen, GroupKind, gk)
    ensures Sum(Class(seen + {s}, GroupKind, GroupKind(s)), Size(data))
            == Sum(Class(seen, GroupKind, GroupKind(s)), Size(data)) + Size(data)(s)
    ensures GroupKind(s) !in Classes(seen, GroupKind) ==>
              Sum(Class(seen, GroupKind, GroupKind(s)), Size(data)) == 0
  {
    var gk := GroupKind(s);
    forall g | g != gk ensures Class(seen + {s}, GroupKind, g) == Class(seen, GroupKind, g) {}
    assert Class(seen + {s}, GroupKind, gk) == Class(seen, GroupKind, gk) + {s};
    SumAdd(Class(seen, GroupKind, gk), Size(data), s);
    if gk !in Classes(seen, GroupKind) {
      assert Class(seen, GroupKind, gk) == {};
    }
  }
}
