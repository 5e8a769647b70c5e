/** Whole histories of one index. */
module Runs {
  import opened Types
  import opened Ranking
  import opened Ranked
  import opened Graph
  import opened GraphInvariant
  import opened Answers

  datatype Op =
    | AddOp(vid: string, vec: Vec, meta: Option<Meta>, level: nat)
    | DeleteOp(vid: string)

  /** One operation, including the ones that are refused and change nothing. */
  ghost predicate Step(metric: Metric, s: Index, op: Op, s': Index)
    requires Inv(s)
  {
    match op
    case AddOp(vid, vec, meta, level) =>
      if |vec| != s.dim || vid in s.idMap then s' == s else Added(metric, s, vid, vec, meta, level, s')
    case DeleteOp(vid) => s' == Deleted(s, vid)
  }

  /** `states` is what a history of `ops` on a new index may go through, for any drawn levels and any choice
      among ties. */
  ghost predicate Run(metric: Metric, states: seq<Index>, ops: seq<Op>) {
    && |states| == |ops| + 1
    && 1 <= states[0].dim && 2 <= states[0].M <= states[0].efc
    && states[0] == EmptyIndex(states[0].dim, states[0].M, states[0].efc)
    && forall i :: 0 <= i < |ops| ==> (Inv(states[i]) ==> Step(metric, states[i], ops[i], states[i + 1]))
  }

  lemma StepKeepsInv(metric: Metric, s: Index, op: Op, s': Index)
    requires Inv(s) && Step(metric, s, op, s')
    ensures Inv(s')
  {
    hide Added, Inv, Deleted;
    match op
    case AddOp(vid, vec, meta, level) =>
      if |vec| == s.dim && vid !in s.idMap {
        AddKeepsInv(metric, s, vid, vec, meta, level, s');
      }
    case DeleteOp(vid) =>
      DeleteKeepsInv(s, vid);
  }

  /** The graph invariant holds throughout every run. */
  lemma {:induction false} RunKeepsInv(metric: Metric, states: seq<Index>, ops: seq<Op>, i: nat)
    requires Run(metric, states, ops) && i < |states|
    ensures Inv(states[i])
  {
    if i == 0 {
      EmptyInv(states[0].dim, states[0].M, states[0].efc);
    } else {
      hide Inv, Step;
      RunKeepsInv(metric, states, ops, i - 1);
      StepKeepsInv(metric, states[i - 1], ops[i - 1], states[i]);
    }
  }

  lemma EmptyInv(dim: nat, M: nat, efc: nat)
    requires 1 <= dim && 2 <= M <= efc
    ensures Inv(EmptyIndex(dim, M, efc))
  {
  }

  /** The invariant in plain terms. In every run: edges lead to other nodes of their layer; a node that is not alone on a
      layer has an edge there; no level is above the top layer, which is the entry point's; internal ids count up from 0
      and stand one to one with the ids given by callers; only nodes are tombstoned. */
  lemma RunPlain(metric: Metric, states: seq<Index>, ops: seq<Op>, n: nat, i: nat, j: nat, l: nat)
    requires Run(metric, states, ops) && n < |states| && i in states[n].nodes
    ensures var s := states[n];
            && (j in s.nodes[i].Nbrs(l) ==> j != i && j in s.nodes && l <= s.nodes[j].level && l <= s.nodes[i].level)
            && (j in s.nodes && j != i && l <= s.nodes[i].level && l <= s.nodes[j].level ==> exists x :: x in s.nodes[i].Nbrs(l))
            && s.nodes[i].level <= s.maxLayer && s.entry.Some? && s.entry.value in s.nodes && s.nodes[s.entry.value].level == s.maxLayer
            && (forall x: nat :: x in s.nodes <==> x < s.nextId) && s.deleted <= s.nodes.Keys
            && s.nodes[i].vid in s.idMap && s.idMap[s.nodes[i].vid] == i
            && forall v :: v in s.idMap ==> s.idMap[v] in s.nodes && s.nodes[s.idMap[v]].vid == v
  {
    RunKeepsInv(metric, states, ops, n);
    hide Run, DegreesOk, ShapeOk;
    var s := states[n];
    if j in s.nodes[i].Nbrs(l) {
      assert Edge(s.nodes, i, l, j);
      assert s.nodes[i].Shaped();
    }
    if j in s.nodes && j != i && l <= s.nodes[i].level && l <= s.nodes[j].level {
      assert Together(s.nodes, i, j, l);
      var x :| x in s.nodes[i].Nbrs(l);
    }
  }

  // ---------- the entry point ----------

  /** The entry point is the oldest node of the top level. */
  ghost predicate OldestAtTop(s: Index) {
    forall i :: i in s.nodes && s.nodes[i].level == s.maxLayer ==> s.entry.Some? && s.entry.value <= i
  }

  lemma AddedTop(metric: Metric, s: Index, vid: string, vec: Vec, meta: Option<Meta>, level: nat, s': Index)
    requires Inv(s) && Added(metric, s, vid, vec, meta, level, s')
    ensures s'.entry == if s.entry.None? || level > s.maxLayer then Some(s.nextId) else s.entry
    ensures s'.maxLayer == if s.entry.None? then level else Max(level, s.maxLayer)
  {
    hide Inv, Descended, InsertedDown;
    if s.entry.Some? {
      var ep1, nodes', ep2 := AddedFrom(metric, s, vid, vec, meta, level, s');
    }
  }

  lemma OldestStays(metric: Metric, s: Index, op: Op, s': Index)
    requires Inv(s) && OldestAtTop(s) && Step(metric, s, op, s')
    ensures OldestAtTop(s')
  {
    hide Inv, Added, Registered, SameButEdges;
    match op
    case AddOp(vid, vec, meta, level) =>
      if |vec| == s.dim && vid !in s.idMap {
        AddedTop(metric, s, vid, vec, meta, level, s');
        AddedFrame(metric, s, vid, vec, meta, level, s');
        OldestKept(s, vid, vec, meta, level, s');
      }
    case DeleteOp(vid) =>
  }

  lemma OldestKept(s: Index, vid: string, vec: Vec, meta: Option<Meta>, level: nat, s': Index)
    requires Inv(s) && OldestAtTop(s) && SameButEdges(Registered(s, vid, vec, meta, level).nodes, s'.nodes)
    requires s'.entry == if s.entry.None? || level > s.maxLayer then Some(s.nextId) else s.entry
    requires s'.maxLayer == if s.entry.None? then level else Max(level, s.maxLayer)
    ensures OldestAtTop(s')
  {
    hide EdgesOk, DegreesOk, NoDeadEnds, ShapeOk;
  }

  /** In every run the entry point is a node of the highest level ever drawn, the first one added with it: a later node of
      the same level does not replace it. */
  lemma {:induction false} EntryIsOldest(metric: Metric, states: seq<Index>, ops: seq<Op>, n: nat, i: nat)
    requires Run(metric, states, ops) && n < |states| && i in states[n].nodes
    ensures var s := states[n];
            && s.entry.Some? && s.entry.value in s.nodes && s.nodes[i].level <= s.nodes[s.entry.value].level
            && (s.nodes[i].level == s.nodes[s.entry.value].level ==> s.entry.value <= i)
  {
    RunKeepsInv(metric, states, ops, n);
    RunOldest(metric, states, ops, n);
    hide Run, EdgesOk, DegreesOk, NoDeadEnds, IdsOk, ShapeOk;
  }

  lemma {:induction false} RunOldest(metric: Metric, states: seq<Index>, ops: seq<Op>, n: nat)
    requires Run(metric, states, ops) && n < |states|
    ensures OldestAtTop(states[n])
  {
    if n > 0 {
      hide Inv, Step, OldestAtTop;
      RunKeepsInv(metric, states, ops, n - 1);
      RunOldest(metric, states, ops, n - 1);
      OldestStays(metric, states[n - 1], ops[n - 1], states[n]);
    }
  }

  // ---------- contents ----------

  /** What the caller has stored, with its metadata, and every id ever used (a deleted id stays taken). */
  datatype Contents = Contents(live: map<string, Vec>, metas: map<string, Option<Meta>>, used: set<string>)

  const NO_CONTENTS := Contents(map[], map[], {})

  function Apply(dim: nat, c: Contents, op: Op): Contents {
    match op
    case AddOp(vid, vec, meta, level) =>
      if |vec| != dim || vid in c.used then c else Contents(c.live[vid := vec], c.metas[vid := meta], c.used + {vid})
    case DeleteOp(vid) => Contents(c.live - {vid}, c.metas - {vid}, c.used)
  }

  function ContentsAfter(dim: nat, ops: seq<Op>): Contents {
    if ops == [] then NO_CONTENTS else Apply(dim, ContentsAfter(dim, ops[..|ops| - 1]), ops[|ops| - 1])
  }

  ghost function LiveMeta(s: Index): map<string, Option<Meta>>
    requires Inv(s)
  {
    map v | v in s.idMap && s.idMap[v] !in s.deleted :: s.nodes[s.idMap[v]].meta
  }

  ghost function ContentsOf(s: Index): Contents
    requires Inv(s)
  {
    Contents(Live(s), LiveMeta(s), s.idMap.Keys)
  }

  /** Nodes keep their ids and vectors for good; only edges move. */
  lemma AddedFrame(metric: Metric, s: Index, vid: string, vec: Vec, meta: Option<Meta>, level: nat, s': Index)
    requires Inv(s) && |vec| == s.dim && vid !in s.idMap && Added(metric, s, vid, vec, meta, level, s')
    ensures SameButEdges(Registered(s, vid, vec, meta, level).nodes, s'.nodes)
    ensures s'.idMap == s.idMap[vid := s.nextId] && s'.deleted == s.deleted && s'.dim == s.dim && s'.M == s.M && s'.efc == s.efc
  {
    hide *;
    if s.entry.None? {
      FirstFrame(metric, s, vid, vec, meta, level, s');
    } else {
      var b, from := Registered(s, vid, vec, meta, level).nodes, Min(level, s.maxLayer);
      var ep1, nodes', ep2 := AddedFrom(metric, s, vid, vec, meta, level, s');
      ReadyToInsert(metric, s, vid, vec, meta, level, ep1);
      AtLeastTwo(s);
      InsertedDownKeeps(metric, s.M, s.efc, s.deleted, s.nextId, b, ep1, from, 0, nodes', ep2);
      FinishedFrame(s, vid, vec, meta, level, nodes', ep2, s');
    }
  }

  lemma FirstFrame(metric: Metric, s: Index, vid: string, vec: Vec, meta: Option<Meta>, level: nat, s': Index)
    requires Inv(s) && s.entry.None? && Added(metric, s, vid, vec, meta, level, s')
    ensures SameButEdges(Registered(s, vid, vec, meta, level).nodes, s'.nodes)
    ensures s'.idMap == s.idMap[vid := s.nextId] && s'.deleted == s.deleted && s'.dim == s.dim && s'.M == s.M && s'.efc == s.efc
  {
  }

  lemma FinishedFrame(s: Index, vid: string, vec: Vec, meta: Option<Meta>, level: nat, nodes': Nodes, ep2: nat, s': Index)
    requires Finished(s, vid, vec, meta, level, nodes', s')
    requires Progress(Registered(s, vid, vec, meta, level).nodes, s.M, s.nextId, Min(level, s.maxLayer), 0, nodes', ep2)
    ensures SameButEdges(Registered(s, vid, vec, meta, level).nodes, s'.nodes)
    ensures s'.idMap == s.idMap[vid := s.nextId] && s'.deleted == s.deleted && s'.dim == s.dim && s'.M == s.M && s'.efc == s.efc
  {
  }

  lemma StepContents(metric: Metric, s: Index, op: Op, s': Index)
    requires Inv(s) && Step(metric, s, op, s') && Inv(s')
    ensures ContentsOf(s') == Apply(s.dim, ContentsOf(s), op) && s'.dim == s.dim && s'.M == s.M
  {
    hide Inv, Added, Live, LiveMeta, Registered, SameButEdges;
    match op
    case AddOp(vid, vec, meta, level) =>
      if |vec| == s.dim && vid !in s.idMap {
        AddedFrame(metric, s, vid, vec, meta, level, s');
        AddedContents(s, vid, vec, meta, level, s');
        AddedMeta(s, vid, vec, meta, level, s');
      }
    case DeleteOp(vid) =>
      DeletedContents(s, vid);
  }

  lemma AddedContents(s: Index, vid: string, vec: Vec, meta: Option<Meta>, level: nat, s': Index)
    requires Inv(s) && Inv(s') && vid !in s.idMap && SameButEdges(Registered(s, vid, vec, meta, level).nodes, s'.nodes)
    requires s'.idMap == s.idMap[vid := s.nextId] && s'.deleted == s.deleted
    ensures Live(s') == Live(s)[vid := vec]
  {
    hide EdgesOk, DegreesOk, NoDeadEnds, EntryOk, ShapeOk;
    assert s.nextId !in s.deleted;
  }

  lemma AddedMeta(s: Index, vid: string, vec: Vec, meta: Option<Meta>, level: nat, s': Index)
    requires Inv(s) && Inv(s') && vid !in s.idMap && SameButEdges(Registered(s, vid, vec, meta, level).nodes, s'.nodes)
    requires s'.idMap == s.idMap[vid := s.nextId] && s'.deleted == s.deleted
    ensures LiveMeta(s') == LiveMeta(s)[vid := meta]
  {
    hide EdgesOk, DegreesOk, NoDeadEnds, EntryOk, ShapeOk;
    assert s.nextId !in s.deleted;
  }

  lemma DeletedContents(s: Index, vid: string)
    requires Inv(s) && Inv(Deleted(s, vid))
    ensures Live(Deleted(s, vid)) == Live(s) - {vid} && LiveMeta(Deleted(s, vid)) == LiveMeta(s) - {vid}
  {
    hide EdgesOk, DegreesOk, NoDeadEnds, EntryOk, ShapeOk;
    var s' := Deleted(s, vid);
    assert forall v :: v in s.idMap && vid in s.idMap && s.idMap[v] == s.idMap[vid] ==> v == vid;
  }

  /** After any history the index holds what was added and not deleted, under the vectors first given. */
  lemma {:induction false} RunContents(metric: Metric, states: seq<Index>, ops: seq<Op>, n: nat)
    requires Run(metric, states, ops) && n < |states|
    ensures Inv(states[n]) && states[n].dim == states[0].dim && states[n].M == states[0].M
    ensures ContentsOf(states[n]) == ContentsAfter(states[0].dim, ops[..n])
  {
    RunKeepsInv(metric, states, ops, n);
    if n == 0 {
    } else {
      hide Inv, Step;
      RunContents(metric, states, ops, n - 1);
      StepContents(metric, states[n - 1], ops[n - 1], states[n]);
      assert ops[..n][..n - 1] == ops[..n - 1] && ops[..n][n - 1] == ops[n - 1];
    }
  }

  /** A deleted id stays taken and dead in every continuation. */
  lemma {:induction false} DeadStaysDead(dim: nat, ops: seq<Op>, vid: string, i: nat)
    requires i < |ops| && ops[i] == DeleteOp(vid) && vid in ContentsAfter(dim, ops[..i]).used
    ensures vid in ContentsAfter(dim, ops).used && vid !in ContentsAfter(dim, ops).live
  {
    var n := |ops|;
    var front := ops[..n - 1];
    if i < n - 1 {
      assert front[..i] == ops[..i];
      DeadStaysDead(dim, front, vid, i);
    }
  }

  /** Once deleted, an id is never returned again, whatever happens afterwards. */
  lemma NeverReturnedAgain(metric: Metric, states: seq<Index>, ops: seq<Op>, vid: string, i: nat, j: nat,
                           q: Vec, k: nat, ef: Option<int>, filter: Option<Filter>, res: seq<(string, real)>)
    requires Run(metric, states, ops) && i < j < |states|
    requires ops[i] == DeleteOp(vid) && vid in states[i].idMap
    requires Inv(states[j]) && Searched(metric, states[j], q, k, ef, filter, res)
    ensures vid !in Ids(res)
  {
    hide *;
    StatesLongEnough(metric, states, ops);
    RunContents(metric, states, ops, i);
    RunContents(metric, states, ops, j);
    assert ops[..j][..i] == ops[..i];
    ContentsFields(states[i]);
    ContentsFields(states[j]);
    DeadStaysDead(states[0].dim, ops[..j], vid, i);
    SearchSound(metric, states[j], q, k, ef, filter, res);
    AnswersLive(metric, states[j], q, filter);
    ReportedIds(AnswerDist(metric, states[j], q, filter), res);
  }

  lemma StatesLongEnough(metric: Metric, states: seq<Index>, ops: seq<Op>)
    requires Run(metric, states, ops)
    ensures |states| == |ops| + 1
  {
  }

  lemma ContentsFields(s: Index)
    requires Inv(s)
    ensures ContentsOf(s).live == Live(s) && ContentsOf(s).metas == LiveMeta(s) && ContentsOf(s).used == s.idMap.Keys
  {
  }

  lemma ReportedIds<K(!new)>(d: map<K, real>, xs: seq<(K, real)>)
    requires Reports(d, xs)
    ensures Ids(xs) <= d.Keys
  {
  }

  lemma AnswersLive(metric: Metric, s: Index, q: Vec, filter: Option<Filter>)
    requires Inv(s)
    ensures AnswerDist(metric, s, q, filter).Keys <= Live(s).Keys
  {
  }

  // ---------- what may be answered ----------

  /** A filter sees an absent record as an empty one. */
  predicate PassesFilter(c: Contents, filter: Option<Filter>, v: string) {
    filter.None? || (v in c.metas && filter.value(MetaOrEmpty(c.metas[v])))
  }

  /** The distances of everything stored that satisfies the filter. */
  ghost function ContentsDist(metric: Metric, c: Contents, q: Vec, filter: Option<Filter>): map<string, real> {
    map v | v in c.live && PassesFilter(c, filter, v) :: metric(q, c.live[v])
  }

  lemma AnswersOfContents(metric: Metric, s: Index, q: Vec, filter: Option<Filter>)
    requires Inv(s)
    ensures AnswerDist(metric, s, q, filter) == ContentsDist(metric, ContentsOf(s), q, filter)
  {
  }

  lemma UnfilteredDist(metric: Metric, c: Contents, q: Vec)
    ensures ContentsDist(metric, c, q, None) == LiveDist(metric, c.live, q)
  {
  }
}
