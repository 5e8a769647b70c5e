/** Life after loading: an index read back from its file answers and evolves as the original would have. */
module Reload {
  import opened Types
  import opened Ranking
  import opened BeamLoop
  import opened Graph
  import opened Wiring
  import opened Answers
  import opened Determined
  import opened Runs
  import opened Format
  import opened Saved
  import opened Echo

  /** What a file of version `version` changes in the records. */
  function Kepts(version: nat, nodes: Nodes): Records { map i | i in nodes :: Kept(version, nodes[i].meta) }

  lemma RestoredSwaps(version: nat, s: Index)
    ensures Restored(version, s) == Swapped(s, Kepts(version, s.nodes))
  {
    assert Restored(version, s).nodes == WithMeta(s.nodes, Kepts(version, s.nodes));
  }

  /** What loads satisfies the graph invariant; under version 2 no search can tell it from the original. */
  lemma RestoredInv(version: nat, s: Index)
    requires Inv(s)
    ensures Inv(Restored(version, s))
    ensures version >= 2 ==> SameSearch(s, Restored(version, s))
    ensures version == 1 ==> forall i :: i in s.nodes ==> Restored(version, s).nodes[i].meta == None
  {
    EchoInv(s, Kepts(version, s.nodes));
    RestoredSwaps(version, s);
  }

  // ---------- searching ----------

  lemma EchoSearched(metric: Metric, s: Index, ms: Records, q: Vec, k: nat, ef: Option<int>, filter: Option<Filter>, res: seq<(string, real)>)
    requires Inv(s) && Inv(Swapped(s, ms)) && (filter.None? || SameRead(s.nodes, ms))
    requires Searched(metric, s, q, k, ef, filter, res)
    ensures Searched(metric, Swapped(s, ms), q, k, ef, filter, res)
  {
    if s.entry.Some? {
      hide *;
      InvParts(s);
      InvParts(Swapped(s, ms));
      SwappedFields(s, ms);
      var t := Swapped(s, ms);
      var ep, found, xs := AnswerWalk(metric, s, q, k, ef, filter, res);
      EchoDescended(metric, s.nodes, ms, s.deleted, q, s.entry.value, s.maxLayer, 0, ep);
      EchoWalked(metric, s.nodes, ms, s.deleted, filter, q, ep, EffectiveEf(k, s.efc, ef), 0, found);
      EchoDist(metric, s.nodes, ms, q);
      EchoEligible(s.nodes, ms, s.deleted, filter, found);
      EchoNamed(s.nodes, ms, xs, res);
      SearchedBy(metric, t, q, k, ef, filter, ep, found, xs, res);
    } else {
      hide EdgesOk, DegreesOk, NoDeadEnds;
    }
  }

  lemma SwappedFields(s: Index, ms: Records)
    ensures var t := Swapped(s, ms);
            && t.nodes == WithMeta(s.nodes, ms) && t.nodes.Keys == s.nodes.Keys && t.deleted == s.deleted && t.entry == s.entry
            && t.maxLayer == s.maxLayer && t.efc == s.efc
  {
  }

  lemma EchoWalked(metric: Metric, nodes: Nodes, ms: Records, deleted: set<nat>, filter: Option<Filter>, q: Vec, ep: nat, ef: int, l: nat, found: set<nat>)
    requires EdgesOk(nodes) && EdgesOk(WithMeta(nodes, ms)) && ep in nodes && (filter.None? || SameRead(nodes, ms))
    requires Walked(metric, nodes, deleted, filter, q, ep, ef, l, found)
    ensures Walked(metric, WithMeta(nodes, ms), deleted, filter, q, ep, ef, l, found)
  {
    hide EdgesOk, LayerWalk, Outcome;
    EchoWalk(metric, nodes, ms, deleted, filter, q, l);
  }

  lemma EchoEligible(nodes: Nodes, ms: Records, deleted: set<nat>, filter: Option<Filter>, found: set<nat>)
    requires found <= nodes.Keys && (filter.None? || SameRead(nodes, ms))
    ensures EligibleIn(WithMeta(nodes, ms), deleted, filter, found) == EligibleIn(nodes, deleted, filter, found)
  {
  }

  lemma EchoNamed(nodes: Nodes, ms: Records, xs: seq<(nat, real)>, res: seq<(string, real)>)
    requires Named(nodes, xs, res)
    ensures Named(WithMeta(nodes, ms), xs, res)
  {
  }

  lemma InvParts(s: Index)
    requires Inv(s)
    ensures EdgesOk(s.nodes) && (s.entry.Some? ==> s.entry.value in s.nodes)
  {
  }

  /** The original records of the nodes whose records were replaced. */
  function Back(nodes: Nodes, ms: Records): Records { map i | i in nodes && i in ms :: nodes[i].meta }

  lemma SwapBack(s: Index, ms: Records)
    ensures Swapped(Swapped(s, ms), Back(s.nodes, ms)) == s
  {
    assert Swapped(Swapped(s, ms), Back(s.nodes, ms)).nodes == s.nodes;
  }

  /** The two may answer exactly the same lists, ties and all. */
  lemma SearchEchoes(metric: Metric, s: Index, ms: Records, q: Vec, k: nat, ef: Option<int>, filter: Option<Filter>, res: seq<(string, real)>)
    requires Inv(s) && Inv(Swapped(s, ms)) && (filter.None? || SameRead(s.nodes, ms))
    ensures Searched(metric, s, q, k, ef, filter, res) <==> Searched(metric, Swapped(s, ms), q, k, ef, filter, res)
  {
    var t, back := Swapped(s, ms), Back(s.nodes, ms);
    assert SameRead(s.nodes, ms) ==> SameRead(t.nodes, back);
    SwapBack(s, ms);
    hide Searched, Inv, Swapped;
    if Searched(metric, s, q, k, ef, filter, res) {
      EchoSearched(metric, s, ms, q, k, ef, filter, res);
    }
    if Searched(metric, t, q, k, ef, filter, res) {
      EchoSearched(metric, t, back, q, k, ef, filter, res);
    }
  }

  // ---------- whole continuations ----------

  /** `states` is what the index `states[0]` may go through under `ops`. */
  ghost predicate History(metric: Metric, states: seq<Index>, ops: seq<Op>) {
    && |states| == |ops| + 1
    && Inv(states[0])
    && forall i :: 0 <= i < |ops| ==> (Inv(states[i]) ==> Step(metric, states[i], ops[i], states[i + 1]))
  }

  /** What a history keeps: the invariant, and the records of the nodes present at its start. */
  lemma {:induction false} HistoryKeeps(metric: Metric, states: seq<Index>, ops: seq<Op>, i: nat)
    requires History(metric, states, ops) && i < |states|
    ensures Inv(states[i]) && states[0].nodes.Keys <= states[i].nodes.Keys
    ensures forall n :: n in states[0].nodes ==> states[i].nodes[n].meta == states[0].nodes[n].meta
  {
    if i > 0 {
      hide Inv, Step;
      HistoryKeeps(metric, states, ops, i - 1);
      StepKeepsInv(metric, states[i - 1], ops[i - 1], states[i]);
      StepKeepsMeta(metric, states[i - 1], ops[i - 1], states[i]);
    }
  }

  lemma StepKeepsMeta(metric: Metric, s: Index, op: Op, s': Index)
    requires Inv(s) && Step(metric, s, op, s')
    ensures s.nodes.Keys <= s'.nodes.Keys
    ensures forall n :: n in s.nodes ==> s'.nodes[n].meta == s.nodes[n].meta
  {
    hide Added, EdgesOk, DegreesOk, NoDeadEnds, EntryOk;
    match op
    case AddOp(vid, vec, meta, level) =>
      if |vec| == s.dim && vid !in s.idMap {
        AddedFrame(metric, s, vid, vec, meta, level, s');
        assert s.nextId !in s.nodes;
      }
    case DeleteOp(vid) =>
  }

  function SwapAll(states: seq<Index>, ms: Records): (r: seq<Index>)
    ensures |r| == |states| && forall i :: 0 <= i < |r| ==> r[i] == Swapped(states[i], ms)
  {
    seq(|states|, i requires 0 <= i < |states| => Swapped(states[i], ms))
  }

  lemma HistoryEchoes(metric: Metric, states: seq<Index>, ops: seq<Op>, ms: Records)
    requires History(metric, states, ops) && ms.Keys <= states[0].nodes.Keys
    ensures History(metric, SwapAll(states, ms), ops)
  {
    hide Inv, Step, Swapped;
    EchoInv(states[0], ms);
    forall i | 0 <= i < |ops| ensures Inv(Swapped(states[i], ms)) && Step(metric, Swapped(states[i], ms), ops[i], Swapped(states[i + 1], ms)) {
      HistoryKeeps(metric, states, ops, i);
      EchoInv(states[i], ms);
      EchoStep(metric, states[i], ms, ops[i], states[i + 1]);
    }
  }

  /** Every future of the loaded index is the image of a future of the original, and conversely. */
  lemma SameFutures(metric: Metric, version: nat, s: Index, ops: seq<Op>, loaded: seq<Index>)
    requires Inv(s) && |loaded| > 0 && loaded[0] == Restored(version, s)
    ensures History(metric, loaded, ops) <==>
      exists states :: loaded == SwapAll(states, Kepts(version, s.nodes)) && states[0] == s && History(metric, states, ops)
  {
    hide *;
    RestoredSwaps(version, s);
    KeptsDomain(version, s.nodes);
    if History(metric, loaded, ops) {
      var states := FuturesBack(metric, s, Kepts(version, s.nodes), ops, loaded);
    }
    if states :| loaded == SwapAll(states, Kepts(version, s.nodes)) && states[0] == s && History(metric, states, ops) {
      HistoryEchoes(metric, states, ops, Kepts(version, s.nodes));
    }
  }

  lemma CurrentRestored(s: Index)
    requires Inv(s)
    ensures Inv(Restored(CURRENT, s)) && SameSearch(s, Restored(CURRENT, s))
  {
    hide Inv, SameSearch, Restored;
    RestoredInv(CURRENT, s);
  }

  lemma KeptsReadLater(nodes: Nodes, later: Nodes)
    requires nodes.Keys <= later.Keys && forall n :: n in nodes ==> later[n].meta == nodes[n].meta
    ensures SameRead(later, Kepts(CURRENT, nodes))
  {
  }

  lemma KeptsRead(nodes: Nodes)
    ensures SameRead(nodes, Kepts(CURRENT, nodes))
  {
  }

  lemma KeptsDomain(version: nat, nodes: Nodes)
    ensures Kepts(version, nodes).Keys == nodes.Keys
  {
  }

  lemma FuturesBack(metric: Metric, s: Index, ms: Records, ops: seq<Op>, loaded: seq<Index>) returns (states: seq<Index>)
    requires ms.Keys <= s.nodes.Keys && History(metric, loaded, ops) && loaded[0] == Swapped(s, ms)
    ensures History(metric, states, ops) && states[0] == s && loaded == SwapAll(states, ms)
  {
    var back := Back(s.nodes, ms);
    states := SwapAll(loaded, back);
    SwapBack(s, ms);
    assert back.Keys <= loaded[0].nodes.Keys && |loaded| == |ops| + 1;
    forall i | 0 <= i < |loaded| ensures Swapped(Swapped(loaded[i], back), ms) == loaded[i] {
      HistoryKeeps(metric, loaded, ops, i);
      KeptMeta(s, ms, loaded[0], loaded[i]);
    }
    hide History, Swapped, Back;
    HistoryEchoes(metric, loaded, ops, back);
    assert loaded == SwapAll(states, ms);
  }

  lemma KeptMeta(s: Index, ms: Records, t0: Index, t: Index)
    requires ms.Keys <= s.nodes.Keys && t0 == Swapped(s, ms) && t0.nodes.Keys <= t.nodes.Keys
    requires forall n :: n in t0.nodes ==> t.nodes[n].meta == t0.nodes[n].meta
    ensures Swapped(Swapped(t, Back(s.nodes, ms)), ms) == t
  {
    assert Swapped(Swapped(t, Back(s.nodes, ms)), ms).nodes == t.nodes;
  }

  /** After any further history on both, a search may answer the same lists on both. */
  lemma SearchesAlikeForever(metric: Metric, s: Index, states: seq<Index>, ops: seq<Op>, i: nat,
                             q: Vec, k: nat, ef: Option<int>, filter: Option<Filter>, res: seq<(string, real)>)
    requires History(metric, states, ops) && states[0] == s && i < |states|
    ensures var t := Swapped(states[i], Kepts(CURRENT, s.nodes));
            Inv(states[i]) && Inv(t) && (Searched(metric, states[i], q, k, ef, filter, res) <==> Searched(metric, t, q, k, ef, filter, res))
  {
    hide *;
    var ms := Kepts(CURRENT, s.nodes);
    HistoryKeeps(metric, states, ops, i);
    EchoInv(states[i], ms);
    KeptsReadLater(s.nodes, states[i].nodes);
    SearchEchoes(metric, states[i], ms, q, k, ef, filter, res);
  }

  /** Where distances are distinct, the loaded index answers every search with the very list the original does. */
  lemma ReloadAnswersTheSame(c: Codec, metric: Metric, s: Index, img: Image, t: Index, q: Vec, k: nat, ef: Option<int>, filter: Option<Filter>,
                             r1: seq<(string, real)>, r2: seq<(string, real)>)
    requires Faithful(c) && Inv(s) && FitsFile(c, s) && Depicts(c, s, img) && Load(c, Print(CURRENT, img)) == Ok(t)
    requires Distinct(DistFrom(metric, s.nodes, q)) && Searched(metric, s, q, k, ef, filter, r1)
    ensures Inv(t) && (Searched(metric, t, q, k, ef, filter, r2) <==> r2 == r1)
  {
    hide Load, Faithful, Inv, FitsFile, Depicts, Searched, Distinct, Restored, Print;
    assert Supported(CURRENT);
    RoundTrip(c, CURRENT, s, img);
    assert t == Restored(CURRENT, s);
    ReloadedAnswers(metric, s, t, q, k, ef, filter, r1, r2);
  }

  lemma ReloadedAnswers(metric: Metric, s: Index, t: Index, q: Vec, k: nat, ef: Option<int>, filter: Option<Filter>,
                        r1: seq<(string, real)>, r2: seq<(string, real)>)
    requires Inv(s) && t == Restored(CURRENT, s) && Distinct(DistFrom(metric, s.nodes, q)) && Searched(metric, s, q, k, ef, filter, r1)
    ensures Inv(t) && (Searched(metric, t, q, k, ef, filter, r2) <==> r2 == r1)
  {
    hide *;
    KeptsRead(s.nodes);
    CurrentRestored(s);
    RestoredSwaps(CURRENT, s);
    SearchEchoes(metric, s, Kepts(CURRENT, s.nodes), q, k, ef, filter, r1);
    if Searched(metric, t, q, k, ef, filter, r2) {
      SearchDetermined(metric, s, t, q, k, ef, filter, r1, r2);
    }
  }
}
