/** Small indexes are exact.

    A wide enough search of a connected layer 0 with nothing tombstoned misses nothing, and layer 0 is connected
    until it first prunes. */
module SmallIndex {
  import opened Types
  import opened Ranking
  import opened Ranked
  import opened Beam
  import opened BeamLoop
  import opened Graph
  import opened GraphInvariant
  import opened Answers
  import opened Runs
  import opened LayerShape

  // ---------- exactness of a connected layer ----------

  /** A walk of a connected layer with nothing excluded fills its beam or finds everything. */
  lemma ConnectedWalk(metric: Metric, nodes: Nodes, q: Vec, ep: nat, ef: int, found: set<nat>)
    requires EdgesOk(nodes) && ep in nodes && Connected(nodes, 0)
    requires Walked(metric, nodes, {}, None, q, ep, ef, 0, found)
    ensures found <= nodes.Keys && |found| == Min(Width(ef), |nodes|) && (|nodes| <= ef ==> found == nodes.Keys)
  {
    hide Outcome, Explored;
    var w := LayerWalk(metric, nodes, {}, None, q, 0);
    LayerWalkValid(metric, nodes, {}, None, q, 0);
    OutcomeBasics(w, ep, ef, found);
    SubsetSize({ep}, nodes.Keys);
    SubsetSize(found, nodes.Keys);
    if |found| < Width(ef) {
      var done := OutcomeExplored(w, ep, ef, found);
      forall i: nat, j: nat | i in found && Edge(nodes, i, 0, j) ensures j in found {
        NeighboursAccounted(w, ep, ef, done, found, i, j);
      }
      BottomIsAll(nodes);
      assert Closed(nodes, 0, found);
    }
  }

  /** How long an answer is when nothing is excluded and layer 0 is connected: without `ef`, or with 0, as long as asked
      for; with any other `ef`, no longer than that. */
  lemma AnswerSize(metric: Metric, s: Index, q: Vec, k: nat, ef: Option<int>, res: seq<(string, real)>)
    requires Inv(s) && s.deleted == {} && Connected(s.nodes, 0) && Searched(metric, s, q, k, ef, None, res)
    ensures ef == None || ef == Some(0) ==> |res| == Min(k, |s.nodes|)
    ensures ef.Some? && ef.value != 0 ==> |res| == Min(k, Min(Max(1, ef.value), |s.nodes|))
  {
    SizeByWidth(metric, s, q, k, ef, res);
  }

  lemma SizeByWidth(metric: Metric, s: Index, q: Vec, k: nat, ef: Option<int>, res: seq<(string, real)>)
    requires Inv(s) && s.deleted == {} && Connected(s.nodes, 0) && Searched(metric, s, q, k, ef, None, res)
    ensures |res| == Min(k, Min(Width(EffectiveEf(k, s.efc, ef)), |s.nodes|))
  {
    hide *;
    if s.entry.Some? {
      var ep, found, xs := AnswerWalk(metric, s, q, k, ef, None, res);
      InvEdges(s);
      ConnectedWalk(metric, s.nodes, q, ep, EffectiveEf(k, s.efc, ef), found);
      EligibleAreFound(metric, s, q, None, found);
      AllRankedSize(metric, s, q, k, found, xs);
      NamedSize(s.nodes, xs, res);
    } else {
      NothingAnswered(metric, s, q, k, ef, res);
    }
  }

  lemma AllRankedSize(metric: Metric, s: Index, q: Vec, k: nat, found: set<nat>, xs: seq<(nat, real)>)
    requires s.deleted == {} && found <= s.nodes.Keys
    requires EligibleIn(s.nodes, s.deleted, None, found) <= DistFrom(metric, s.nodes, q).Keys
    requires IsRanking(DistFrom(metric, s.nodes, q), EligibleIn(s.nodes, s.deleted, None, found), k, xs)
    ensures |xs| == Min(k, |found|)
  {
    assert EligibleIn(s.nodes, s.deleted, None, found) == found;
    IdsSize(DistFrom(metric, s.nodes, q), xs);
  }

  lemma NothingAnswered(metric: Metric, s: Index, q: Vec, k: nat, ef: Option<int>, res: seq<(string, real)>)
    requires Inv(s) && s.entry.None? && Searched(metric, s, q, k, ef, None, res)
    ensures |res| == Min(k, Min(Width(EffectiveEf(k, s.efc, ef)), |s.nodes|))
  {
  }

  /** The answer falls short of the `k` nearest, or of everything there is, exactly when a smaller `ef` was asked for. */
  lemma AnswerShortIff(metric: Metric, s: Index, q: Vec, k: nat, ef: Option<int>, res: seq<(string, real)>)
    requires Inv(s) && s.deleted == {} && Connected(s.nodes, 0) && Searched(metric, s, q, k, ef, None, res)
    ensures |res| < Min(k, |s.nodes|) <==> ef.Some? && ef.value != 0 && Max(1, ef.value) < Min(k, |s.nodes|)
  {
    hide Inv, Connected, Searched;
    AnswerSize(metric, s, q, k, ef, res);
  }

  /** A search as wide as a connected index without tombstones returns a true ranking of everything. */
  lemma ConnectedExact(metric: Metric, s: Index, q: Vec, k: nat, ef: Option<int>, res: seq<(string, real)>)
    requires Inv(s) && s.deleted == {} && Connected(s.nodes, 0) && Wide(k, s.efc, ef, |s.nodes|)
    requires Searched(metric, s, q, k, ef, None, res)
    ensures IsRanking(LiveDist(metric, Live(s), q), Live(s).Keys, k, res)
  {
    hide *;
    if s.entry.Some? {
      var ep, found, xs := AnswerWalk(metric, s, q, k, ef, None, res);
      InvEdges(s);
      WideWidth(k, s.efc, ef, |s.nodes|);
      ConnectedWalk(metric, s.nodes, q, ep, EffectiveEf(k, s.efc, ef), found);
      AllEligible(metric, s, q);
      NamedRanking(metric, s, q, None, k, s.nodes.Keys, xs, res);
    } else {
      NothingToRank(metric, s, q, k, ef, res);
    }
  }

  lemma InvEdges(s: Index)
    requires Inv(s)
    ensures EdgesOk(s.nodes)
  {
  }

  lemma AllEligible(metric: Metric, s: Index, q: Vec)
    requires Inv(s) && s.deleted == {}
    ensures EligibleIn(s.nodes, s.deleted, None, s.nodes.Keys) == s.nodes.Keys
    ensures AnswerDist(metric, s, q, None) == LiveDist(metric, Live(s), q)
    ensures Vids(s, s.nodes.Keys) == Live(s).Keys == LiveDist(metric, Live(s), q).Keys
  {
    LiveAnswers(metric, s, q);
    EligibleVids(metric, s, q, None);
  }

  lemma NothingToRank(metric: Metric, s: Index, q: Vec, k: nat, ef: Option<int>, res: seq<(string, real)>)
    requires Inv(s) && s.entry.None? && Searched(metric, s, q, k, ef, None, res)
    ensures IsRanking(LiveDist(metric, Live(s), q), Live(s).Keys, k, res)
  {
    assert Live(s) == map[];
    assert Ids(res) == {};
  }

  // ---------- small indexes ----------

  /** Along every run that has stored at most 2M+1 vectors, layer 0 is symmetric and connected, whatever
      levels were drawn and whatever was deleted. */
  lemma SmallRunConnected(metric: Metric, states: seq<Index>, ops: seq<Op>, n: nat)
    requires Run(metric, states, ops) && n < |states| && |states[n].nodes| <= 2 * states[n].M + 1
    ensures Inv(states[n]) && Symmetric(states[n].nodes, 0) && Connected(states[n].nodes, 0)
  {
    hide Run, Inv, Symmetric, Connected, On;
    RunKeepsInv(metric, states, ops, n);
    BottomIsAll(states[n].nodes);
    assert |states[n].nodes| == |states[n].nodes.Keys|;
    SmallLayerConnected(metric, states, ops, n, 0);
  }

  /** Small-index exactness: after any history that has stored at most 2M+1 vectors and deleted none, a search
      whose width covers the index answers exactly like an exhaustive scan. */
  lemma SmallIndexExact(metric: Metric, states: seq<Index>, ops: seq<Op>, n: nat, q: Vec, k: nat, ef: Option<int>,
                        res: seq<(string, real)>)
    requires Run(metric, states, ops) && n < |states| && |states[n].nodes| <= 2 * states[n].M + 1
    requires states[n].deleted == {} && Wide(k, states[n].efc, ef, |states[n].nodes|)
    requires Inv(states[n]) && Searched(metric, states[n], q, k, ef, None, res)
    ensures IsRanking(LiveDist(metric, Live(states[n]), q), Live(states[n]).Keys, k, res)
  {
    hide *;
    SmallRunConnected(metric, states, ops, n);
    ConnectedExact(metric, states[n], q, k, ef, res);
  }
}
