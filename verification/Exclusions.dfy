/** What a search finds when tombstones or a filter exclude some nodes, and what it can miss. */
module Exclusions {
  import opened Types
  import opened Ranking
  import opened Ranked
  import opened BeamLoop
  import opened Graph
  import opened Answers
  import opened Pockets

  // ---------- exactly what is found ----------

  /** The eligible nodes that no pocket of the entry point leaves out. */
  ghost function Findable(metric: Metric, s: Index, q: Vec, filter: Option<Filter>, ep: nat): set<nat> {
    set z | z in s.nodes && Eligible(s.nodes, s.deleted, filter, z)
            && forall C :: Pocket(LayerWalk(metric, s.nodes, s.deleted, filter, q, 0), ep, C) ==> z in C
  }

  lemma EligibleIsOk(metric: Metric, s: Index, q: Vec, filter: Option<Filter>, z: nat)
    requires z in s.nodes
    ensures z in LayerWalk(metric, s.nodes, s.deleted, filter, q, 0).ok <==> Eligible(s.nodes, s.deleted, filter, z)
  {
  }

  lemma WalkFindsFindable(metric: Metric, s: Index, q: Vec, filter: Option<Filter>, ep: nat, ef: int, found: set<nat>)
    requires EdgesOk(s.nodes) && ep in s.nodes && |s.nodes| <= ef && found <= s.nodes.Keys
    requires Walked(metric, s.nodes, s.deleted, filter, q, ep, ef, 0, found)
    ensures EligibleIn(s.nodes, s.deleted, filter, found) == Findable(metric, s, q, filter, ep)
  {
    var w := LayerWalk(metric, s.nodes, s.deleted, filter, q, 0);
    LayerWalkValid(metric, s.nodes, s.deleted, filter, q, 0);
    forall z | z in s.nodes && Eligible(s.nodes, s.deleted, filter, z)
      ensures z in found <==> forall C :: Pocket(w, ep, C) ==> z in C
    {
      EligibleIsOk(metric, s, q, filter, z);
      hide Outcome, Pocket, LayerWalk, EdgesOk;
      FoundUnlessPocketed(w, ep, ef, found, z);
    }
  }

  /** A search at least as wide as the index ranks exactly the findable nodes, seen from where the coarse descent
      arrived; which exclusions and ties there are does not matter. */
  lemma SearchRanksFindable(metric: Metric, s: Index, q: Vec, k: nat, ef: Option<int>, filter: Option<Filter>, res: seq<(string, real)>)
      returns (ep: nat)
    requires Inv(s) && s.entry.Some? && Wide(k, s.efc, ef, |s.nodes|) && Searched(metric, s, q, k, ef, filter, res)
    ensures EdgesOk(s.nodes) && s.entry.value in s.nodes && ep in s.nodes
    ensures Descended(metric, s.nodes, s.deleted, q, s.entry.value, s.maxLayer, 0, ep)
    ensures var F := Findable(metric, s, q, filter, ep);
            && F <= s.nodes.Keys && Vids(s, F) <= AnswerDist(metric, s, q, filter).Keys
            && IsRanking(AnswerDist(metric, s, q, filter), Vids(s, F), k, res)
  {
    hide *;
    InvGraph(s);
    var found, xs;
    ep, found, xs := AnswerWalk(metric, s, q, k, ef, filter, res);
    WideWidth(k, s.efc, ef, |s.nodes|);
    WalkFindsFindable(metric, s, q, filter, ep, EffectiveEf(k, s.efc, ef), found);
    EligibleWithin(s, filter, found);
    NamedRanking(metric, s, q, filter, k, EligibleIn(s.nodes, s.deleted, filter, found), xs, res);
  }

  lemma InvGraph(s: Index)
    requires Inv(s)
    ensures EdgesOk(s.nodes) && (s.entry.Some? ==> s.entry.value in s.nodes)
  {
  }

  lemma EligibleWithin(s: Index, filter: Option<Filter>, S: set<nat>)
    requires S <= s.nodes.Keys
    ensures EligibleIn(s.nodes, s.deleted, filter, S) <= EligibleIn(s.nodes, s.deleted, filter, s.nodes.Keys) <= s.nodes.Keys
    ensures EligibleIn(s.nodes, s.deleted, filter, S) <= S
  {
  }

  /** Exclusions cost nothing, at full width and with room for every answer, if and only if no pocket of the place
      where the descent arrived leaves out an eligible node. */
  lemma NothingMissedIff(metric: Metric, s: Index, q: Vec, k: nat, ef: Option<int>, filter: Option<Filter>, res: seq<(string, real)>)
      returns (ep: nat)
    requires Inv(s) && s.entry.Some? && Wide(k, s.efc, ef, |s.nodes|) && |s.nodes| <= k
    requires Searched(metric, s, q, k, ef, filter, res)
    ensures EdgesOk(s.nodes) && s.entry.value in s.nodes && ep in s.nodes
    ensures Descended(metric, s.nodes, s.deleted, q, s.entry.value, s.maxLayer, 0, ep)
    ensures Ids(res) == AnswerDist(metric, s, q, filter).Keys
       <==> forall C :: Pocket(LayerWalk(metric, s.nodes, s.deleted, filter, q, 0), ep, C) ==>
              EligibleIn(s.nodes, s.deleted, filter, s.nodes.Keys) <= C
  {
    hide *;
    ep := SearchRanksFindable(metric, s, q, k, ef, filter, res);
    var F, E := Findable(metric, s, q, filter, ep), EligibleIn(s.nodes, s.deleted, filter, s.nodes.Keys);
    AllRanked(AnswerDist(metric, s, q, filter), Vids(s, F), k, res, |s.nodes|) by { FindableSize(metric, s, q, filter, ep); }
    EligibleVids(metric, s, q, filter);
    EligibleWithin(s, filter, s.nodes.Keys);
    SameVids(s, F, E);
    FindableMeans(metric, s, q, filter, ep);
  }

  lemma FindableSize(metric: Metric, s: Index, q: Vec, filter: Option<Filter>, ep: nat)
    requires Inv(s) && Findable(metric, s, q, filter, ep) <= s.nodes.Keys
    ensures |Vids(s, Findable(metric, s, q, filter, ep))| <= |s.nodes|
  {
    hide Findable, Inv, Vids;
    VidsSize(s, Findable(metric, s, q, filter, ep));
    SubsetSize(Findable(metric, s, q, filter, ep), s.nodes.Keys);
  }

  lemma AllRanked(d: map<string, real>, S: set<string>, k: nat, xs: seq<(string, real)>, n: nat)
    requires S <= d.Keys && IsRanking(d, S, k, xs) && |S| <= n <= k
    ensures Ids(xs) == S
  {
    SubsetSize(Ids(xs), S);
  }

  lemma SameVids(s: Index, A: set<nat>, B: set<nat>)
    requires Inv(s) && A <= s.nodes.Keys && B <= s.nodes.Keys
    ensures Vids(s, A) == Vids(s, B) <==> A == B
  {
    if Vids(s, A) == Vids(s, B) {
      forall i | i in s.nodes ensures i in A <==> i in B {
        NamedAlone(s, A, i);
        NamedAlone(s, B, i);
      }
    }
  }

  lemma NamedAlone(s: Index, A: set<nat>, i: nat)
    requires Inv(s) && A <= s.nodes.Keys && i in s.nodes
    ensures s.nodes[i].vid in Vids(s, A) <==> i in A
  {
    hide EdgesOk, DegreesOk, NoDeadEnds, EntryOk, ShapeOk;
    if j :| j in A && s.nodes[j].vid == s.nodes[i].vid {
      assert s.idMap[s.nodes[j].vid] == j && s.idMap[s.nodes[i].vid] == i;
    }
  }

  lemma FindableMeans(metric: Metric, s: Index, q: Vec, filter: Option<Filter>, ep: nat)
    ensures var E := EligibleIn(s.nodes, s.deleted, filter, s.nodes.Keys);
            Findable(metric, s, q, filter, ep) == E
            <==> forall C :: Pocket(LayerWalk(metric, s.nodes, s.deleted, filter, q, 0), ep, C) ==> E <= C
  {
    hide Pocket, LayerWalk;
    var w, E := LayerWalk(metric, s.nodes, s.deleted, filter, q, 0), EligibleIn(s.nodes, s.deleted, filter, s.nodes.Keys);
    var F := Findable(metric, s, q, filter, ep);
    if F == E {
      forall C | Pocket(w, ep, C) ensures E <= C {
        forall z | z in E ensures z in C { assert z in F; }
      }
    }
    if forall C :: Pocket(w, ep, C) ==> E <= C {
      forall z | z in E ensures z in F {}
    }
  }
}
