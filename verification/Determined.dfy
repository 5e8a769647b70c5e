/** Where distances are distinct, a search is determined by the index value. */
module Determined {
  import opened Types
  import opened Ranking
  import opened Ranked
  import opened Beam
  import opened BeamLoop
  import opened Graph
  import opened Answers

  // Neither the order in which a neighbour set is enumerated nor the heap layout matters, and a wider search never
  // has worse recall.

  /** The same graph up to an empty metadata record reading as none. */
  ghost predicate Alike(n1: Nodes, n2: Nodes) {
    && n1.Keys == n2.Keys
    && forall i :: i in n1 ==>
         && n2[i].vid == n1[i].vid && n2[i].vec == n1[i].vec && n2[i].level == n1[i].level && n2[i].nbrs == n1[i].nbrs
         && MetaOrEmpty(n2[i].meta) == MetaOrEmpty(n1[i].meta)
  }

  lemma AlikeWalks(metric: Metric, n1: Nodes, n2: Nodes, deleted: set<nat>, filter: Option<Filter>, q: Vec, l: nat)
    requires Alike(n1, n2)
    ensures LayerWalk(metric, n1, deleted, filter, q, l) == LayerWalk(metric, n2, deleted, filter, q, l)
    ensures DistFrom(metric, n1, q) == DistFrom(metric, n2, q)
  {
    hide EdgesOk;
    var w1, w2 := LayerWalk(metric, n1, deleted, filter, q, l), LayerWalk(metric, n2, deleted, filter, q, l);
    assert w1.adj == w2.adj && w1.d == w2.d && w1.ok == w2.ok;
  }

  lemma WalkedUnique(metric: Metric, n1: Nodes, n2: Nodes, deleted: set<nat>, filter: Option<Filter>, q: Vec, ep: nat, ef: int, l: nat,
                     f1: set<nat>, f2: set<nat>)
    requires Alike(n1, n2) && EdgesOk(n1) && EdgesOk(n2) && ep in n1 && Distinct(DistFrom(metric, n1, q))
    requires Walked(metric, n1, deleted, filter, q, ep, ef, l, f1) && Walked(metric, n2, deleted, filter, q, ep, ef, l, f2)
    ensures f1 == f2
    ensures var w := LayerWalk(metric, n1, deleted, filter, q, l); w.Valid() && ep in w.adj && f1 == Returned(w, ep, ef)
  {
    LayerWalkValid(metric, n1, deleted, filter, q, l);
    AlikeWalks(metric, n1, n2, deleted, filter, q, l);
    hide Outcome, Returned;
    var w := LayerWalk(metric, n1, deleted, filter, q, l);
    OutcomeIsReturned(w, ep, ef, f1);
    OutcomeIsReturned(w, ep, ef, f2);
  }

  lemma MovedUnique(metric: Metric, n1: Nodes, n2: Nodes, deleted: set<nat>, q: Vec, p: nat, l: nat, e1: nat, e2: nat)
    requires Alike(n1, n2) && EdgesOk(n1) && EdgesOk(n2) && p in n1 && Distinct(DistFrom(metric, n1, q))
    requires Moved(metric, n1, deleted, q, p, l, e1) && Moved(metric, n2, deleted, q, p, l, e2)
    ensures e1 == e2
  {
    hide Walked, EdgesOk;
    var f1 :| Walked(metric, n1, deleted, None, q, p, 1, l, f1) && NearestOf(metric, n1, q, f1, e1);
    var f2 :| Walked(metric, n2, deleted, None, q, p, 1, l, f2) && NearestOf(metric, n2, q, f2, e2);
    WalkedUnique(metric, n1, n2, deleted, None, q, p, 1, l, f1, f2);
    var d := DistFrom(metric, n1, q);
    assert d[e1] <= d[e2] <= d[e1];
  }

  lemma {:induction false} DescendedUnique(metric: Metric, n1: Nodes, n2: Nodes, deleted: set<nat>, q: Vec, ep0: nat, top: nat, l: nat, e1: nat, e2: nat)
    requires Alike(n1, n2) && EdgesOk(n1) && EdgesOk(n2) && ep0 in n1 && Distinct(DistFrom(metric, n1, q))
    requires Descended(metric, n1, deleted, q, ep0, top, l, e1) && Descended(metric, n2, deleted, q, ep0, top, l, e2)
    ensures e1 == e2
    decreases top - l
  {
    hide Moved, EdgesOk, Distinct, Descended;
    if l < top {
      var p1 := DescendedLast(metric, n1, deleted, q, ep0, top, l, e1);
      var p2 := DescendedLast(metric, n2, deleted, q, ep0, top, l, e2);
      DescendedUnique(metric, n1, n2, deleted, q, ep0, top, l + 1, p1, p2);
      MovedUnique(metric, n1, n2, deleted, q, p1, l + 1, e1, e2);
    } else {
      DescendedNowhere(metric, n1, deleted, q, ep0, top, l, e1);
      DescendedNowhere(metric, n2, deleted, q, ep0, top, l, e2);
    }
  }

  /** Two indexes a search cannot tell apart. */
  ghost predicate SameSearch(s: Index, t: Index) {
    && Alike(s.nodes, t.nodes) && t.deleted == s.deleted && t.entry == s.entry
    && t.maxLayer == s.maxLayer && t.efc == s.efc
  }

  lemma SameEligible(s: Index, t: Index, filter: Option<Filter>, S: set<nat>)
    requires SameSearch(s, t) && S <= s.nodes.Keys
    ensures EligibleIn(s.nodes, s.deleted, filter, S) == EligibleIn(t.nodes, t.deleted, filter, S)
  {
  }

  lemma NamedUnique(n1: Nodes, n2: Nodes, xs: seq<(nat, real)>, r1: seq<(string, real)>, r2: seq<(string, real)>)
    requires Alike(n1, n2) && Named(n1, xs, r1) && Named(n2, xs, r2)
    ensures r1 == r2
  {
  }

  /** Order independence: with distinct distances, any two searches of the same (or a reloaded) index with the
      same arguments return the same list. */
  lemma SearchDetermined(metric: Metric, s: Index, t: Index, q: Vec, k: nat, ef: Option<int>, filter: Option<Filter>,
                         r1: seq<(string, real)>, r2: seq<(string, real)>)
    requires Inv(s) && Inv(t) && SameSearch(s, t) && Distinct(DistFrom(metric, s.nodes, q))
    requires Searched(metric, s, q, k, ef, filter, r1) && Searched(metric, t, q, k, ef, filter, r2)
    ensures r1 == r2
  {
    if s.entry.Some? {
      hide *;
      SameSearchFields(s, t);
      var d := DistFrom(metric, s.nodes, q);
      var e1, f1, x1 := AnswerWalk(metric, s, q, k, ef, filter, r1);
      var e2, f2, x2 := AnswerWalk(metric, t, q, k, ef, filter, r2);
      AlikeWalks(metric, s.nodes, t.nodes, s.deleted, filter, q, 0);
      DescendedUnique(metric, s.nodes, t.nodes, s.deleted, q, s.entry.value, s.maxLayer, 0, e1, e2);
      WalkedUnique(metric, s.nodes, t.nodes, s.deleted, filter, q, e1, EffectiveEf(k, s.efc, ef), 0, f1, f2);
      SameEligible(s, t, filter, f1);
      RankingUnique(d, EligibleIn(s.nodes, s.deleted, filter, f1), k, x1, x2);
      NamedUnique(s.nodes, t.nodes, x1, r1, r2);
    }
  }

  lemma SameSearchFields(s: Index, t: Index)
    requires Inv(s) && Inv(t) && SameSearch(s, t)
    ensures Alike(s.nodes, t.nodes) && t.deleted == s.deleted && t.entry == s.entry && t.maxLayer == s.maxLayer && t.efc == s.efc
    ensures EdgesOk(s.nodes) && EdgesOk(t.nodes) && s.nodes.Keys == t.nodes.Keys
    ensures s.entry.Some? ==> s.entry.value in s.nodes
  {
  }

  lemma AlikeSelf(n: Nodes)
    ensures Alike(n, n)
  {
  }

  // ---------- recall ----------

  /** The true answer: the ids an exhaustive scan would return. */
  ghost function Truth(metric: Metric, s: Index, q: Vec, k: nat, filter: Option<Filter>): set<string>
    requires Inv(s)
  {
    Top(AnswerDist(metric, s, q, filter), k, AnswerDist(metric, s, q, filter).Keys)
  }

  lemma TopVids(metric: Metric, s: Index, q: Vec, filter: Option<Filter>, k: nat, S: set<nat>)
    requires Inv(s) && Distinct(DistFrom(metric, s.nodes, q)) && S <= EligibleIn(s.nodes, s.deleted, filter, s.nodes.Keys)
    requires S <= DistFrom(metric, s.nodes, q).Keys
    ensures Vids(s, S) <= AnswerDist(metric, s, q, filter).Keys && Top(DistFrom(metric, s.nodes, q), k, S) <= s.nodes.Keys
    ensures Top(AnswerDist(metric, s, q, filter), k, Vids(s, S)) == Vids(s, Top(DistFrom(metric, s.nodes, q), k, S))
  {
    var d, a := DistFrom(metric, s.nodes, q), AnswerDist(metric, s, q, filter);
    var R := Top(d, k, S);
    TopIsClosest(d, k, S);
    hide Top, Closest, AnswerDist, EligibleIn;
    ClosestVids(metric, s, q, filter, k, S, R);
    DistinctVids(metric, s, q, filter);
    ClosestIsTop(a, k, Vids(s, S), Vids(s, R));
  }

  /** The hits of an answer, counted on the graph. */
  lemma AnswerHits(metric: Metric, s: Index, q: Vec, k: nat, filter: Option<Filter>, found: set<nat>, xs: seq<(nat, real)>, res: seq<(string, real)>)
    requires Inv(s) && Distinct(DistFrom(metric, s.nodes, q)) && found <= s.nodes.Keys
    requires EligibleIn(s.nodes, s.deleted, filter, found) <= DistFrom(metric, s.nodes, q).Keys
    requires IsRanking(DistFrom(metric, s.nodes, q), EligibleIn(s.nodes, s.deleted, filter, found), k, xs) && Named(s.nodes, xs, res)
    ensures var w := LayerWalk(metric, s.nodes, s.deleted, filter, q, 0);
            w.Valid() && found <= w.adj.Keys && |Truth(metric, s, q, k, filter) * Ids(res)| == |Hits(w, k, found)|
  {
    var d := DistFrom(metric, s.nodes, q);
    var w := LayerWalk(metric, s.nodes, s.deleted, filter, q, 0);
    var E, F := EligibleIn(s.nodes, s.deleted, filter, s.nodes.Keys), EligibleIn(s.nodes, s.deleted, filter, found);
    LayerWalkValid(metric, s.nodes, s.deleted, filter, q, 0);
    assert w.ok == E && w.d == d && F == found * w.ok && E <= d.Keys;
    assert Closest(d, k, F, Ids(xs));
    EligibleVids(metric, s, q, filter);
    hide Top, Closest, AnswerDist, EligibleIn, Inv, Distinct, Named, IsRanking;
    ClosestIsTop(d, k, F, Ids(xs));
    NamedIds(s, xs, res);
    TopVids(metric, s, q, filter, k, E);
    TopVids(metric, s, q, filter, k, F);
    VidsMeet(s, Top(d, k, E), Top(d, k, F));
    VidsSize(s, Top(d, k, E) * Top(d, k, F));
  }

  /** Recall at `k` never drops when the beam widens, for every query with distinct distances, whatever is
      tombstoned or filtered. */
  lemma WiderSearchRecallsMore(metric: Metric, s: Index, q: Vec, k: nat, ef1: Option<int>, ef2: Option<int>, filter: Option<Filter>,
                               r1: seq<(string, real)>, r2: seq<(string, real)>)
    requires Inv(s) && Distinct(DistFrom(metric, s.nodes, q))
    requires EffectiveEf(k, s.efc, ef1) <= EffectiveEf(k, s.efc, ef2)
    requires Searched(metric, s, q, k, ef1, filter, r1) && Searched(metric, s, q, k, ef2, filter, r2)
    ensures |Truth(metric, s, q, k, filter) * Ids(r1)| <= |Truth(metric, s, q, k, filter) * Ids(r2)|
  {
    if s.entry.Some? {
      hide *;
      AlikeSelf(s.nodes);
      SelfSearch(s);
      var w := LayerWalk(metric, s.nodes, s.deleted, filter, q, 0);
      var e1, f1, x1 := AnswerWalk(metric, s, q, k, ef1, filter, r1);
      var e2, f2, x2 := AnswerWalk(metric, s, q, k, ef2, filter, r2);
      DescendedUnique(metric, s.nodes, s.nodes, s.deleted, q, s.entry.value, s.maxLayer, 0, e1, e2);
      var n1, n2 := EffectiveEf(k, s.efc, ef1), EffectiveEf(k, s.efc, ef2);
      WalkedUnique(metric, s.nodes, s.nodes, s.deleted, filter, q, e1, n1, 0, f1, f1);
      WalkedUnique(metric, s.nodes, s.nodes, s.deleted, filter, q, e1, n2, 0, f2, f2);
      AnswerHits(metric, s, q, k, filter, f1, x1, r1);
      AnswerHits(metric, s, q, k, filter, f2, x2, r2);
      WalkDist(metric, s, q, filter);
      RecallNeverDrops(w, e1, n1, n2, k);
    }
  }

  lemma SelfSearch(s: Index)
    requires Inv(s)
    ensures EdgesOk(s.nodes) && (s.entry.Some? ==> s.entry.value in s.nodes)
  {
  }

  lemma WalkDist(metric: Metric, s: Index, q: Vec, filter: Option<Filter>)
    ensures LayerWalk(metric, s.nodes, s.deleted, filter, q, 0).d == DistFrom(metric, s.nodes, q)
  {
  }

  /** In particular when an explicit `ef` grows, or when it is left out for one that `k` and `ef_construction` exceed. */
  lemma LargerEfRecallsMore(metric: Metric, s: Index, q: Vec, k: nat, e1: nat, ef2: Option<int>, filter: Option<Filter>,
                            r1: seq<(string, real)>, r2: seq<(string, real)>)
    requires Inv(s) && Distinct(DistFrom(metric, s.nodes, q)) && e1 >= 1 && Wide(k, s.efc, ef2, e1)
    requires Searched(metric, s, q, k, Some(e1), filter, r1) && Searched(metric, s, q, k, ef2, filter, r2)
    ensures |Truth(metric, s, q, k, filter) * Ids(r1)| <= |Truth(metric, s, q, k, filter) * Ids(r2)|
  {
    hide *;
    WideWidth(k, s.efc, ef2, e1);
    GivenWidth(k, s.efc, e1);
    WiderSearchRecallsMore(metric, s, q, k, Some(e1), ef2, filter, r1, r2);
  }

  lemma GivenWidth(k: nat, efc: nat, e: nat)
    requires e >= 1
    ensures EffectiveEf(k, efc, Some(e)) == e
  {
  }
}
