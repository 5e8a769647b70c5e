/** What a search answers, in the caller's ids. */
module Answers {
  import opened Types
  import opened Ranking
  import opened Ranked
  import opened Beam
  import opened BeamLoop
  import opened Graph

  /** The distances of everything a search with this filter may return. */
  ghost function AnswerDist(metric: Metric, s: Index, q: Vec, filter: Option<Filter>): map<string, real>
    requires Inv(s)
  {
    map v | v in s.idMap && Eligible(s.nodes, s.deleted, filter, s.idMap[v]) :: metric(q, s.nodes[s.idMap[v]].vec)
  }

  ghost function LiveDist(metric: Metric, live: map<string, Vec>, q: Vec): map<string, real> {
    map v | v in live :: metric(q, live[v])
  }

  lemma LiveAnswers(metric: Metric, s: Index, q: Vec)
    requires Inv(s)
    ensures AnswerDist(metric, s, q, None) == LiveDist(metric, Live(s), q)
  {
  }

  ghost function Vids(s: Index, S: set<nat>): set<string>
    requires S <= s.nodes.Keys
  {
    set i | i in S :: s.nodes[i].vid
  }

  lemma {:induction false} VidsSize(s: Index, S: set<nat>)
    requires Inv(s) && S <= s.nodes.Keys
    ensures |Vids(s, S)| == |S|
  {
    if S != {} {
      var i :| i in S;
      VidsSize(s, S - {i});
      assert Vids(s, S) == Vids(s, S - {i}) + {s.nodes[i].vid};
    }
  }

  lemma VidsMeet(s: Index, A: set<nat>, B: set<nat>)
    requires Inv(s) && A <= s.nodes.Keys && B <= s.nodes.Keys
    ensures Vids(s, A * B) == Vids(s, A) * Vids(s, B)
  {
    forall v | v in Vids(s, A) * Vids(s, B) ensures v in Vids(s, A * B) {
      assert s.idMap[v] in A && s.idMap[v] in B;
    }
  }

  lemma EligibleVids(metric: Metric, s: Index, q: Vec, filter: Option<Filter>)
    requires Inv(s)
    ensures AnswerDist(metric, s, q, filter).Keys == Vids(s, EligibleIn(s.nodes, s.deleted, filter, s.nodes.Keys))
  {
    var E := EligibleIn(s.nodes, s.deleted, filter, s.nodes.Keys);
    forall v | v in AnswerDist(metric, s, q, filter) ensures v in Vids(s, E) {
      assert s.idMap[v] in E;
    }
  }

  /** The closest nodes and the closest ids correspond. */
  lemma ClosestVids(metric: Metric, s: Index, q: Vec, filter: Option<Filter>, n: nat, S: set<nat>, R: set<nat>)
    requires Inv(s) && S <= EligibleIn(s.nodes, s.deleted, filter, s.nodes.Keys)
    requires Closest(DistFrom(metric, s.nodes, q), n, S, R)
    ensures Vids(s, S) <= AnswerDist(metric, s, q, filter).Keys
    ensures Closest(AnswerDist(metric, s, q, filter), n, Vids(s, S), Vids(s, R))
  {
    VidsSize(s, S);
    VidsSize(s, R);
    EligibleVids(metric, s, q, filter);
    assert forall i :: i in S ==> AnswerDist(metric, s, q, filter)[s.nodes[i].vid] == DistFrom(metric, s.nodes, q)[i];
  }

  lemma DistinctVids(metric: Metric, s: Index, q: Vec, filter: Option<Filter>)
    requires Inv(s) && Distinct(DistFrom(metric, s.nodes, q))
    ensures Distinct(AnswerDist(metric, s, q, filter))
  {
    var d := DistFrom(metric, s.nodes, q);
    forall x, y | x in AnswerDist(metric, s, q, filter) && y in AnswerDist(metric, s, q, filter) && x != y
      ensures AnswerDist(metric, s, q, filter)[x] != AnswerDist(metric, s, q, filter)[y]
    {
      assert d[s.idMap[x]] != d[s.idMap[y]];
    }
  }

  /** A ranking of nodes, renamed, is a ranking of ids. */
  lemma NamedRanking(metric: Metric, s: Index, q: Vec, filter: Option<Filter>, k: nat, S: set<nat>, xs: seq<(nat, real)>, res: seq<(string, real)>)
    requires Inv(s) && S <= EligibleIn(s.nodes, s.deleted, filter, s.nodes.Keys)
    requires IsRanking(DistFrom(metric, s.nodes, q), S, k, xs) && Named(s.nodes, xs, res)
    ensures Vids(s, S) <= AnswerDist(metric, s, q, filter).Keys
    ensures IsRanking(AnswerDist(metric, s, q, filter), Vids(s, S), k, res)
    ensures Ids(res) == Vids(s, Ids(xs))
  {
    var d, a := DistFrom(metric, s.nodes, q), AnswerDist(metric, s, q, filter);
    EligibleVids(metric, s, q, filter);
    ClosestVids(metric, s, q, filter, k, S, Ids(xs));
    NamedIds(s, xs, res);
    NamedReports(metric, s, q, filter, S, xs, res);
  }

  lemma NamedIds(s: Index, xs: seq<(nat, real)>, res: seq<(string, real)>)
    requires Named(s.nodes, xs, res)
    ensures Ids(xs) <= s.nodes.Keys && Ids(res) == Vids(s, Ids(xs))
  {
    forall i | 0 <= i < |xs| ensures res[i].0 in Vids(s, Ids(xs)) && xs[i].0 in s.nodes {
      assert xs[i].0 in Ids(xs);
    }
    forall v | v in Vids(s, Ids(xs)) ensures v in Ids(res) {
      var i :| 0 <= i < |xs| && s.nodes[xs[i].0].vid == v;
      assert res[i].0 == v;
    }
  }

  lemma NamedReports(metric: Metric, s: Index, q: Vec, filter: Option<Filter>, S: set<nat>, xs: seq<(nat, real)>, res: seq<(string, real)>)
    requires Inv(s) && S <= EligibleIn(s.nodes, s.deleted, filter, s.nodes.Keys)
    requires Reports(DistFrom(metric, s.nodes, q), xs) && Sorted(xs) && Ids(xs) <= S && Named(s.nodes, xs, res)
    ensures Reports(AnswerDist(metric, s, q, filter), res) && Sorted(res)
  {
    var d, a := DistFrom(metric, s.nodes, q), AnswerDist(metric, s, q, filter);
    forall i | 0 <= i < |res| ensures res[i].0 in a && res[i].1 == a[res[i].0] && s.idMap[res[i].0] == xs[i].0 {
      assert xs[i].0 in Ids(xs);
      assert s.idMap[s.nodes[xs[i].0].vid] == xs[i].0;
    }
  }

  // ---------- the width of a search ----------

  /** A search with these arguments is at least `n` wide: an `ef` other than 0 is taken as given, otherwise the width is
      the larger of `k` and the index's own. */
  predicate Wide(k: nat, efc: nat, ef: Option<int>, n: nat) {
    if ef.Some? && ef.value != 0 then n <= ef.value else n <= k || n <= efc
  }

  lemma WideWidth(k: nat, efc: nat, ef: Option<int>, n: nat)
    ensures n <= EffectiveEf(k, efc, ef) <==> Wide(k, efc, ef, n)
  {
  }

  /** Leaving `ef` out, or giving 0, is asking for the larger of `k` and `ef_construction`. */
  lemma DefaultWidth(metric: Metric, s: Index, q: Vec, k: nat, filter: Option<Filter>, res: seq<(string, real)>)
    requires Inv(s) && k >= 1
    ensures Searched(metric, s, q, k, None, filter, res) <==> Searched(metric, s, q, k, Some(if k < s.efc then s.efc else k), filter, res)
    ensures Searched(metric, s, q, k, Some(0), filter, res) <==> Searched(metric, s, q, k, Some(if k < s.efc then s.efc else k), filter, res)
  {
    hide Inv, Descended, Walked, IsRanking, Named, EligibleIn;
    var e := Some(if k < s.efc then s.efc else k);
    assert EffectiveEf(k, s.efc, None) == EffectiveEf(k, s.efc, Some(0)) == EffectiveEf(k, s.efc, e);
  }

  // ---------- soundness ----------

  /** The walk behind an answer. */
  lemma AnswerWalk(metric: Metric, s: Index, q: Vec, k: nat, ef: Option<int>, filter: Option<Filter>, res: seq<(string, real)>)
    returns (ep: nat, found: set<nat>, xs: seq<(nat, real)>)
    requires Inv(s) && s.entry.Some? && Searched(metric, s, q, k, ef, filter, res)
    ensures ep in s.nodes && found <= s.nodes.Keys
    ensures Descended(metric, s.nodes, s.deleted, q, s.entry.value, s.maxLayer, 0, ep)
    ensures Walked(metric, s.nodes, s.deleted, filter, q, ep, EffectiveEf(k, s.efc, ef), 0, found)
    ensures IsRanking(DistFrom(metric, s.nodes, q), EligibleIn(s.nodes, s.deleted, filter, found), k, xs)
    ensures Named(s.nodes, xs, res)
  {
    hide Descended, Walked, IsRanking, Named, EffectiveEf;
    ep, found, xs :|
      && ep in s.nodes && found <= s.nodes.Keys
      && Descended(metric, s.nodes, s.deleted, q, s.entry.value, s.maxLayer, 0, ep)
      && Walked(metric, s.nodes, s.deleted, filter, q, ep, EffectiveEf(k, s.efc, ef), 0, found)
      && IsRanking(DistFrom(metric, s.nodes, q), EligibleIn(s.nodes, s.deleted, filter, found), k, xs)
      && Named(s.nodes, xs, res);
  }

  /** Search soundness: at most `k` distinct ids, nearest first, each with its true distance, each live and
      satisfying the filter. */
  lemma SearchSound(metric: Metric, s: Index, q: Vec, k: nat, ef: Option<int>, filter: Option<Filter>, res: seq<(string, real)>)
    requires Inv(s) && Searched(metric, s, q, k, ef, filter, res)
    ensures |res| <= k && Sorted(res) && Reports(AnswerDist(metric, s, q, filter), res)
  {
    var a := AnswerDist(metric, s, q, filter);
    if s.entry.Some? {
      hide Descended, Walked, Searched;
      var ep, found, xs := AnswerWalk(metric, s, q, k, ef, filter, res);
      NamedRanking(metric, s, q, filter, k, EligibleIn(s.nodes, s.deleted, filter, found), xs, res);
      IdsSize(a, res);
    }
  }

  /** An explicit width is used as given, even below `k`: the answer is then no longer than that width (0 standing
      for the default, and anything negative for 1). */
  lemma WidthCapsAnswer(metric: Metric, s: Index, q: Vec, k: nat, ef: Option<int>, filter: Option<Filter>, res: seq<(string, real)>)
    requires Inv(s) && Searched(metric, s, q, k, ef, filter, res)
    ensures |res| <= Width(EffectiveEf(k, s.efc, ef))
    ensures ef.Some? && ef.value != 0 ==> |res| <= Max(1, ef.value)
  {
    WidthIsCap(metric, s, q, k, ef, filter, res);
  }

  lemma WidthIsCap(metric: Metric, s: Index, q: Vec, k: nat, ef: Option<int>, filter: Option<Filter>, res: seq<(string, real)>)
    requires Inv(s) && Searched(metric, s, q, k, ef, filter, res)
    ensures |res| <= Width(EffectiveEf(k, s.efc, ef))
  {
    if s.entry.Some? {
      hide *;
      var ep, found, xs := AnswerWalk(metric, s, q, k, ef, filter, res);
      FoundWithin(metric, s, q, ep, EffectiveEf(k, s.efc, ef), filter, found);
      var d, R := DistFrom(metric, s.nodes, q), EligibleIn(s.nodes, s.deleted, filter, found);
      EligibleAreFound(metric, s, q, filter, found);
      RankedSize(d, R, k, xs);
      SubsetSize(R, found);
      NamedSize(s.nodes, xs, res);
    }
  }

  lemma FoundWithin(metric: Metric, s: Index, q: Vec, ep: nat, ef: int, filter: Option<Filter>, found: set<nat>)
    requires Inv(s) && ep in s.nodes && Walked(metric, s.nodes, s.deleted, filter, q, ep, ef, 0, found)
    ensures |found| <= Width(ef)
  {
    hide Outcome;
    LayerWalkValid(metric, s.nodes, s.deleted, filter, q, 0);
    OutcomeBasics(LayerWalk(metric, s.nodes, s.deleted, filter, q, 0), ep, ef, found);
  }

  lemma EligibleAreFound(metric: Metric, s: Index, q: Vec, filter: Option<Filter>, found: set<nat>)
    requires found <= s.nodes.Keys
    ensures EligibleIn(s.nodes, s.deleted, filter, found) <= found
    ensures EligibleIn(s.nodes, s.deleted, filter, found) <= DistFrom(metric, s.nodes, q).Keys
  {
  }

  lemma RankedSize(d: map<nat, real>, S: set<nat>, k: nat, xs: seq<(nat, real)>)
    requires S <= d.Keys && IsRanking(d, S, k, xs)
    ensures |xs| <= |S|
  {
    IdsSize(d, xs);
  }

  lemma NamedSize(nodes: Nodes, xs: seq<(nat, real)>, res: seq<(string, real)>)
    requires Named(nodes, xs, res)
    ensures |res| == |xs|
  {
  }

  /** What a search may return, in plain terms: ids the index knows and has not tombstoned, whose record the filter, if any,
      accepts, an absent record read as an empty one. */
  lemma MayBeReturned(metric: Metric, s: Index, q: Vec, filter: Option<Filter>, v: string)
    requires Inv(s)
    ensures v in AnswerDist(metric, s, q, filter) <==>
      && v in s.idMap && s.idMap[v] in s.nodes && s.idMap[v] !in s.deleted
      && (filter.Some? ==> filter.value(match s.nodes[s.idMap[v]].meta case None => map[] case Some(m) => m))
  {
    hide EdgesOk, DegreesOk, NoDeadEnds, EntryOk, ShapeOk;
  }

  /** What a search returns, in plain terms: ids the index knows, not tombstoned, at their true distance; and a filter has
      accepted the record of each. */
  lemma AnswersMean(metric: Metric, s: Index, q: Vec, k: nat, ef: Option<int>, filter: Option<Filter>, res: seq<(string, real)>, i: nat)
    requires Inv(s) && Searched(metric, s, q, k, ef, filter, res) && i < |res|
    ensures res[i].0 in s.idMap && s.idMap[res[i].0] in s.nodes && s.idMap[res[i].0] !in s.deleted
    ensures var v := s.nodes[s.idMap[res[i].0]];
            && v.vid == res[i].0 && res[i].1 == metric(q, v.vec)
            && (filter.Some? ==> filter.value(match v.meta case None => map[] case Some(m) => m))
  {
    hide Searched, EdgesOk, DegreesOk, NoDeadEnds, EntryOk, ShapeOk;
    SearchSound(metric, s, q, k, ef, filter, res);
  }

  // ---------- the coarse descent never loses ground ----------

  lemma {:induction false} DescentImproves(metric: Metric, nodes: Nodes, deleted: set<nat>, q: Vec, ep0: nat, top: nat, l: nat, ep: nat)
    requires EdgesOk(nodes) && ep0 in nodes && Descended(metric, nodes, deleted, q, ep0, top, l, ep)
    ensures ep in nodes && metric(q, nodes[ep].vec) <= metric(q, nodes[ep0].vec)
    decreases top - l
  {
    hide Moved, Descended, EdgesOk;
    if l < top {
      var p := DescendedLast(metric, nodes, deleted, q, ep0, top, l, ep);
      DescentImproves(metric, nodes, deleted, q, ep0, top, l + 1, p);
      MoveImproves(metric, nodes, deleted, q, p, l + 1, ep);
    } else {
      DescendedNowhere(metric, nodes, deleted, q, ep0, top, l, ep);
    }
  }

  lemma MoveImproves(metric: Metric, nodes: Nodes, deleted: set<nat>, q: Vec, p: nat, l: nat, ep: nat)
    requires EdgesOk(nodes) && p in nodes && Moved(metric, nodes, deleted, q, p, l, ep)
    ensures ep in nodes && metric(q, nodes[ep].vec) <= metric(q, nodes[p].vec)
  {
    hide Outcome, EdgesOk;
    var found :| Walked(metric, nodes, deleted, None, q, p, 1, l, found) && NearestOf(metric, nodes, q, found, ep);
    WalkImproves(metric, nodes, deleted, None, q, p, 1, l, found, ep);
  }

  lemma WalkImproves(metric: Metric, nodes: Nodes, deleted: set<nat>, filter: Option<Filter>, q: Vec, p: nat, ef: int, l: nat, found: set<nat>, b: nat)
    requires EdgesOk(nodes) && p in nodes && Walked(metric, nodes, deleted, filter, q, p, ef, l, found)
    requires NearestOf(metric, nodes, q, found, b)
    ensures metric(q, nodes[b].vec) <= metric(q, nodes[p].vec)
  {
    hide Outcome, EdgesOk;
    var w := LayerWalk(metric, nodes, deleted, filter, q, l);
    LayerWalkValid(metric, nodes, deleted, filter, q, l);
    OutcomeBasics(w, p, ef, found);
    assert IsNearest(w, found, b);
  }

  /** With nothing tombstoned or filtered, the first hit is no farther than the global entry point. */
  lemma TopHitBeatsEntry(metric: Metric, s: Index, q: Vec, k: nat, ef: Option<int>, res: seq<(string, real)>)
    requires Inv(s) && s.entry.Some? && s.deleted == {} && k >= 1 && Searched(metric, s, q, k, ef, None, res)
    ensures res != [] && res[0].1 <= metric(q, s.nodes[s.entry.value].vec)
  {
    hide Descended, Walked, Searched;
    var d := DistFrom(metric, s.nodes, q);
    var ep, found, xs := AnswerWalk(metric, s, q, k, ef, None, res);
    DescentImproves(metric, s.nodes, s.deleted, q, s.entry.value, s.maxLayer, 0, ep);
    assert EligibleIn(s.nodes, s.deleted, None, found) == found;
    WalkNonEmpty(metric, s, q, ep, EffectiveEf(k, s.efc, ef), found);
    var b := Nearest(d, found);
    WalkImproves(metric, s.nodes, s.deleted, None, q, ep, EffectiveEf(k, s.efc, ef), 0, found, b);
    FirstIsNearest(d, found, k, xs, b);
  }

  lemma WalkNonEmpty(metric: Metric, s: Index, q: Vec, ep: nat, ef: int, found: set<nat>)
    requires Inv(s) && ep in s.nodes && Walked(metric, s.nodes, s.deleted, None, q, ep, ef, 0, found)
    ensures found != {} && found <= s.nodes.Keys
  {
    hide Outcome;
    LayerWalkValid(metric, s.nodes, s.deleted, None, q, 0);
    OutcomeBasics(LayerWalk(metric, s.nodes, s.deleted, None, q, 0), ep, ef, found);
  }

  lemma FirstIsNearest(d: map<nat, real>, S: set<nat>, k: nat, xs: seq<(nat, real)>, b: nat)
    requires S <= d.Keys && IsRanking(d, S, k, xs) && k >= 1 && b in S && forall x :: x in S ==> d[b] <= d[x]
    ensures xs != [] && xs[0].1 <= d[b]
  {
    IdsSize(d, xs);
    assert xs[0].0 in Ids(xs);
    if b in Ids(xs) {
      var i :| 0 <= i < |xs| && xs[i].0 == b;
    }
  }
}
