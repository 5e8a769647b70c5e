/** Recall of the index against the exhaustive scan, summed over a set of queries. */
module Benchmark {
  import opened Types
  import opened Ranking
  import opened Ranked
  import opened Graph
  import opened Answers
  import opened Determined
  import opened SmallIndex
  import opened Runs
  import Hnsw
  import BruteForce

  datatype Error = BadShape | BadK

  /** True and approximate answers to each query. */
  ghost predicate Measured(metric: Metric, s: Index, queries: seq<Vec>, k: nat, ef: Option<int>,
                           truths: seq<seq<(string, real)>>, answers: seq<seq<(string, real)>>)
    requires Inv(s)
  {
    && |truths| == |answers| == |queries|
    && forall i :: 0 <= i < |queries| ==> MeasuredOne(metric, s, queries[i], k, ef, truths[i], answers[i])
  }

  ghost predicate MeasuredOne(metric: Metric, s: Index, q: Vec, k: nat, ef: Option<int>, truth: seq<(string, real)>, answer: seq<(string, real)>)
    requires Inv(s)
  {
    && IsRanking(LiveDist(metric, Live(s), q), Live(s).Keys, k, truth)
    && Searched(metric, s, q, k, ef, None, answer)
  }

  function HitsOf(truths: seq<seq<(string, real)>>, answers: seq<seq<(string, real)>>): nat
    requires |truths| == |answers|
  {
    if truths == [] then 0 else
    var n := |truths| - 1;
    HitsOf(truths[..n], answers[..n]) + |IdSet(truths[n]) * IdSet(answers[n])|
  }

  function TotalOf(truths: seq<seq<(string, real)>>): nat {
    if truths == [] then 0 else TotalOf(truths[..|truths| - 1]) + |IdSet(truths[|truths| - 1])|
  }

  function Ratio(hits: nat, total: nat): real {
    if total == 0 then 0.0 else hits as real / total as real
  }

  lemma OneMoreMeasured(metric: Metric, s: Index, queries: seq<Vec>, i: nat, k: nat, ef: Option<int>,
                        truths: seq<seq<(string, real)>>, answers: seq<seq<(string, real)>>,
                        truth: seq<(string, real)>, answer: seq<(string, real)>)
    requires Inv(s) && i < |queries| && Measured(metric, s, queries[..i], k, ef, truths, answers)
    requires MeasuredOne(metric, s, queries[i], k, ef, truth, answer)
    ensures Measured(metric, s, queries[..i + 1], k, ef, truths + [truth], answers + [answer])
    ensures HitsOf(truths + [truth], answers + [answer]) == HitsOf(truths, answers) + |IdSet(truth) * IdSet(answer)|
    ensures TotalOf(truths + [truth]) == TotalOf(truths) + |IdSet(truth)|
  {
    hide MeasuredOne, Inv, IdSet;
    assert (truths + [truth])[..i] == truths && (answers + [answer])[..i] == answers;
  }

  /** Ground truth: every live vector, in the order listed. */
  method Fill(metric: Metric, dim: nat, live: seq<(string, Vec)>) returns (brute: BruteForce.BruteForceIndex)
    requires 1 <= dim && forall i :: 0 <= i < |live| ==> |live[i].1| == dim
    ensures fresh(brute) && brute.Valid() && brute.metric == metric && brute.dim == dim && brute.Items() == live
  {
    brute := new BruteForce.BruteForceIndex(metric, dim);
    for i := 0 to |live|
      invariant brute.Valid() && fresh(brute) && brute.metric == metric && brute.dim == dim && brute.Items() == live[..i]
    {
      var r := brute.Add(live[i].0, live[i].1);
      assert live[..i + 1] == live[..i] + [live[i]];
    }
    assert live[..|live|] == live;
  }

  lemma ListedShapes(s: Index, live: seq<(string, Vec)>)
    requires Inv(s) && ListsLive(s, live)
    ensures live == [] <==> Live(s) == map[]
    ensures 1 <= s.dim && forall i :: 0 <= i < |live| ==> |live[i].1| == s.dim
  {
    hide EdgesOk, DegreesOk, NoDeadEnds, EntryOk;
  }

  /** One query: its true and its approximate answer. */
  method MeasureOne(index: Hnsw.HNSWIndex, brute: BruteForce.BruteForceIndex, query: Vec, k: nat, ef: Option<int>)
      returns (r: Option<(seq<(string, real)>, seq<(string, real)>)>)
    requires index.Valid() && brute.Valid() && k >= 1 && brute.dim == index.dim && brute.metric == index.metric
    requires Inv(index.View()) && ListsLive(index.View(), brute.Items())
    ensures r.None? <==> |query| != index.dim
    ensures r.Some? ==> MeasuredOne(index.metric, index.View(), query, k, ef, r.value.0, r.value.1)
  {
    hide *;
    brute.Parts();
    var t := brute.Search(query, k);
    var a := index.Search(query, k, ef, None);
    if t.Err? || a.Err? {
      return None;
    }
    ScanIsExactHere(index.metric, index.View(), brute.ids, brute.vectors, query, k, t.value);
    r := Some((t.value, a.value));
    MeasuredParts(index.metric, index.View(), query, k, ef, t.value, a.value);
  }

  lemma ScanIsExactHere(metric: Metric, s: Index, ids: seq<string>, vectors: seq<Vec>, q: Vec, k: nat, res: seq<(string, real)>)
    requires Inv(s) && |ids| == |vectors| && ListsLive(s, BruteForce.Pairs(ids, vectors)) && BruteForce.Scanned(metric, ids, vectors, q, k, res)
    ensures Live(s).Keys <= LiveDist(metric, Live(s), q).Keys
    ensures IsRanking(LiveDist(metric, Live(s), q), Live(s).Keys, k, res)
  {
    hide BruteForce.Scanned, Inv, Lists, IsRanking, Live;
    BruteForce.ScanIsExact(metric, Live(s), ids, vectors, q, k, res);
  }

  lemma MeasuredParts(metric: Metric, s: Index, q: Vec, k: nat, ef: Option<int>, truth: seq<(string, real)>, answer: seq<(string, real)>)
    requires Inv(s) && Live(s).Keys <= LiveDist(metric, Live(s), q).Keys
    requires IsRanking(LiveDist(metric, Live(s), q), Live(s).Keys, k, truth) && Searched(metric, s, q, k, ef, None, answer)
    ensures MeasuredOne(metric, s, q, k, ef, truth, answer)
  {
  }

  /** What the benchmark reports: 0 without data, the errors of its first failing call, else hits over total. */
  ghost predicate Reported(metric: Metric, s: Index, queries: seq<Vec>, k: int, ef: Option<int>, recall: Result<real, Error>)
    requires Inv(s)
  {
    if Live(s) == map[] || queries == [] then recall == Ok(0.0)
    else if k < 1 then recall == Err(BadK)
    else if BadlyShaped(queries, s.dim) then recall == Err(BadShape)
    else RecallIs(metric, s, queries, k, ef, recall)
  }

  /** Mean recall@k over `queries`. */
  method ComputeRecallAtK(index: Hnsw.HNSWIndex, queries: seq<Vec>, k: int, ef: Option<int>) returns (recall: Result<real, Error>)
    requires index.Valid() && Inv(index.View())
    ensures Inv(index.View()) && Reported(index.metric, index.View(), queries, k, ef, recall)
  {
    hide *;
    var live := index.LiveItems();
    index.ViewReads();
    ListedShapes(index.View(), live);
    if live == [] || queries == [] {
      recall := Ok(0.0);
      ReportedNothing(index.metric, index.View(), queries, k, ef);
      return;
    }
    if k < 1 {
      recall := Err(BadK);
      ReportedBadK(index.metric, index.View(), queries, k, ef);
      return;
    }
    var brute := Fill(index.metric, index.dim, live);
    recall := Tally(index, brute, queries, k, ef);
    index.ViewReads();
    ReportedTally(index.metric, index.View(), queries, k, ef, recall);
  }

  lemma ReportedNothing(metric: Metric, s: Index, queries: seq<Vec>, k: int, ef: Option<int>)
    requires Inv(s) && (Live(s) == map[] || queries == [])
    ensures Reported(metric, s, queries, k, ef, Ok(0.0))
  {
  }

  lemma ReportedBadK(metric: Metric, s: Index, queries: seq<Vec>, k: int, ef: Option<int>)
    requires Inv(s) && Live(s) != map[] && queries != [] && k < 1
    ensures Reported(metric, s, queries, k, ef, Err(BadK))
  {
  }

  lemma ReportedTally(metric: Metric, s: Index, queries: seq<Vec>, k: nat, ef: Option<int>, recall: Result<real, Error>)
    requires Inv(s) && Live(s) != map[] && queries != [] && k >= 1
    requires BadlyShaped(queries, s.dim) ==> recall == Err(BadShape)
    requires !BadlyShaped(queries, s.dim) ==> RecallIs(metric, s, queries, k, ef, recall)
    ensures Reported(metric, s, queries, k, ef, recall)
  {
    hide Inv, Live, BadlyShaped, RecallIs;
  }

  ghost predicate BadlyShaped(queries: seq<Vec>, dim: nat) {
    exists i :: 0 <= i < |queries| && |queries[i]| != dim
  }

  ghost predicate RecallIs(metric: Metric, s: Index, queries: seq<Vec>, k: nat, ef: Option<int>, recall: Result<real, Error>)
    requires Inv(s)
  {
    exists truths, answers ::
      && Measured(metric, s, queries, k, ef, truths, answers)
      && recall == Ok(Ratio(HitsOf(truths, answers), TotalOf(truths)))
  }

  /** The loop over the queries. */
  method Tally(index: Hnsw.HNSWIndex, brute: BruteForce.BruteForceIndex, queries: seq<Vec>, k: nat, ef: Option<int>)
      returns (recall: Result<real, Error>)
    requires index.Valid() && brute.Valid() && k >= 1 && brute.dim == index.dim && brute.metric == index.metric
    requires Inv(index.View()) && ListsLive(index.View(), brute.Items())
    ensures BadlyShaped(queries, index.dim) ==> recall == Err(BadShape)
    ensures !BadlyShaped(queries, index.dim) ==> RecallIs(index.metric, index.View(), queries, k, ef, recall)
  {
    hide *;
    ghost var truths: seq<seq<(string, real)>>, answers: seq<seq<(string, real)>> := [], [];
    var hits, total := 0, 0;
    NothingMeasured(index.metric, index.View(), queries, k, ef);
    for i := 0 to |queries|
      invariant Measured(index.metric, index.View(), queries[..i], k, ef, truths, answers)
      invariant forall j :: 0 <= j < i ==> |queries[j]| == index.dim
      invariant |truths| == |answers| && hits == HitsOf(truths, answers) && total == TotalOf(truths)
    {
      var r := MeasureOne(index, brute, queries[i], k, ef);
      if r.None? {
        OneBadShape(queries, i, index.dim);
        return Err(BadShape);
      }
      OneMoreMeasured(index.metric, index.View(), queries, i, k, ef, truths, answers, r.value.0, r.value.1);
      truths, answers := truths + [r.value.0], answers + [r.value.1];
      hits := hits + |IdSet(r.value.0) * IdSet(r.value.1)|;
      total := total + |IdSet(r.value.0)|;
    }
    recall := Ok(Ratio(hits, total));
    assert queries[..|queries|] == queries;
    AllMeasured(index.metric, index.View(), index.dim, queries, k, ef, truths, answers, recall);
  }

  lemma NothingMeasured(metric: Metric, s: Index, queries: seq<Vec>, k: nat, ef: Option<int>)
    requires Inv(s)
    ensures Measured(metric, s, queries[..0], k, ef, [], []) && HitsOf([], []) == TotalOf([]) == 0
  {
  }

  lemma OneBadShape(queries: seq<Vec>, i: nat, dim: nat)
    requires i < |queries| && |queries[i]| != dim
    ensures BadlyShaped(queries, dim)
  {
  }

  lemma AllMeasured(metric: Metric, s: Index, dim: nat, queries: seq<Vec>, k: nat, ef: Option<int>,
                    truths: seq<seq<(string, real)>>, answers: seq<seq<(string, real)>>, recall: Result<real, Error>)
    requires Inv(s) && Measured(metric, s, queries, k, ef, truths, answers)
    requires forall j :: 0 <= j < |queries| ==> |queries[j]| == dim
    requires recall == Ok(Ratio(HitsOf(truths, answers), TotalOf(truths)))
    ensures !BadlyShaped(queries, dim)
    ensures RecallIs(metric, s, queries, k, ef, recall)
  {
    hide Measured, Inv;
  }

  // ---------- what the number means ----------

  /** No two live vectors, or tombstoned ones, are equally far from any query. */
  ghost predicate Separated(metric: Metric, s: Index, queries: seq<Vec>) {
    forall i :: 0 <= i < |queries| ==> Distinct(DistFrom(metric, s.nodes, queries[i]))
  }

  /** One query: with distinct distances the true answer is one set, and the wider search hits more of it. */
  lemma WiderHitsMore(metric: Metric, s: Index, q: Vec, k: nat, ef1: Option<int>, ef2: Option<int>,
                      t1: seq<(string, real)>, a1: seq<(string, real)>, t2: seq<(string, real)>, a2: seq<(string, real)>)
    requires Inv(s) && Distinct(DistFrom(metric, s.nodes, q)) && EffectiveEf(k, s.efc, ef1) <= EffectiveEf(k, s.efc, ef2)
    requires MeasuredOne(metric, s, q, k, ef1, t1, a1) && MeasuredOne(metric, s, q, k, ef2, t2, a2)
    ensures t1 == t2 && |IdSet(t1) * IdSet(a1)| <= |IdSet(t2) * IdSet(a2)|
  {
    hide *;
    MeasuredTruth(metric, s, q, k, ef1, t1, a1);
    MeasuredTruth(metric, s, q, k, ef2, t2, a2);
    RankingUnique(LiveDist(metric, Live(s), q), Live(s).Keys, k, t1, t2);
    WiderSearchRecallsMore(metric, s, q, k, ef1, ef2, None, a1, a2);
  }

  /** The scan's answer is the true answer. */
  lemma MeasuredTruth(metric: Metric, s: Index, q: Vec, k: nat, ef: Option<int>, t: seq<(string, real)>, a: seq<(string, real)>)
    requires Inv(s) && Distinct(DistFrom(metric, s.nodes, q)) && MeasuredOne(metric, s, q, k, ef, t, a)
    ensures var d := LiveDist(metric, Live(s), q); d.Keys == Live(s).Keys && Distinct(d) && IsRanking(d, d.Keys, k, t)
    ensures Searched(metric, s, q, k, ef, None, a) && Ids(t) == Truth(metric, s, q, k, None)
  {
    var d := LiveDist(metric, Live(s), q);
    assert d.Keys == Live(s).Keys;
    LiveAnswers(metric, s, q);
    hide Searched, Inv, Distinct, IsRanking, Top, AnswerDist, LiveDist;
    DistinctVids(metric, s, q, None);
    RankingIsClosest(d, d.Keys, k, t);
    ClosestIsTop(d, k, d.Keys, Ids(t));
  }

  /** Recall over any set of queries never drops when the beam widens, tombstones or not. */
  lemma {:induction false} RecallMonotone(metric: Metric, s: Index, queries: seq<Vec>, k: nat, ef1: Option<int>, ef2: Option<int>,
                                          t1: seq<seq<(string, real)>>, a1: seq<seq<(string, real)>>,
                                          t2: seq<seq<(string, real)>>, a2: seq<seq<(string, real)>>)
    requires Inv(s) && Separated(metric, s, queries) && EffectiveEf(k, s.efc, ef1) <= EffectiveEf(k, s.efc, ef2)
    requires Measured(metric, s, queries, k, ef1, t1, a1) && Measured(metric, s, queries, k, ef2, t2, a2)
    ensures TotalOf(t1) == TotalOf(t2) && HitsOf(t1, a1) <= HitsOf(t2, a2)
    ensures Ratio(HitsOf(t1, a1), TotalOf(t1)) <= Ratio(HitsOf(t2, a2), TotalOf(t2))
  {
    hide *;
    if queries == [] {
      NoHits(metric, s, queries, k, ef1, t1, a1);
      NoHits(metric, s, queries, k, ef2, t2, a2);
    } else {
      var n := |queries| - 1;
      MeasuredFront(metric, s, queries, k, ef1, t1, a1);
      MeasuredFront(metric, s, queries, k, ef2, t2, a2);
      LastCounts(t1, a1);
      LastCounts(t2, a2);
      SeparatedFront(metric, s, queries);
      RecallMonotone(metric, s, queries[..n], k, ef1, ef2, t1[..n], a1[..n], t2[..n], a2[..n]);
      WiderHitsMore(metric, s, queries[n], k, ef1, ef2, t1[n], a1[n], t2[n], a2[n]);
    }
    RatioMonotone(HitsOf(t1, a1), HitsOf(t2, a2), TotalOf(t1));
  }

  lemma NoHits(metric: Metric, s: Index, queries: seq<Vec>, k: nat, ef: Option<int>,
               t: seq<seq<(string, real)>>, a: seq<seq<(string, real)>>)
    requires Inv(s) && Measured(metric, s, queries, k, ef, t, a) && queries == []
    ensures |t| == |a| && HitsOf(t, a) == TotalOf(t) == 0
  {
  }

  lemma MeasuredFront(metric: Metric, s: Index, queries: seq<Vec>, k: nat, ef: Option<int>,
                      t: seq<seq<(string, real)>>, a: seq<seq<(string, real)>>)
    requires Inv(s) && Measured(metric, s, queries, k, ef, t, a) && queries != []
    ensures var n := |queries| - 1;
            && |t| == |a| == |queries|
            && Measured(metric, s, queries[..n], k, ef, t[..n], a[..n]) && MeasuredOne(metric, s, queries[n], k, ef, t[n], a[n])
  {
    hide MeasuredOne, Inv;
    var n := |queries| - 1;
    forall i | 0 <= i < n ensures MeasuredOne(metric, s, queries[..n][i], k, ef, t[..n][i], a[..n][i]) {
      assert MeasuredOne(metric, s, queries[i], k, ef, t[i], a[i]);
    }
  }

  lemma SeparatedFront(metric: Metric, s: Index, queries: seq<Vec>)
    requires Separated(metric, s, queries) && queries != []
    ensures Separated(metric, s, queries[..|queries| - 1]) && Distinct(DistFrom(metric, s.nodes, queries[|queries| - 1]))
  {
    hide Distinct, DistFrom;
  }

  lemma LastCounts(t: seq<seq<(string, real)>>, a: seq<seq<(string, real)>>)
    requires |t| == |a| > 0
    ensures var n := |t| - 1;
            && HitsOf(t, a) == HitsOf(t[..n], a[..n]) + |IdSet(t[n]) * IdSet(a[n])|
            && TotalOf(t) == TotalOf(t[..n]) + |IdSet(t[n])|
  {
    hide IdSet;
  }

  lemma RatioMonotone(h1: nat, h2: nat, total: nat)
    requires h1 <= h2
    ensures Ratio(h1, total) <= Ratio(h2, total)
  {
    if total > 0 {
      assert h1 as real / total as real <= h2 as real / total as real;
    }
  }

  /** When a number is reported and when an error: 0 without data or queries, else the error of the first failing check. */
  lemma RecallReported(metric: Metric, s: Index, queries: seq<Vec>, k: int, ef: Option<int>, recall: Result<real, Error>)
    requires Inv(s) && Reported(metric, s, queries, k, ef, recall)
    ensures Live(s) == map[] || queries == [] ==> recall == Ok(0.0)
    ensures Live(s) != map[] && queries != [] && k < 1 ==> recall == Err(BadK)
    ensures Live(s) != map[] && k >= 1 && (exists i :: 0 <= i < |queries| && |queries[i]| != s.dim) ==> recall == Err(BadShape)
    ensures Live(s) != map[] && k >= 1 && queries != [] && (forall i :: 0 <= i < |queries| ==> |queries[i]| == s.dim) ==> recall.Ok?
  {
    hide Inv, Live, Measured;
  }

  /** Every true id is among the ids answered. */
  ghost predicate AllFound(truths: seq<seq<(string, real)>>, answers: seq<seq<(string, real)>>)
    requires |truths| == |answers|
  {
    forall i, v :: 0 <= i < |truths| && v in Ids(truths[i]) ==> v in Ids(answers[i])
  }

  lemma IdSetIs(xs: seq<(string, real)>)
    ensures IdSet(xs) == Ids(xs)
  {
  }

  lemma HitsOfOne(t: seq<(string, real)>, a: seq<(string, real)>)
    ensures |IdSet(t) * IdSet(a)| <= |IdSet(t)|
    ensures |IdSet(t) * IdSet(a)| == |IdSet(t)| <==> forall v :: v in Ids(t) ==> v in Ids(a)
  {
    var T, A := IdSet(t), IdSet(a);
    SubsetSize(T * A, T);
    IdSetIs(t);
    IdSetIs(a);
    if |T * A| == |T| {
      assert T * A == T;
    }
    if forall v :: v in Ids(t) ==> v in Ids(a) {
      assert T * A == T;
    }
  }

  /** There are at most as many hits as true ids, and as many exactly when every true id is found. */
  lemma {:induction false} HitsWithin(truths: seq<seq<(string, real)>>, answers: seq<seq<(string, real)>>)
    requires |truths| == |answers|
    ensures HitsOf(truths, answers) <= TotalOf(truths)
    ensures HitsOf(truths, answers) == TotalOf(truths) <==> AllFound(truths, answers)
  {
    if truths != [] {
      var n := |truths| - 1;
      LastCounts(truths, answers);
      HitsWithin(truths[..n], answers[..n]);
      HitsOfOne(truths[n], answers[n]);
      FoundFront(truths, answers);
    }
  }

  lemma FoundFront(truths: seq<seq<(string, real)>>, answers: seq<seq<(string, real)>>)
    requires |truths| == |answers| > 0
    ensures var n := |truths| - 1;
            AllFound(truths, answers) <==> AllFound(truths[..n], answers[..n]) && forall v :: v in Ids(truths[n]) ==> v in Ids(answers[n])
  {
    hide Ids;
    var n := |truths| - 1;
    if AllFound(truths[..n], answers[..n]) && forall v :: v in Ids(truths[n]) ==> v in Ids(answers[n]) {
      forall i, v | 0 <= i < |truths| && v in Ids(truths[i]) ensures v in Ids(answers[i]) {
        assert i < n ==> truths[..n][i] == truths[i] && answers[..n][i] == answers[i];
      }
    }
    if AllFound(truths, answers) {
      forall i, v | 0 <= i < n && v in Ids(truths[..n][i]) ensures v in Ids(answers[..n][i]) {
        assert v in Ids(truths[i]);
      }
    }
  }

  lemma TruthSize(metric: Metric, s: Index, q: Vec, k: nat, ef: Option<int>, truth: seq<(string, real)>, answer: seq<(string, real)>)
    requires Inv(s) && MeasuredOne(metric, s, q, k, ef, truth, answer)
    ensures |IdSet(truth)| == |truth| == Min(k, |Live(s)|)
  {
    hide Inv, Searched, Live;
    var d := LiveDist(metric, Live(s), q);
    IdsSize(d, truth);
    IdSetIs(truth);
    assert |Live(s).Keys| == |Live(s)|;
  }

  /** The total counts, for each query, the true answers there are: `k`, or all live ids if there are fewer. */
  lemma {:induction false} TotalIs(metric: Metric, s: Index, queries: seq<Vec>, k: nat, ef: Option<int>,
                                   truths: seq<seq<(string, real)>>, answers: seq<seq<(string, real)>>)
    requires Inv(s) && Measured(metric, s, queries, k, ef, truths, answers)
    ensures TotalOf(truths) == |queries| * Min(k, |Live(s)|)
  {
    hide *;
    if queries == [] {
      NoHits(metric, s, queries, k, ef, truths, answers);
    } else {
      var n := |queries| - 1;
      MeasuredFront(metric, s, queries, k, ef, truths, answers);
      LastCounts(truths, answers);
      TotalIs(metric, s, queries[..n], k, ef, truths[..n], answers[..n]);
      TruthSize(metric, s, queries[n], k, ef, truths[n], answers[n]);
      OneMoreTimes(n, Min(k, |Live(s)|));
    }
  }

  lemma OneMoreTimes(n: int, m: int)
    ensures n * m + m == (n + 1) * m
  {
  }

  /** What a reported recall is: the fraction of true answers found, between 0 and 1, and 1 exactly when each query
      found all of its own. */
  lemma RecallMeans(metric: Metric, s: Index, queries: seq<Vec>, k: nat, ef: Option<int>, recall: Result<real, Error>)
      returns (truths: seq<seq<(string, real)>>, answers: seq<seq<(string, real)>>)
    requires Inv(s) && k >= 1 && Live(s) != map[] && queries != [] && RecallIs(metric, s, queries, k, ef, recall)
    ensures Measured(metric, s, queries, k, ef, truths, answers) && recall.Ok? && |truths| == |answers| == |queries|
    ensures TotalOf(truths) == |queries| * Min(k, |Live(s)|) > 0
    ensures recall.value * TotalOf(truths) as real == HitsOf(truths, answers) as real
    ensures 0.0 <= recall.value <= 1.0
    ensures recall.value == 1.0 <==> AllFound(truths, answers)
  {
    hide Inv, MeasuredOne, HitsOf, TotalOf, AllFound, Live;
    truths, answers :| && Measured(metric, s, queries, k, ef, truths, answers)
      && recall == Ok(Ratio(HitsOf(truths, answers), TotalOf(truths)));
    MeasuredLengths(metric, s, queries, k, ef, truths, answers);
    TotalIs(metric, s, queries, k, ef, truths, answers);
    HitsWithin(truths, answers);
    assert |Live(s)| > 0;
    Positive(|queries|, Min(k, |Live(s)|));
    Fraction(HitsOf(truths, answers), TotalOf(truths), recall.value);
  }

  lemma MeasuredLengths(metric: Metric, s: Index, queries: seq<Vec>, k: nat, ef: Option<int>,
                        truths: seq<seq<(string, real)>>, answers: seq<seq<(string, real)>>)
    requires Inv(s) && Measured(metric, s, queries, k, ef, truths, answers)
    ensures |truths| == |answers| == |queries|
  {
  }

  lemma Positive(a: int, b: int)
    requires a > 0 && b > 0
    ensures a * b > 0
  {
  }

  lemma Fraction(hits: nat, total: nat, r: real)
    requires total > 0 && hits <= total && r == Ratio(hits, total)
    ensures r * total as real == hits as real && 0.0 <= r <= 1.0 && (r == 1.0 <==> hits == total)
  {
    var t := total as real;
    assert r * t == hits as real;
    assert r >= 0.0;
    if hits == total {
      assert t / t == 1.0;
    } else {
      assert r * t < 1.0 * t;
    }
  }

  /** On a small, undeleted index, a wide enough search answers each query with the scan's own list. */
  lemma SmallIndexMatchesScan(metric: Metric, states: seq<Index>, ops: seq<Op>, n: nat, q: Vec, k: nat, ef: Option<int>,
                              truth: seq<(string, real)>, answer: seq<(string, real)>)
    requires Run(metric, states, ops) && n < |states| && |states[n].nodes| <= 2 * states[n].M + 1
    requires states[n].deleted == {} && Wide(k, states[n].efc, ef, |states[n].nodes|)
    requires Inv(states[n]) && MeasuredOne(metric, states[n], q, k, ef, truth, answer)
    ensures |answer| == |truth| && forall i :: 0 <= i < |truth| ==> answer[i].1 == truth[i].1
  {
    hide Run, Inv, Searched, IsRanking;
    SmallIndexExact(metric, states, ops, n, q, k, ef, answer);
    DistancesAgree(LiveDist(metric, Live(states[n]), q), Live(states[n]).Keys, k, answer, truth);
  }

  /** One query of a small, undeleted index with distinct distances, searched wide enough: every true answer is found. */
  lemma SmallFindsAll(metric: Metric, states: seq<Index>, ops: seq<Op>, n: nat, q: Vec, k: nat, ef: Option<int>,
                      truth: seq<(string, real)>, answer: seq<(string, real)>)
    requires Run(metric, states, ops) && n < |states| && |states[n].nodes| <= 2 * states[n].M + 1
    requires states[n].deleted == {} && Wide(k, states[n].efc, ef, |states[n].nodes|)
    requires Inv(states[n]) && MeasuredOne(metric, states[n], q, k, ef, truth, answer) && Distinct(DistFrom(metric, states[n].nodes, q))
    ensures answer == truth
  {
    hide *;
    var d := LiveDist(metric, Live(states[n]), q);
    MeasuredTruth(metric, states[n], q, k, ef, truth, answer);
    SmallIndexExact(metric, states, ops, n, q, k, ef, answer);
    RankingUnique(d, d.Keys, k, answer, truth);
  }

  /** On a small, undeleted index with distinct distances, searched wide enough, the benchmark reports exactly 1. */
  lemma SmallIndexFullRecall(metric: Metric, states: seq<Index>, ops: seq<Op>, n: nat, queries: seq<Vec>, k: nat, ef: Option<int>,
                             recall: Result<real, Error>)
    requires Run(metric, states, ops) && n < |states| && |states[n].nodes| <= 2 * states[n].M + 1
    requires states[n].deleted == {} && Wide(k, states[n].efc, ef, |states[n].nodes|) && Inv(states[n]) && Live(states[n]) != map[]
    requires k >= 1 && queries != [] && (forall i :: 0 <= i < |queries| ==> |queries[i]| == states[n].dim)
    requires Separated(metric, states[n], queries) && Reported(metric, states[n], queries, k, ef, recall)
    ensures recall == Ok(1.0)
  {
    hide Run, Inv, Live, Wide, RecallIs, MeasuredOne, Distinct, DistFrom;
    var s := states[n];
    assert RecallIs(metric, s, queries, k, ef, recall);
    var truths, answers := RecallMeans(metric, s, queries, k, ef, recall);
    forall i | 0 <= i < |queries| ensures answers[i] == truths[i] {
      assert MeasuredOne(metric, s, queries[i], k, ef, truths[i], answers[i]);
      SmallFindsAll(metric, states, ops, n, queries[i], k, ef, truths[i], answers[i]);
    }
    assert AllFound(truths, answers);
  }
}
