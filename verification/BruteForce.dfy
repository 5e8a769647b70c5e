/** The exhaustive scan used as ground truth. */
module BruteForce {
  import opened Types
  import opened Ranking
  import opened Ranked
  import opened Graph
  import opened Answers

  datatype Error = BadShape | BadK

  /** Distance by position: the scan does not require ids to be distinct. */
  ghost function PositionDist(metric: Metric, vectors: seq<Vec>, q: Vec): map<nat, real> {
    map i: nat | i < |vectors| :: metric(q, vectors[i])
  }

  /** `res` names the positions of some ranking of the `k` closest. */
  ghost predicate Scanned(metric: Metric, ids: seq<string>, vectors: seq<Vec>, q: Vec, k: nat, res: seq<(string, real)>)
    requires |ids| == |vectors|
  {
    exists xs :: ScannedAs(metric, ids, vectors, q, k, xs, res)
  }

  ghost predicate ScannedAs(metric: Metric, ids: seq<string>, vectors: seq<Vec>, q: Vec, k: nat, xs: seq<(nat, real)>, res: seq<(string, real)>)
    requires |ids| == |vectors|
  {
    var d := PositionDist(metric, vectors, q);
    && IsRanking(d, d.Keys, k, xs) && |res| == |xs|
    && forall i :: 0 <= i < |xs| ==> xs[i].0 < |ids| && res[i] == (ids[xs[i].0], xs[i].1)
  }

  ghost function Pairs(ids: seq<string>, vectors: seq<Vec>): seq<(string, Vec)>
    requires |ids| == |vectors|
  {
    seq(|ids|, i requires 0 <= i < |ids| => (ids[i], vectors[i]))
  }

  class BruteForceIndex {
    const metric: Metric
    const dim: nat
    var ids: seq<string>
    var vectors: seq<Vec>

    ghost predicate Valid()
      reads this
    {
      |ids| == |vectors|
    }

    ghost function Items(): seq<(string, Vec)>
      requires Valid()
      reads this
    {
      Pairs(ids, vectors)
    }

    lemma Parts()
      requires Valid()
      ensures |ids| == |vectors| && Items() == Pairs(ids, vectors)
    {
    }

    constructor (metric: Metric, dim: nat)
      requires 1 <= dim
      ensures Valid() && ids == [] && vectors == [] && this.dim == dim && this.metric == metric
    {
      this.metric, this.dim, ids, vectors := metric, dim, [], [];
    }

    method Add(vid: string, vector: Vec) returns (r: Result<(), Error>)
      requires Valid()
      modifies this
      ensures Valid() && r == if |vector| != dim then Err(BadShape) else Ok(())
      ensures Items() == if r.Ok? then old(Items()) + [(vid, vector)] else old(Items())
    {
      if |vector| != dim {
        return Err(BadShape);
      }
      ids, vectors := ids + [vid], vectors + [vector];
      r := Ok(());
    }

    /** Remove the first entry filed under `vid`. */
    method Delete(vid: string) returns (found: bool)
      requires Valid()
      modifies this
      ensures Valid() && found == (vid in old(ids))
      ensures !found ==> Items() == old(Items())
      ensures found ==> exists i :: 0 <= i < |old(ids)| && old(ids)[i] == vid && vid !in old(ids)[..i]
                                 && Items() == old(Items())[..i] + old(Items())[i + 1..]
    {
      var i := 0;
      while i < |ids| && ids[i] != vid
        invariant 0 <= i <= |ids| && vid !in ids[..i]
      {
        i := i + 1;
      }
      if i == |ids| {
        return false;
      }
      ids, vectors := ids[..i] + ids[i + 1..], vectors[..i] + vectors[i + 1..];
      found := true;
      assert Items() == old(Items())[..i] + old(Items())[i + 1..];
    }

    method Search(query: Vec, k: int) returns (r: Result<seq<(string, real)>, Error>)
      requires Valid()
      ensures k < 1 ==> r == Err(BadK)
      ensures k >= 1 && |query| != dim ==> r == Err(BadShape)
      ensures k >= 1 && |query| == dim ==> r.Ok? && Scanned(metric, ids, vectors, query, k, r.value)
    {
      if k < 1 {
        return Err(BadK);
      }
      if |query| != dim {
        return Err(BadShape);
      }
      var res := Scan(query, k);
      r := Ok(res);
    }

    /** Score every position, take the `k` closest, nearest first. */
    method Scan(query: Vec, k: nat) returns (res: seq<(string, real)>)
      requires |ids| == |vectors|
      ensures Scanned(metric, ids, vectors, query, k, res)
    {
      hide *;
      var scored: seq<(nat, real)> := [];
      for i := 0 to |ids|
        invariant |scored| == i && forall j :: 0 <= j < i ==> scored[j] == (j, metric(query, vectors[j]))
      {
        scored := scored + [(i, metric(query, vectors[i]))];
      }
      var sorted := SortByDistance<nat>(scored);
      var xs := sorted[..Min(k, |sorted|)];
      ScoresRank(metric, ids, vectors, query, k, scored, xs);
      res := [];
      for i := 0 to |xs|
        invariant |res| == i && forall j :: 0 <= j < i ==> res[j] == (ids[xs[j].0], xs[j].1)
      {
        res := res + [(ids[xs[i].0], xs[i].1)];
      }
      ScanDone(metric, ids, vectors, query, k, xs, res);
    }
  }

  lemma ScoresRank(metric: Metric, ids: seq<string>, vectors: seq<Vec>, q: Vec, k: nat, scored: seq<(nat, real)>, xs: seq<(nat, real)>)
    requires |ids| == |vectors| == |scored| && forall j :: 0 <= j < |scored| ==> scored[j] == (j, metric(q, vectors[j]))
    requires var sorted := SortByDistance(scored); xs == sorted[..Min(k, |sorted|)]
    ensures IsRanking(PositionDist(metric, vectors, q), PositionDist(metric, vectors, q).Keys, k, xs)
    ensures forall i :: 0 <= i < |xs| ==> xs[i].0 < |ids|
  {
    var d := PositionDist(metric, vectors, q);
    AllScored(metric, vectors, q, scored);
    hide IsRanking, Reports, Ids, SortByDistance, Sorted;
    PermutedReports(d, scored, SortByDistance(scored));
    PrefixIsRanking(d, k, SortByDistance(scored));
    RankingWithin(d, d.Keys, k, xs);
  }

  lemma ScanDone(metric: Metric, ids: seq<string>, vectors: seq<Vec>, q: Vec, k: nat, xs: seq<(nat, real)>, res: seq<(string, real)>)
    requires |ids| == |vectors| && |res| == |xs|
    requires IsRanking(PositionDist(metric, vectors, q), PositionDist(metric, vectors, q).Keys, k, xs)
    requires forall i :: 0 <= i < |xs| ==> xs[i].0 < |ids| && res[i] == (ids[xs[i].0], xs[i].1)
    ensures Scanned(metric, ids, vectors, q, k, res)
  {
    hide IsRanking, PositionDist;
    assert ScannedAs(metric, ids, vectors, q, k, xs, res);
  }

  lemma AllScored(metric: Metric, vectors: seq<Vec>, q: Vec, scored: seq<(nat, real)>)
    requires |scored| == |vectors| && forall j :: 0 <= j < |scored| ==> scored[j] == (j, metric(q, vectors[j]))
    ensures Reports(PositionDist(metric, vectors, q), scored) && Ids(scored) == PositionDist(metric, vectors, q).Keys
  {
    forall i: nat | i < |vectors| ensures i in Ids(scored) {
      assert scored[i].0 == i;
    }
  }

  // ---------- a scan of the live contents is the exact answer ----------

  ghost function Names(ids: seq<string>, S: set<nat>): set<string>
    requires forall i :: i in S ==> i < |ids|
  {
    set i | i in S :: ids[i]
  }

  lemma {:induction false} NamesSize(ids: seq<string>, S: set<nat>)
    requires forall i :: i in S ==> i < |ids|
    requires forall i, j :: 0 <= i < j < |ids| ==> ids[i] != ids[j]
    ensures |Names(ids, S)| == |S|
  {
    if S != {} {
      var i :| i in S;
      NamesSize(ids, S - {i});
      assert Names(ids, S) == Names(ids, S - {i}) + {ids[i]};
    }
  }

  /** Scanning a list of the live contents, each id once and in any order, ranks the live contents. */
  lemma ScanIsExact(metric: Metric, live: map<string, Vec>, ids: seq<string>, vectors: seq<Vec>, q: Vec, k: nat, res: seq<(string, real)>)
    requires |ids| == |vectors| && Lists(live, Pairs(ids, vectors)) && Scanned(metric, ids, vectors, q, k, res)
    ensures IsRanking(LiveDist(metric, live, q), live.Keys, k, res)
  {
    var xs :| ScannedAs(metric, ids, vectors, q, k, xs, res);
    PositionsAreLive(metric, live, ids, vectors, q);
    var d, a := PositionDist(metric, vectors, q), LiveDist(metric, live, q);
    hide PositionDist, LiveDist, Lists, Pairs;
    NamedScan(d, ids, xs, res);
    NamesSize(ids, Ids(xs));
    PositionCount(metric, vectors, q);
    ScanCloses(d, a, ids, k, Ids(xs));
    ScanReports(d, a, ids, xs, res);
  }

  /** Positions and live ids correspond. */
  lemma PositionsAreLive(metric: Metric, live: map<string, Vec>, ids: seq<string>, vectors: seq<Vec>, q: Vec)
    requires |ids| == |vectors| && Lists(live, Pairs(ids, vectors))
    ensures var d, a := PositionDist(metric, vectors, q), LiveDist(metric, live, q);
            && (forall i: nat :: i in d <==> i < |ids|) && |d.Keys| == |ids|
            && a.Keys == live.Keys == Names(ids, d.Keys)
            && (forall i :: i in d ==> ids[i] in a && a[ids[i]] == d[i])
            && forall i, j :: 0 <= i < j < |ids| ==> ids[i] != ids[j]
  {
    var items := Pairs(ids, vectors);
    assert forall i :: 0 <= i < |ids| ==> items[i] == (ids[i], vectors[i]);
    var d := PositionDist(metric, vectors, q);
    PositionCount(metric, vectors, q);
    NamesSize(ids, d.Keys);
    assert Names(ids, d.Keys) <= live.Keys;
    SubsetSize(Names(ids, d.Keys), live.Keys);
  }

  lemma ScanCloses(d: map<nat, real>, a: map<string, real>, ids: seq<string>, k: nat, R: set<nat>)
    requires (forall i: nat :: i in d <==> i < |ids|) && |d.Keys| == |ids| && R <= d.Keys && Closest(d, k, d.Keys, R)
    requires a.Keys == Names(ids, d.Keys) && forall i :: i in d ==> ids[i] in a && a[ids[i]] == d[i]
    requires forall i, j :: 0 <= i < j < |ids| ==> ids[i] != ids[j]
    ensures Closest(a, k, a.Keys, Names(ids, R))
  {
    NamesSize(ids, R);
    NamesSize(ids, d.Keys);
    forall x, y | x in Names(ids, R) && y in a.Keys - Names(ids, R) ensures a[x] <= a[y] {
      var i :| i in R && ids[i] == x;
      var j :| j in d && ids[j] == y;
      assert j !in R;
      assert d[i] <= d[j];
    }
  }

  lemma ScanReports(d: map<nat, real>, a: map<string, real>, ids: seq<string>, xs: seq<(nat, real)>, res: seq<(string, real)>)
    requires (forall i: nat :: i in d <==> i < |ids|) && Reports(d, xs) && Sorted(xs)
    requires forall i :: i in d ==> ids[i] in a && a[ids[i]] == d[i]
    requires forall i, j :: 0 <= i < j < |ids| ==> ids[i] != ids[j]
    requires |res| == |xs| && forall i :: 0 <= i < |xs| ==> xs[i].0 < |ids| && res[i] == (ids[xs[i].0], xs[i].1)
    ensures Reports(a, res) && Sorted(res)
  {
    forall i, j | 0 <= i < j < |res| ensures res[i].0 != res[j].0 {
      assert xs[i].0 != xs[j].0;
      assert ids[xs[i].0] != ids[xs[j].0];
    }
  }

  lemma {:induction false} PositionCount(metric: Metric, vectors: seq<Vec>, q: Vec)
    ensures |PositionDist(metric, vectors, q).Keys| == |vectors|
  {
    if vectors != [] {
      var n := |vectors| - 1;
      PositionCount(metric, vectors[..n], q);
      assert PositionDist(metric, vectors, q).Keys == PositionDist(metric, vectors[..n], q).Keys + {n};
    } else {
      assert PositionDist(metric, vectors, q).Keys == {};
    }
  }

  lemma NamedScan(d: map<nat, real>, ids: seq<string>, xs: seq<(nat, real)>, res: seq<(string, real)>)
    requires |res| == |xs| && forall i :: 0 <= i < |xs| ==> xs[i].0 < |ids| && res[i] == (ids[xs[i].0], xs[i].1)
    ensures (forall i :: i in Ids(xs) ==> i < |ids|) && Ids(res) == Names(ids, Ids(xs))
  {
    forall i | 0 <= i < |xs| ensures res[i].0 in Names(ids, Ids(xs)) {
      assert xs[i].0 in Ids(xs);
    }
    forall v | v in Names(ids, Ids(xs)) ensures v in Ids(res) {
      var i :| 0 <= i < |xs| && ids[xs[i].0] == v;
      assert res[i].0 == v;
    }
  }
}
