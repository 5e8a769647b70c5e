/** Merging per-shard result lists. */
module Merge {
  import opened Ranking
  import opened Ranked

  function Concat<K>(lists: seq<seq<(K, real)>>): seq<(K, real)> {
    if lists == [] then [] else Concat(lists[..|lists| - 1]) + lists[|lists| - 1]
  }

  /** Concatenate, sort by distance, keep `k`. */
  function Merged<K>(lists: seq<seq<(K, real)>>, k: nat): seq<(K, real)> {
    var sorted := SortByDistance(Concat(lists));
    sorted[..Min(k, |sorted|)]
  }

  ghost function AllIds<K>(lists: seq<seq<(K, real)>>): set<K> {
    if lists == [] then {} else AllIds(lists[..|lists| - 1]) + Ids(lists[|lists| - 1])
  }

  ghost function AllKeys<K>(parts: seq<map<K, real>>): set<K> {
    if parts == [] then {} else AllKeys(parts[..|parts| - 1]) + parts[|parts| - 1].Keys
  }

  /** `parts` splits (some of) `d` into disjoint pieces. */
  ghost predicate Split<K(!new)>(d: map<K, real>, parts: seq<map<K, real>>) {
    && (forall i, x :: 0 <= i < |parts| && x in parts[i] ==> x in d && d[x] == parts[i][x])
    && forall i, j :: 0 <= i < j < |parts| ==> parts[i].Keys !! parts[j].Keys
  }

  ghost predicate ShardReports<K(!new)>(parts: seq<map<K, real>>, lists: seq<seq<(K, real)>>) {
    |lists| == |parts| && forall i :: 0 <= i < |lists| ==> Reports(parts[i], lists[i])
  }

  lemma {:induction false} InAllIds<K(!new)>(lists: seq<seq<(K, real)>>, x: K)
    ensures x in AllIds(lists) <==> exists i :: 0 <= i < |lists| && x in Ids(lists[i])
  {
    if lists != [] {
      var n := |lists| - 1;
      InAllIds(lists[..n], x);
      if i :| 0 <= i < |lists| && x in Ids(lists[i]) {
        assert i < n ==> lists[..n][i] == lists[i];
      }
    }
  }

  lemma {:induction false} InAllKeys<K(!new)>(parts: seq<map<K, real>>, x: K)
    ensures x in AllKeys(parts) <==> exists i :: 0 <= i < |parts| && x in parts[i]
  {
    if parts != [] {
      var n := |parts| - 1;
      InAllKeys(parts[..n], x);
      if i :| 0 <= i < |parts| && x in parts[i] {
        assert i < n ==> parts[..n][i] == parts[i];
      }
    }
  }

  lemma ReportsWider<K(!new)>(d: map<K, real>, part: map<K, real>, xs: seq<(K, real)>)
    requires Reports(part, xs) && forall x :: x in part ==> x in d && d[x] == part[x]
    ensures Reports(d, xs) && Ids(xs) <= part.Keys
  {
  }

  lemma ConcatTwo<K(!new)>(d: map<K, real>, xs: seq<(K, real)>, ys: seq<(K, real)>)
    requires Reports(d, xs) && Reports(d, ys) && Ids(xs) !! Ids(ys)
    ensures Reports(d, xs + ys) && Ids(xs + ys) == Ids(xs) + Ids(ys)
  {
    var zs := xs + ys;
    forall i, j | 0 <= i < j < |zs| ensures zs[i].0 != zs[j].0 {
      if i < |xs| <= j {
        assert xs[i].0 in Ids(xs) && ys[j - |xs|].0 in Ids(ys);
      }
    }
    forall x | x in Ids(ys) ensures x in Ids(zs) {
      var i :| 0 <= i < |ys| && ys[i].0 == x;
      assert zs[|xs| + i].0 == x;
    }
    forall x | x in Ids(xs) ensures x in Ids(zs) {
      var i :| 0 <= i < |xs| && xs[i].0 == x;
      assert zs[i].0 == x;
    }
  }

  /** Lists from disjoint shards concatenate into one report: no id is repeated. */
  lemma {:induction false} ConcatReports<K(!new)>(d: map<K, real>, parts: seq<map<K, real>>, lists: seq<seq<(K, real)>>)
    requires Split(d, parts) && ShardReports(parts, lists)
    ensures Reports(d, Concat(lists)) && Ids(Concat(lists)) == AllIds(lists) <= AllKeys(parts)
  {
    if lists != [] {
      var n := |lists| - 1;
      assert parts[..n] + [parts[n]] == parts;
      ConcatReports(d, parts[..n], lists[..n]);
      ReportsWider(d, parts[n], lists[n]);
      forall x | x in AllKeys(parts[..n]) ensures x !in parts[n] {
        InAllKeys(parts[..n], x);
      }
      hide Reports, Split, Ids;
      ConcatTwo(d, Concat(lists[..n]), lists[n]);
    }
  }

  /** The merged list ranks what the shards returned between them. */
  lemma MergedRanks<K(!new)>(d: map<K, real>, parts: seq<map<K, real>>, lists: seq<seq<(K, real)>>, k: nat)
    requires Split(d, parts) && ShardReports(parts, lists)
    ensures AllIds(lists) <= d.Keys && IsRanking(d, AllIds(lists), k, Merged(lists, k))
  {
    ConcatReports(d, parts, lists);
    hide Split, ShardReports, Reports, Concat, AllIds, AllKeys, SortByDistance, Ids, IsRanking;
    var all := Concat(lists);
    PermutedReports(d, all, SortByDistance(all));
    PrefixIsRanking(d, k, SortByDistance(all));
  }

  /** Merging loses nothing: with distinct distances, the true top-`k` members in the merged list are exactly
      those some shard returned. */
  lemma MergeLosesNothing<K(!new)>(d: map<K, real>, parts: seq<map<K, real>>, lists: seq<seq<(K, real)>>, k: nat)
    requires Split(d, parts) && ShardReports(parts, lists) && Distinct(d)
    ensures Top(d, k, d.Keys) * Ids(Merged(lists, k)) == Top(d, k, d.Keys) * AllIds(lists)
  {
    MergedRanks(d, parts, lists, k);
    hide Split, ShardReports, Merged, Distinct, IsRanking, AllIds, Ids, Top;
    RankingIsClosest(d, AllIds(lists), k, Merged(lists, k));
    ClosestIsTop(d, k, AllIds(lists), Ids(Merged(lists, k)));
    TopOfPart(d, k, d.Keys, AllIds(lists));
  }

  /** Each shard returned a true ranking of its own part. */
  ghost predicate ShardsExact<K(!new)>(parts: seq<map<K, real>>, lists: seq<seq<(K, real)>>, k: nat) {
    |lists| == |parts| && forall i :: 0 <= i < |lists| ==> IsRanking(parts[i], parts[i].Keys, k, lists[i])
  }

  /** What no shard returned is behind `k` others of its own shard. */
  lemma LeftOutIsBehind<K(!new)>(d: map<K, real>, parts: seq<map<K, real>>, lists: seq<seq<(K, real)>>, k: nat, y: K) returns (R: set<K>)
    requires Split(d, parts) && ShardsExact(parts, lists, k) && y in AllKeys(parts) && y !in AllIds(lists)
    ensures R <= AllIds(lists) && R <= d.Keys && y in d && |R| == k && forall x :: x in R ==> d[x] <= d[y]
  {
    hide IsRanking, Ids, Reports, AllIds, AllKeys;
    InAllKeys(parts, y);
    var i :| 0 <= i < |parts| && y in parts[i];
    R := Ids(lists[i]);
    InAllIds(lists, y);
    BehindInPart(parts[i], lists[i], k, y);
    forall x | x in R ensures x in AllIds(lists) && x in d && d[x] <= d[y] { InAllIds(lists, x); }
  }

  lemma BehindInPart<K(!new)>(part: map<K, real>, xs: seq<(K, real)>, k: nat, y: K)
    requires IsRanking(part, part.Keys, k, xs) && y in part && y !in Ids(xs)
    ensures Ids(xs) <= part.Keys && |Ids(xs)| == k && forall x :: x in Ids(xs) ==> part[x] <= part[y]
    ensures Reports(part, xs)
  {
    SubsetSize(Ids(xs), part.Keys - {y});
    assert y in part.Keys - Ids(xs);
  }

  /** A set of `k` no farther than `y` puts every chosen element no farther than `y`. */
  lemma ChosenNotFarther<K(!new)>(d: map<K, real>, k: nat, U: set<K>, C: set<K>, R: set<K>, x: K, y: K)
    requires U <= d.Keys && Closest(d, k, U, C) && R <= U && |R| == k && y in d && (forall z :: z in R ==> d[z] <= d[y]) && x in C
    ensures d[x] <= d[y]
  {
    if R <= C {
      SubsetSize(R, C);
    } else {
      var z :| z in R && z !in C;
    }
  }

  /** Exact shards merge into an exact answer over all of the data. */
  lemma MergeExact<K(!new)>(d: map<K, real>, parts: seq<map<K, real>>, lists: seq<seq<(K, real)>>, k: nat)
    requires Split(d, parts) && AllKeys(parts) == d.Keys && ShardsExact(parts, lists, k)
    ensures IsRanking(d, d.Keys, k, Merged(lists, k))
  {
    MergedRanks(d, parts, lists, k);
    var U, C := AllIds(lists), Ids(Merged(lists, k));
    hide Split, ShardsExact, Merged, AllIds, AllKeys, Ids;
    SubsetSize(U, d.Keys);
    forall y | y in d.Keys - U ensures k <= |U| && forall x :: x in C ==> d[x] <= d[y] {
      var R := LeftOutIsBehind(d, parts, lists, k, y);
      SubsetSize(R, U);
      forall x | x in C ensures d[x] <= d[y] {
        ChosenNotFarther(d, k, U, C, R, x, y);
      }
    }
    if U != d.Keys {
      var y :| y in d.Keys - U;
    }
  }
}
