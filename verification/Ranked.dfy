/** Result lists: `(id, distance)` pairs sorted by distance. */
module Ranked {
  import opened Ranking

  ghost predicate Sorted<K>(xs: seq<(K, real)>) {
    forall i, j :: 0 <= i < j < |xs| ==> xs[i].1 <= xs[j].1
  }

  /** A stable sort by distance. */
  function SortByDistance<K>(xs: seq<(K, real)>): (ys: seq<(K, real)>)
    ensures multiset(ys) == multiset(xs) && Sorted(ys)
  {
    if xs == [] then [] else
    assert xs == [xs[0]] + xs[1..];
    Insert(xs[0], SortByDistance(xs[1..]))
  }

  function Insert<K>(x: (K, real), xs: seq<(K, real)>): (ys: seq<(K, real)>)
    requires Sorted(xs)
    ensures multiset(ys) == multiset{x} + multiset(xs) && Sorted(ys)
  {
    if xs == [] || x.1 <= xs[0].1 then [x] + xs else
    assert xs == [xs[0]] + xs[1..];
    var ys := Insert(x, xs[1..]);
    InsertedAbove(x, xs, ys);
    [xs[0]] + ys
  }

  lemma InsertedAbove<K>(x: (K, real), xs: seq<(K, real)>, ys: seq<(K, real)>)
    requires xs != [] && Sorted(xs) && xs[0].1 < x.1 && multiset(ys) == multiset{x} + multiset(xs[1..])
    ensures forall y :: y in ys ==> xs[0].1 <= y.1
  {
    forall y | y in ys ensures xs[0].1 <= y.1 {
      assert y in multiset(ys);
    }
  }

  ghost function Ids<K>(xs: seq<(K, real)>): set<K> {
    set i | 0 <= i < |xs| :: xs[i].0
  }

  /** Each id occurs once, with its own distance. */
  ghost predicate Reports<K(!new)>(d: map<K, real>, xs: seq<(K, real)>) {
    && (forall i :: 0 <= i < |xs| ==> xs[i].0 in d && xs[i].1 == d[xs[i].0])
    && forall i, j :: 0 <= i < j < |xs| ==> xs[i].0 != xs[j].0
  }

  /** The list a caller wants: the `k` closest of `S`, each once with its true distance, nearest first. */
  ghost predicate IsRanking<K(!new)>(d: map<K, real>, S: set<K>, k: nat, xs: seq<(K, real)>)
    requires S <= d.Keys
  {
    Reports(d, xs) && Sorted(xs) && Closest(d, k, S, Ids(xs))
  }

  lemma {:induction false} IdsSize<K(!new)>(d: map<K, real>, xs: seq<(K, real)>)
    requires Reports(d, xs)
    ensures |Ids(xs)| == |xs|
  {
    if xs != [] {
      var front, last := xs[..|xs| - 1], xs[|xs| - 1];
      IdsSize(d, front);
      assert Ids(xs) == Ids(front) + {last.0};
      assert last.0 !in Ids(front);
    }
  }

  /** A list with the same entries reports the same ids. */
  lemma {:induction false} PermutedReports<K(!new)>(d: map<K, real>, xs: seq<(K, real)>, ys: seq<(K, real)>)
    requires Reports(d, xs) && multiset(ys) == multiset(xs)
    ensures Reports(d, ys) && Ids(ys) == Ids(xs)
  {
    forall i | 0 <= i < |ys| ensures ys[i] in xs {
      assert ys[i] in multiset(ys);
    }
    forall i | 0 <= i < |xs| ensures xs[i] in ys {
      assert xs[i] in multiset(xs);
    }
    forall i, j | 0 <= i < j < |ys| ensures ys[i].0 != ys[j].0 {
      if ys[i] == ys[j] {
        TwiceInMultiset(ys, i, j);
        OnceInMultiset(d, xs, ys[i]);
      }
    }
  }

  lemma TwiceInMultiset<T>(ys: seq<T>, i: nat, j: nat)
    requires i < j < |ys| && ys[i] == ys[j]
    ensures multiset(ys)[ys[i]] >= 2
  {
    assert ys == ys[..j] + [ys[j]] + ys[j + 1..];
    assert ys[i] in ys[..j];
  }

  lemma {:induction false} OnceInMultiset<K(!new)>(d: map<K, real>, xs: seq<(K, real)>, x: (K, real))
    requires Reports(d, xs)
    ensures multiset(xs)[x] <= 1
  {
    if xs != [] {
      OnceInMultiset(d, xs[1..], x);
      assert xs == [xs[0]] + xs[1..];
      if x == xs[0] {
        assert x !in xs[1..];
      }
    }
  }

  lemma PrefixIsRanking<K(!new)>(d: map<K, real>, k: nat, xs: seq<(K, real)>)
    requires Reports(d, xs) && Sorted(xs)
    ensures Ids(xs) <= d.Keys
    ensures IsRanking(d, Ids(xs), k, xs[..Min(k, |xs|)])
  {
    var ys := xs[..Min(k, |xs|)];
    IdsSize(d, xs);
    IdsSize(d, ys);
    assert forall p :: 0 <= p < |ys| ==> ys[p].0 in Ids(ys);
    forall x, y | x in Ids(ys) && y in Ids(xs) - Ids(ys) ensures d[x] <= d[y] {
      var i :| 0 <= i < |ys| && ys[i].0 == x;
      var j :| 0 <= j < |xs| && xs[j].0 == y;
      assert i < |ys| <= j;
    }
  }

  /** Two rankings of the same set agree on every distance, whatever they do with ties. */
  lemma DistancesAgree<K(!new)>(d: map<K, real>, S: set<K>, k: nat, xs: seq<(K, real)>, ys: seq<(K, real)>)
    requires S <= d.Keys && IsRanking(d, S, k, xs) && IsRanking(d, S, k, ys)
    ensures |xs| == |ys| && forall i :: 0 <= i < |xs| ==> xs[i].1 == ys[i].1
  {
    IdsSize(d, xs);
    IdsSize(d, ys);
    forall i | 0 <= i < |xs| ensures xs[i].1 == ys[i].1 {
      NotFarther(d, S, k, xs, ys, i);
      NotFarther(d, S, k, ys, xs, i);
    }
  }

  /** The i-th of one ranking is no nearer than the i-th of another: else i+1 ids would crowd i places. */
  lemma NotFarther<K(!new)>(d: map<K, real>, S: set<K>, k: nat, xs: seq<(K, real)>, ys: seq<(K, real)>, i: nat)
    requires S <= d.Keys && IsRanking(d, S, k, xs) && IsRanking(d, S, k, ys)
    requires i < |xs| && i < |ys|
    ensures ys[i].1 <= xs[i].1
  {
    if xs[i].1 < ys[i].1 {
      var A, B := xs[..i + 1], ys[..i];
      forall p | 0 <= p <= i ensures xs[p].0 in Ids(B) {
        CloserIsEarlier(d, S, k, xs, ys, p, i);
      }
      assert Ids(A) <= Ids(B);
      IdsSize(d, A);
      IdsSize(d, B);
      SubsetSize(Ids(A), Ids(B));
      assert false;
    }
  }

  /** What one ranking lists nearer than the i-th entry of another is listed before it there. */
  lemma CloserIsEarlier<K(!new)>(d: map<K, real>, S: set<K>, k: nat, xs: seq<(K, real)>, ys: seq<(K, real)>, p: nat, i: nat)
    requires S <= d.Keys && IsRanking(d, S, k, xs) && IsRanking(d, S, k, ys)
    requires p < |xs| && i < |ys| && xs[p].1 < ys[i].1
    ensures xs[p].0 in Ids(ys[..i])
  {
    var x := xs[p].0;
    assert x in Ids(xs) && ys[i].0 in Ids(ys);
    assert x in Ids(ys);
    var q :| 0 <= q < |ys| && ys[q].0 == x;
    assert q < i && ys[..i][q].0 == x;
  }

  /** With distinct distances there is only one ranking. */
  lemma RankingUnique<K(!new)>(d: map<K, real>, S: set<K>, k: nat, xs: seq<(K, real)>, ys: seq<(K, real)>)
    requires S <= d.Keys && IsRanking(d, S, k, xs) && IsRanking(d, S, k, ys) && Distinct(d)
    ensures xs == ys
  {
    DistancesAgree(d, S, k, xs, ys);
    forall i | 0 <= i < |xs| ensures xs[i] == ys[i] {
      assert d[xs[i].0] == d[ys[i].0];
    }
  }

  // ---------- building a list entry by entry ----------

  /** `kept` is sorted and no farther than where the scan of `sorted` stands. */
  ghost predicate SortedUpTo<K>(kept: seq<(K, real)>, sorted: seq<(K, real)>, j: nat) {
    Sorted(kept) && j <= |sorted| && (kept != [] ==> j > 0 && kept[|kept| - 1].1 <= sorted[j - 1].1)
  }

  lemma SortedOneMore<K>(kept: seq<(K, real)>, sorted: seq<(K, real)>, j: nat)
    requires Sorted(sorted) && j < |sorted| && SortedUpTo(kept, sorted, j)
    ensures SortedUpTo(kept, sorted, j + 1) && SortedUpTo(kept + [sorted[j]], sorted, j + 1)
  {
  }

  lemma SortedAtEnd<K>(kept: seq<(K, real)>, sorted: seq<(K, real)>, j: nat)
    requires SortedUpTo(kept, sorted, j)
    ensures Sorted(kept)
  {
  }

  function IdSet<K(==)>(xs: seq<(K, real)>): (s: set<K>)
    ensures s == Ids(xs)
  {
    set e | e in xs :: e.0
  }

  lemma NothingReported<K(!new)>(d: map<K, real>)
    ensures Reports<K>(d, []) && Ids<K>([]) == {} && forall sorted: seq<(K, real)> :: SortedUpTo([], sorted, 0)
  {
  }

  lemma RankingWithin<K(!new)>(d: map<K, real>, S: set<K>, k: nat, xs: seq<(K, real)>)
    requires S <= d.Keys && IsRanking(d, S, k, xs)
    ensures forall i :: 0 <= i < |xs| ==> xs[i].0 in d
  {
  }

  lemma RankingIsClosest<K(!new)>(d: map<K, real>, S: set<K>, k: nat, xs: seq<(K, real)>)
    requires S <= d.Keys && IsRanking(d, S, k, xs)
    ensures Closest(d, k, S, Ids(xs))
  {
  }

  lemma ReportsOneMore<K(!new)>(d: map<K, real>, xs: seq<(K, real)>, x: K)
    requires Reports(d, xs) && x in d && x !in Ids(xs)
    ensures Reports(d, xs + [(x, d[x])]) && Ids(xs + [(x, d[x])]) == Ids(xs) + {x}
  {
    var ys := xs + [(x, d[x])];
    forall i | 0 <= i < |ys| ensures ys[i].0 in d && ys[i].1 == d[ys[i].0] && ys[i].0 in Ids(ys) {}
    forall i, j | 0 <= i < j < |ys| ensures ys[i].0 != ys[j].0 {
      assert ys[i].0 in Ids(xs);
    }
    forall y | y in Ids(xs) ensures y in Ids(ys) {
      var i :| 0 <= i < |xs| && xs[i].0 == y;
      assert ys[i].0 == y;
    }
    assert ys[|xs|].0 == x;
  }

  lemma IdsOneMore<K(!new)>(d: map<K, real>, xs: seq<(K, real)>, j: nat)
    requires Reports(d, xs) && j < |xs|
    ensures Ids(xs[..j + 1]) == Ids(xs[..j]) + {xs[j].0} && xs[j].0 !in Ids(xs[..j]) && xs[j].0 in Ids(xs) && xs[j].0 in d && xs[j].1 == d[xs[j].0]
  {
    ReportsOneMore(d, xs[..j], xs[j].0);
    assert xs[..j + 1] == xs[..j] + [(xs[j].0, d[xs[j].0])];
  }
}
