/** The steps of the methods of the index, as facts about values.

    Wiring one layer edge by edge and trim by trim; collecting the nearest candidate, the eligible results and the
    live items entry by entry; and putting the parts of an insertion or an answer together. Each lemma is what one
    statement of a method of `Hnsw` needs, stated away from the heap. */
module Wiring {
  import opened Types
  import opened Ranking
  import opened Ranked
  import opened Beam
  import opened BeamLoop
  import opened Graph

  lemma JoinedNothing(g: Nodes, iid: nat, l: nat)
    requires iid in g && l in g[iid].nbrs
    ensures Joined(g, iid, l, {}) == g
  {
    var v := g[iid];
    assert v.Nbrs(l) + {} == v.nbrs[l] && v.nbrs[l := v.nbrs[l]] == v.nbrs;
  }

  lemma JoinedOneMore(g: Nodes, iid: nat, l: nat, S: set<nat>, x: nat)
    requires iid in g && x in g && x !in S && x != iid
    ensures var j := Joined(g, iid, l, S);
            var j1 := j[iid := j[iid].Put(l, j[iid].Nbrs(l) + {x})];
            Joined(g, iid, l, S + {x}) == j1[x := j1[x].Put(l, j1[x].Nbrs(l) + {iid})]
  {
    var j := Joined(g, iid, l, S);
    assert g[iid].Nbrs(l) + S + {x} == g[iid].Nbrs(l) + (S + {x});
    assert j[iid].Put(l, j[iid].Nbrs(l) + {x}).nbrs == g[iid].nbrs[l := g[iid].Nbrs(l) + (S + {x})];
  }

  ghost predicate SameVectors(g: Nodes, h: Nodes) {
    g.Keys == h.Keys && forall i :: i in g ==> h[i].vec == g[i].vec
  }

  ghost predicate InRange(g: Nodes, h: Nodes, l: nat) {
    g.Keys == h.Keys && forall i :: i in h ==> h[i].Nbrs(l) <= g.Keys
  }

  /** Some of the selected neighbours have been considered for trimming, the rest are as joined. */
  ghost predicate PartlyTrimmed(metric: Metric, g: Nodes, mid: Nodes, cap: nat, l: nat, seen: set<nat>, now: Nodes)
    requires InRange(g, mid, l)
  {
    && now.Keys == g.Keys
    && forall i :: i in g ==> if i in seen then Trimmed(metric, g, cap, l, mid[i], now[i]) else now[i] == mid[i]
  }

  lemma NothingTrimmed(metric: Metric, g: Nodes, mid: Nodes, cap: nat, l: nat)
    requires InRange(g, mid, l)
    ensures PartlyTrimmed(metric, g, mid, cap, l, {}, mid)
  {
  }

  lemma VectorsStay(metric: Metric, g: Nodes, mid: Nodes, cap: nat, l: nat, seen: set<nat>, now: Nodes, q: Vec)
    requires InRange(g, mid, l) && SameVectors(g, mid) && PartlyTrimmed(metric, g, mid, cap, l, seen, now)
    ensures DistFrom(metric, now, q) == DistFrom(metric, g, q)
  {
    forall i | i in g ensures now[i].vec == g[i].vec {
      if i in seen {
        assert Trimmed(metric, g, cap, l, mid[i], now[i]);
      }
    }
  }

  /** Considering one more neighbour: it is still as joined, and if it is within its cap there is nothing to do. */
  lemma TrimFacts(metric: Metric, g: Nodes, mid: Nodes, cap: nat, l: nat, seen: set<nat>, now: Nodes, x: nat)
    requires InRange(g, mid, l) && SameVectors(g, mid) && PartlyTrimmed(metric, g, mid, cap, l, seen, now) && x in g && x !in seen
    ensures x in now && now[x] == mid[x] && now[x].Nbrs(l) <= now.Keys
    ensures |now[x].Nbrs(l)| <= cap ==> PartlyTrimmed(metric, g, mid, cap, l, seen + {x}, now)
  {
  }

  lemma TrimOne(metric: Metric, g: Nodes, mid: Nodes, cap: nat, l: nat, seen: set<nat>, now: Nodes, x: nat, kept: set<nat>)
    requires InRange(g, mid, l) && SameVectors(g, mid) && PartlyTrimmed(metric, g, mid, cap, l, seen, now) && x in g && x !in seen
    requires now[x].Nbrs(l) <= now.Keys && |now[x].Nbrs(l)| > cap
    requires Closest(DistFrom(metric, now, now[x].vec), cap, now[x].Nbrs(l), kept)
    ensures PartlyTrimmed(metric, g, mid, cap, l, seen + {x}, now[x := now[x].Put(l, kept)])
  {
    VectorsStay(metric, g, mid, cap, l, seen, now, now[x].vec);
    var v' := mid[x].Put(l, kept);
    assert Trimmed(metric, g, cap, l, mid[x], v');
  }

  lemma WiredWhenTrimmed(metric: Metric, M: nat, g: Nodes, iid: nat, l: nat, sel: set<nat>, now: Nodes)
    requires EdgesOk(g) && iid in g && sel <= g.Keys && InRange(g, Joined(g, iid, l, sel), l)
    requires PartlyTrimmed(metric, g, Joined(g, iid, l, sel), Cap(M, l), l, sel, now)
    ensures Wired(metric, M, g, iid, l, sel, now)
  {
  }

  lemma JoinedInRange(g: Nodes, iid: nat, l: nat, sel: set<nat>)
    requires EdgesOk(g) && iid in g && sel <= g.Keys
    ensures InRange(g, Joined(g, iid, l, sel), l) && SameVectors(g, Joined(g, iid, l, sel))
  {
    NeighboursExist(g);
  }

  /** The nearest entry of a reported walk is its nearest node. */
  lemma NearestReported(metric: Metric, g: Nodes, q: Vec, result: seq<(nat, real)>, ep: nat)
    requires Reports(DistFrom(metric, g, q), result)
    requires exists i :: 0 <= i < |result| && result[i].0 == ep && forall j :: 0 <= j < |result| ==> result[i].1 <= result[j].1
    ensures NearestOf(metric, g, q, Ids(result), ep) && ep in g
  {
  }

  lemma WalkFinds(metric: Metric, nodes: Nodes, deleted: set<nat>, filter: Option<Filter>, q: Vec, ep: nat, ef: int, l: nat,
                  result: seq<(nat, real)>)
    requires EdgesOk(nodes) && ep in nodes && Walked(metric, nodes, deleted, filter, q, ep, ef, l, Ids(result))
    ensures result != []
  {
    LayerWalkValid(metric, nodes, deleted, filter, q, l);
    OutcomeBasics(LayerWalk(metric, nodes, deleted, filter, q, l), ep, ef, Ids(result));
  }

  lemma MovedStep(metric: Metric, nodes: Nodes, deleted: set<nat>, q: Vec, ep: nat, l: nat, ep': nat, found: set<nat>)
    requires EdgesOk(nodes) && ep in nodes
    requires Walked(metric, nodes, deleted, None, q, ep, 1, l, found) && NearestOf(metric, nodes, q, found, ep')
    ensures Moved(metric, nodes, deleted, q, ep, l, ep')
  {
  }

  lemma InsertedStep(metric: Metric, M: nat, efc: nat, deleted: set<nat>, iid: nat, l: nat, g: Nodes, ep: nat, g': Nodes, ep': nat,
                     found: set<nat>, sel: set<nat>)
    requires EdgesOk(g) && iid in g && ep in g
    requires Walked(metric, g, deleted, None, g[iid].vec, ep, efc, l, found) && NearestOf(metric, g, g[iid].vec, found, ep')
    requires found <= g.Keys && Closest(DistFrom(metric, g, g[iid].vec), Cap(M, l), found, sel)
    requires Wired(metric, M, g, iid, l, sel, g')
    ensures Inserted(metric, M, efc, deleted, iid, l, g, ep, g', ep')
  {
    hide Walked, Wired, EdgesOk;
  }

  lemma SearchedNothing(metric: Metric, s: Index, q: Vec, k: nat, ef: Option<int>, filter: Option<Filter>)
    requires Inv(s) && s.entry.None?
    ensures Searched(metric, s, q, k, ef, filter, [])
  {
  }

  lemma SearchedBy(metric: Metric, s: Index, q: Vec, k: nat, ef: Option<int>, filter: Option<Filter>,
                   ep: nat, found: set<nat>, xs: seq<(nat, real)>, res: seq<(string, real)>)
    requires Inv(s) && s.entry.Some? && EdgesOk(s.nodes) && s.entry.value in s.nodes && ep in s.nodes && found <= s.nodes.Keys
    requires Descended(metric, s.nodes, s.deleted, q, s.entry.value, s.maxLayer, 0, ep)
    requires Walked(metric, s.nodes, s.deleted, filter, q, ep, EffectiveEf(k, s.efc, ef), 0, found)
    requires EligibleIn(s.nodes, s.deleted, filter, found) <= DistFrom(metric, s.nodes, q).Keys
    requires IsRanking(DistFrom(metric, s.nodes, q), EligibleIn(s.nodes, s.deleted, filter, found), k, xs)
    requires Named(s.nodes, xs, res)
    ensures Searched(metric, s, q, k, ef, filter, res)
  {
    hide Descended, Walked, EffectiveEf, IsRanking, EligibleIn, Named, Inv;
  }

  /** The number of live ids, counted through the id map and through the nodes. */
  lemma {:induction false} LiveCount(s: Index)
    requires Inv(s)
    ensures |Live(s)| == |LiveIds(s)| == |s.nodes| - |s.deleted|
  {
    var named := set v | v in Live(s) :: s.idMap[v];
    assert named == LiveIds(s) by {
      forall i | i in LiveIds(s) ensures i in named {
        assert s.nodes[i].vid in Live(s);
      }
    }
    ImageSize(s, Live(s).Keys);
    assert |s.nodes.Keys - s.deleted| == |s.nodes.Keys| - |s.deleted| by {
      assert s.nodes.Keys == s.deleted + (s.nodes.Keys - s.deleted);
    }
  }

  lemma {:induction false} ImageSize(s: Index, V: set<string>)
    requires Inv(s) && V <= s.idMap.Keys
    ensures |set v | v in V :: s.idMap[v]| == |V|
  {
    if V != {} {
      var v :| v in V;
      ImageSize(s, V - {v});
      assert (set u | u in V :: s.idMap[u]) == (set u | u in V - {v} :: s.idMap[u]) + {s.idMap[v]};
    }
  }

  // ---------- listing the live contents ----------

  ghost predicate Listing(s: Index, pending: set<nat>, listed: seq<nat>, items: seq<(string, Vec)>) {
    && |listed| == |items|
    && (forall i :: 0 <= i < |items| ==> listed[i] in LiveIds(s) - pending)
    && (forall i :: 0 <= i < |items| ==> listed[i] in s.nodes && items[i] == (s.nodes[listed[i]].vid, s.nodes[listed[i]].vec))
    && (forall i, j :: 0 <= i < j < |listed| ==> listed[i] != listed[j])
    && forall x :: x in LiveIds(s) - pending ==> x in listed
  }

  lemma NothingListed(s: Index)
    ensures Listing(s, s.nodes.Keys, [], [])
  {
  }

  lemma ListedOne(s: Index, pending: set<nat>, listed: seq<nat>, items: seq<(string, Vec)>, i: nat)
    requires Listing(s, pending, listed, items) && i in pending && i in s.nodes && i !in s.deleted
    ensures Listing(s, pending - {i}, listed + [i], items + [(s.nodes[i].vid, s.nodes[i].vec)])
  {
  }

  lemma SkippedOne(s: Index, pending: set<nat>, listed: seq<nat>, items: seq<(string, Vec)>, i: nat)
    requires Listing(s, pending, listed, items) && i in s.deleted
    ensures Listing(s, pending - {i}, listed, items)
  {
  }

  /** Listing each live node once lists the live contents. */
  lemma ListedLive(s: Index, items: seq<(string, Vec)>, listed: seq<nat>)
    requires Inv(s) && Listing(s, {}, listed, items)
    ensures ListsLive(s, items)
  {
    LiveCount(s);
    assert Elems(listed) == LiveIds(s);
    DistinctSize(listed);
  }

  lemma {:induction false} DistinctSize<T(!new)>(xs: seq<T>)
    requires forall i, j :: 0 <= i < j < |xs| ==> xs[i] != xs[j]
    ensures |Elems(xs)| == |xs|
  {
    if xs != [] {
      var front, last := xs[..|xs| - 1], xs[|xs| - 1];
      DistinctSize(front);
      assert last !in front;
      assert Elems(xs) == Elems(front) + {last};
    }
  }

  // ---------- eligibility ----------

  lemma NothingEligible(nodes: Nodes, deleted: set<nat>, filter: Option<Filter>)
    ensures EligibleIn(nodes, deleted, filter, {}) == {}
  {
  }

  lemma EligibleOneMore(nodes: Nodes, deleted: set<nat>, filter: Option<Filter>, S: set<nat>, x: nat)
    requires S <= nodes.Keys && x in nodes
    ensures EligibleIn(nodes, deleted, filter, S) <= S
    ensures EligibleIn(nodes, deleted, filter, S + {x})
         == EligibleIn(nodes, deleted, filter, S) + if Eligible(nodes, deleted, filter, x) then {x} else {}
  {
  }
}
