/** A history after which the nearest live vector cannot be found, however wide the search.

    Four points on a line: "a" at 0, "b" at 95, "c" at 96 and "d" at 85. With `M` and `ef_construction` at 2, "d" is
    linked to "b" and "c" only. Once these are deleted, a search near 43 stops at "a", although "d" is nearer. */
module Hidden {
  import opened Types
  import opened Ranking
  import opened Ranked
  import opened Beam
  import opened BeamLoop
  import opened Graph
  import opened GraphInvariant
  import opened Wiring
  import opened Answers
  import opened Runs
  import opened Pockets
  import opened LayerShape
  import opened SmallIndex
  import Hnsw

  function Gap(x: nat, y: nat): real { if x < y then (y - x) as real else (x - y) as real }

  /** Distance on the line of the first components. */
  function OnLine(): Metric {
    (a: Vec, b: Vec) => if |a| > 0 && |b| > 0 then Gap(a[0], b[0]) else 0.0
  }

  function Place(i: nat): Bits32 { if i == 0 then 0 else if i == 1 then 95 else if i == 2 then 96 else 85 }

  function Name(i: nat): string { if i == 0 then "a" else if i == 1 then "b" else if i == 2 then "c" else "d" }

  function AddAt(i: nat): Op { AddOp(Name(i), [Place(i)], None, 0) }

  function Story(): seq<Op> { [AddAt(0), AddAt(1), AddAt(2), AddAt(3), DeleteOp("b"), DeleteOp("c")] }

  /** Node `i` with these layer-0 neighbours. */
  function Point(i: nat, nbrs: set<nat>): Vertex { Vertex(Name(i), [Place(i)], 0, None, map[0 := nbrs]) }

  function Points(nbrs: seq<set<nat>>): (nodes: Nodes)
    ensures forall i: nat :: i in nodes <==> i < |nbrs|
  {
    map i: nat | 0 <= i < |nbrs| :: Point(i, nbrs[i])
  }

  function Names(n: nat): map<string, nat> {
    if n == 0 then map[] else if n == 1 then map["a" := 0] else if n == 2 then map["a" := 0, "b" := 1]
    else if n == 3 then map["a" := 0, "b" := 1, "c" := 2] else map["a" := 0, "b" := 1, "c" := 2, "d" := 3]
  }

  /** The index after some of the additions. */
  function Stage(nbrs: seq<set<nat>>, deleted: set<nat>): Index {
    Index(1, 2, 2, Points(nbrs), Names(|nbrs|), deleted, Some(0), 0, |nbrs|)
  }

  const NBRS1: seq<set<nat>> := [{}]
  const NBRS2: seq<set<nat>> := [{1}, {0}]
  const NBRS3: seq<set<nat>> := [{1, 2}, {0, 2}, {0, 1}]
  const NBRS4: seq<set<nat>> := [{1, 2}, {0, 2, 3}, {0, 1, 3}, {1, 2}]

  // ---------- one flat insertion ----------

  /** An `add` at level 0 to an index with a single layer: what the walk found, what was selected, how it was wired. */
  lemma FlatAdd(metric: Metric, s: Index, vid: string, vec: Vec, meta: Option<Meta>, s': Index) returns (found: set<nat>, sel: set<nat>)
    requires Inv(s) && s.entry.Some? && s.maxLayer == 0 && Added(metric, s, vid, vec, meta, 0, s')
    ensures var b := Registered(s, vid, vec, meta, 0).nodes;
            && EdgesOk(b) && s.nextId in b && s.entry.value in b && b[s.nextId].vec == vec
            && Walked(metric, b, s.deleted, None, vec, s.entry.value, s.efc, 0, found) && found <= b.Keys
            && Closest(DistFrom(metric, b, vec), 2 * s.M, found, sel)
            && Wired(metric, s.M, b, s.nextId, 0, sel, s'.nodes)
            && s' == Registered(s, vid, vec, meta, 0).(nodes := s'.nodes)
  {
    var b := Registered(s, vid, vec, meta, 0).nodes;
    var ep1, nodes', ep2 := AddedFrom(metric, s, vid, vec, meta, 0, s');
    hide Inv, Walked, Wired, Closest, InsertedDown, Descended, EdgesOk, Inserted, DistFrom, NearestOf;
    DescendedNowhere(metric, b, s.deleted, vec, s.entry.value, 0, 0, ep1);
    var n1, e1 := LastLayer(metric, s.M, s.efc, s.deleted, s.nextId, b, ep1, 0, 0, nodes', ep2);
    InsertedNowhere(metric, s.M, s.efc, s.deleted, s.nextId, b, ep1, 0, 1, n1, e1);
    found, sel := InsertedParts(metric, s.M, s.efc, s.deleted, s.nextId, 0, b, e1, nodes', ep2);
  }

  lemma AllSelected(d: map<nat, real>, n: nat, found: set<nat>, sel: set<nat>)
    requires found <= d.Keys && Closest(d, n, found, sel) && |found| <= n
    ensures sel == found
  {
    SubsetSize(sel, found);
  }

  lemma FlatWired(metric: Metric, M: nat, b: Nodes, iid: nat, sel: set<nat>, nodes': Nodes)
    requires EdgesOk(b) && iid in b && Wired(metric, M, b, iid, 0, sel, nodes')
    requires forall i :: i in b && i in sel ==> |Joined(b, iid, 0, sel)[i].Nbrs(0)| <= 2 * M
    ensures nodes' == Joined(b, iid, 0, sel)
  {
    NeighboursExist(b);
    hide EdgesOk, Closest;
    var mid := Joined(b, iid, 0, sel);
    assert nodes'.Keys == mid.Keys;
    forall i | i in b ensures nodes'[i] == mid[i] {
      assert i in sel ==> Trimmed(metric, b, Cap(M, 0), 0, mid[i], nodes'[i]);
    }
  }

  // ---------- what each walk finds ----------

  ghost function Layer0(nbrs: seq<set<nat>>, deleted: set<nat>, filter: Option<Filter>, q: Vec): Walk {
    LayerWalk(OnLine(), Points(nbrs), deleted, filter, q, 0)
  }

  lemma Layer0Reads(nbrs: seq<set<nat>>, deleted: set<nat>, filter: Option<Filter>, q: nat)
    requires q < 0x1_0000_0000
    ensures var w := Layer0(nbrs, deleted, filter, [q]);
            && w.adj.Keys == w.d.Keys == Points(nbrs).Keys
            && forall i: nat :: i < |nbrs| ==> w.adj[i] == nbrs[i] && w.d[i] == Gap(q, Place(i))
    ensures filter.None? ==> Layer0(nbrs, deleted, filter, [q]).ok == Points(nbrs).Keys - deleted
  {
  }

  lemma LoneFound(w: Walk, ef: int, found: set<nat>)
    requires w.Valid() && 0 in w.adj && (forall i :: i in w.adj ==> w.adj[i] == {}) && Outcome(w, 0, ef, found)
    ensures found == {0}
  {
    hide Outcome;
    OutcomeInside(w, 0, ef, found, {0});
  }

  ghost predicate PairOnly(w: Walk) {
    && w.Valid() && {0, 1} <= w.adj.Keys && {0, 1} <= w.ok && w.adj[0] == {1} && w.adj[1] == {0}
    && forall i :: i in w.adj ==> w.adj[i] <= {0, 1}
  }

  lemma PairFound(w: Walk, found: set<nat>)
    requires PairOnly(w) && Outcome(w, 0, 2, found)
    ensures found == {0, 1}
  {
    hide Outcome, Explored;
    OutcomeInside(w, 0, 2, found, {0, 1});
    var done := OutcomeExplored(w, 0, 2, found);
    SubsetSize(found, {0, 1});
    var x :| x in found;
    NeighboursAccounted(w, 0, 2, done, found, x, 1 - x);
  }

  /** A triangle, and a query nearer to node 1 than to node 2 than to node 0. */
  ghost predicate TriangleOnly(w: Walk) {
    && w.Valid() && {0, 1, 2} <= w.adj.Keys && {0, 1, 2} <= w.ok
    && w.adj[0] == {1, 2} && w.adj[1] == {0, 2} && w.adj[2] == {0, 1} && (forall i :: i in w.adj ==> w.adj[i] <= {0, 1, 2})
    && w.d[1] < w.d[2] < w.d[0]
  }

  lemma NearTwoFound(w: Walk, found: set<nat>)
    requires TriangleOnly(w) && Outcome(w, 0, 2, found)
    ensures found == {1, 2}
  {
    hide Outcome, Explored;
    OutcomeInside(w, 0, 2, found, {0, 1, 2});
    OutcomeBasics(w, 0, 2, found);
    var done := OutcomeExplored(w, 0, 2, found);
    var x :| x in found;
    if 1 !in found {
      NeighboursAccounted(w, 0, 2, done, found, x, 1);
    }
    if 2 !in found {
      NeighboursAccounted(w, 0, 2, done, found, x, 2);
      SubsetSize(found, {1});
    }
    SubsetSize({1, 2}, found);
  }

  // ---------- the stages ----------

  lemma RegisteredStage(nbrs: seq<set<nat>>)
    requires 1 <= |nbrs| <= 3
    ensures Registered(Stage(nbrs, {}), Name(|nbrs|), [Place(|nbrs|)], None, 0)
         == Stage(nbrs, {}).(nodes := Points(nbrs + [{}]), idMap := Names(|nbrs| + 1), nextId := |nbrs| + 1)
  {
    var n := |nbrs|;
    var b := Registered(Stage(nbrs, {}), Name(n), [Place(n)], None, 0);
    assert Layers(0) == {0};
    assert FreshVertex(Name(n), [Place(n)], None, 0).nbrs == map[0 := {}];
    assert b.nodes == Points(nbrs + [{}]);
    assert b.idMap == Names(n + 1);
  }

  lemma FirstStage(s': Index)
    requires Inv(EmptyIndex(1, 2, 2)) && Added(OnLine(), EmptyIndex(1, 2, 2), Name(0), [Place(0)], None, 0, s')
    ensures s' == Stage(NBRS1, {})
  {
    assert Layers(0) == {0};
    assert FreshVertex(Name(0), [Place(0)], None, 0).nbrs == map[0 := {}];
    assert s'.nodes == Points(NBRS1);
  }

  /** The next stage, once it is known what the walk finds. */
  lemma NextStage(nbrs: seq<set<nat>>, found: set<nat>, next: seq<set<nat>>, s': Index)
    requires 1 <= |nbrs| <= 3 && Inv(Stage(nbrs, {})) && found <= Points(nbrs).Keys
    requires Added(OnLine(), Stage(nbrs, {}), Name(|nbrs|), [Place(|nbrs|)], None, 0, s')
    requires forall f :: EdgesOk(Points(nbrs + [{}])) && Walked(OnLine(), Points(nbrs + [{}]), {}, None, [Place(|nbrs|)], 0, 2, 0, f) ==> f == found
    requires Joined(Points(nbrs + [{}]), |nbrs|, 0, found) == Points(next) && |next| == |nbrs| + 1
    requires |found| <= 4 && forall i :: i in found && i < |next| ==> |next[i]| <= 4
    ensures s' == Stage(next, {})
  {
    hide *;
    var n := |nbrs|;
    RegisteredStage(nbrs);
    StageFields(nbrs);
    var b := Points(nbrs + [{}]);
    var f, sel := FlatAdd(OnLine(), Stage(nbrs, {}), Name(n), [Place(n)], None, s');
    assert f == found;
    DistKeys(b, [Place(n)]);
    AllSelected(DistFrom(OnLine(), b, [Place(n)]), 4, f, sel);
    JoinedDegrees(b, n, sel, next);
    FlatWired(OnLine(), 2, b, n, sel, s'.nodes);
    StageOf(nbrs, next);
  }

  lemma StageFields(nbrs: seq<set<nat>>)
    ensures var s := Stage(nbrs, {}); s.entry == Some(0) && s.maxLayer == 0 && s.M == 2 && s.efc == 2 && s.nextId == |nbrs| && s.deleted == {}
  {
  }

  lemma StageOf(nbrs: seq<set<nat>>, next: seq<set<nat>>)
    requires |next| == |nbrs| + 1
    ensures Stage(next, {}) == Stage(nbrs, {}).(nodes := Points(next), idMap := Names(|nbrs| + 1), nextId := |nbrs| + 1)
  {
  }

  lemma JoinedDegrees(b: Nodes, iid: nat, sel: set<nat>, next: seq<set<nat>>)
    requires Joined(b, iid, 0, sel) == Points(next) && forall i :: i in sel && i < |next| ==> |next[i]| <= 4
    ensures forall i :: i in b && i in sel ==> |Joined(b, iid, 0, sel)[i].Nbrs(0)| <= 2 * 2
  {
    forall i | i in b && i in sel ensures |Joined(b, iid, 0, sel)[i].Nbrs(0)| <= 4 {
      assert i in Points(next);
      assert Points(next)[i].Nbrs(0) == next[i];
    }
  }

  lemma DistKeys(b: Nodes, q: Vec)
    ensures DistFrom(OnLine(), b, q).Keys == b.Keys
  {
  }

  lemma Walks1(f: set<nat>)
    requires EdgesOk(Points(NBRS1 + [{}])) && Walked(OnLine(), Points(NBRS1 + [{}]), {}, None, [95], 0, 2, 0, f)
    ensures f == {0}
  {
    Layer0Reads(NBRS1 + [{}], {}, None, 95);
    LayerWalkValid(OnLine(), Points(NBRS1 + [{}]), {}, None, [95], 0);
    hide Outcome, LayerWalk, EdgesOk;
    LoneFound(Layer0(NBRS1 + [{}], {}, None, [95]), 2, f);
  }

  lemma Reads2()
    requires EdgesOk(Points(NBRS2 + [{}]))
    ensures PairOnly(Layer0(NBRS2 + [{}], {}, None, [96]))
  {
    Layer0Reads(NBRS2 + [{}], {}, None, 96);
    LayerWalkValid(OnLine(), Points(NBRS2 + [{}]), {}, None, [96], 0);
    hide LayerWalk, EdgesOk;
  }

  lemma Walks2(f: set<nat>)
    requires EdgesOk(Points(NBRS2 + [{}])) && 0 in Points(NBRS2 + [{}]) && Walked(OnLine(), Points(NBRS2 + [{}]), {}, None, [96], 0, 2, 0, f)
    ensures f == {0, 1}
  {
    hide EdgesOk, Outcome, PairOnly, LayerWalk;
    Reads2();
    PairFound(Layer0(NBRS2 + [{}], {}, None, [96]), f);
  }

  lemma Reads3()
    requires EdgesOk(Points(NBRS3 + [{}]))
    ensures TriangleOnly(Layer0(NBRS3 + [{}], {}, None, [85]))
  {
    Layer0Reads(NBRS3 + [{}], {}, None, 85);
    LayerWalkValid(OnLine(), Points(NBRS3 + [{}]), {}, None, [85], 0);
    hide LayerWalk, EdgesOk;
  }

  lemma Walks3(f: set<nat>)
    requires EdgesOk(Points(NBRS3 + [{}])) && 0 in Points(NBRS3 + [{}]) && Walked(OnLine(), Points(NBRS3 + [{}]), {}, None, [85], 0, 2, 0, f)
    ensures f == {1, 2}
  {
    hide EdgesOk, Outcome, TriangleOnly, LayerWalk;
    Reads3();
    NearTwoFound(Layer0(NBRS3 + [{}], {}, None, [85]), f);
  }

  lemma JoinedPoint(nbrs: seq<set<nat>>, iid: nat, sel: set<nat>, i: nat)
    requires i < |nbrs|
    ensures Joined(Points(nbrs), iid, 0, sel)[i]
         == Point(i, if i == iid then nbrs[i] + sel else if i in sel then nbrs[i] + {iid} else nbrs[i])
  {
    var v := Point(i, nbrs[i]);
    assert forall t: set<nat> :: v.Put(0, t).nbrs == map[0 := t];
  }

  lemma JoinsTo(nbrs: seq<set<nat>>, iid: nat, sel: set<nat>, next: seq<set<nat>>)
    requires |next| == |nbrs|
    requires forall i :: 0 <= i < |nbrs| ==> next[i] == if i == iid then nbrs[i] + sel else if i in sel then nbrs[i] + {iid} else nbrs[i]
    ensures Joined(Points(nbrs), iid, 0, sel) == Points(next)
  {
    forall i: nat | i < |nbrs| ensures Joined(Points(nbrs), iid, 0, sel)[i] == Points(next)[i] {
      JoinedPoint(nbrs, iid, sel, i);
    }
  }

  lemma Joins1()
    ensures Joined(Points(NBRS1 + [{}]), 1, 0, {0}) == Points(NBRS2)
  {
    JoinsTo(NBRS1 + [{}], 1, {0}, NBRS2);
  }

  lemma Joins2()
    ensures Joined(Points(NBRS2 + [{}]), 2, 0, {0, 1}) == Points(NBRS3)
  {
    JoinsTo(NBRS2 + [{}], 2, {0, 1}, NBRS3);
  }

  lemma Joins3()
    ensures Joined(Points(NBRS3 + [{}]), 3, 0, {1, 2}) == Points(NBRS4)
  {
    JoinsTo(NBRS3 + [{}], 3, {1, 2}, NBRS4);
  }

  lemma SecondStage(s': Index)
    requires Inv(Stage(NBRS1, {})) && Added(OnLine(), Stage(NBRS1, {}), Name(1), [Place(1)], None, 0, s')
    ensures s' == Stage(NBRS2, {})
  {
    hide Inv, Added, EdgesOk, Walked, Joined, Stage, Point;
    Joins1();
    forall f | EdgesOk(Points(NBRS1 + [{}])) && Walked(OnLine(), Points(NBRS1 + [{}]), {}, None, [95], 0, 2, 0, f) ensures f == {0} {
      Walks1(f);
    }
    NextStage(NBRS1, {0}, NBRS2, s');
  }

  lemma ThirdStage(s': Index)
    requires Inv(Stage(NBRS2, {})) && Added(OnLine(), Stage(NBRS2, {}), Name(2), [Place(2)], None, 0, s')
    ensures s' == Stage(NBRS3, {})
  {
    hide Inv, Added, EdgesOk, Walked, Joined, Stage, Point;
    Joins2();
    forall f | EdgesOk(Points(NBRS2 + [{}])) && Walked(OnLine(), Points(NBRS2 + [{}]), {}, None, [96], 0, 2, 0, f) ensures f == {0, 1} {
      Walks2(f);
    }
    NextStage(NBRS2, {0, 1}, NBRS3, s');
  }

  lemma FourthStage(s': Index)
    requires Inv(Stage(NBRS3, {})) && Added(OnLine(), Stage(NBRS3, {}), Name(3), [Place(3)], None, 0, s')
    ensures s' == Stage(NBRS4, {})
  {
    hide Inv, Added, EdgesOk, Walked, Joined, Stage, Point;
    Joins3();
    forall f | EdgesOk(Points(NBRS3 + [{}])) && Walked(OnLine(), Points(NBRS3 + [{}]), {}, None, [85], 0, 2, 0, f) ensures f == {1, 2} {
      Walks3(f);
    }
    NextStage(NBRS3, {1, 2}, NBRS4, s');
  }

  lemma BothDeleted()
    ensures Deleted(Deleted(Stage(NBRS4, {}), "b"), "c") == Stage(NBRS4, {1, 2})
  {
  }

  // ---------- every run of the story ----------

  /** Whatever ties are broken and neighbours visited in whatever order, the story ends in one index. */
  lemma StoryEnds(states: seq<Index>)
    requires Run(OnLine(), states, Story()) && states[0] == EmptyIndex(1, 2, 2)
    ensures |states| == 7 && states[4] == Stage(NBRS4, {}) && states[6] == Stage(NBRS4, {1, 2})
  {
    StoryOps();
    forall i: nat | i < |Story()| ensures Inv(states[i]) && Step(OnLine(), states[i], Story()[i], states[i + 1]) {
      RunKeepsInv(OnLine(), states, Story(), i);
    }
    assert |Story()| == 6;
    hide *;
    FirstStep(states[1]);
    SecondStep(states[1], states[2]);
    ThirdStep(states[2], states[3]);
    FourthStep(states[3], states[4]);
    DeleteSteps(states[4], states[5], states[6]);
  }

  lemma StoryOps()
    ensures |Story()| == 6 && Story()[0] == AddAt(0) && Story()[1] == AddAt(1) && Story()[2] == AddAt(2) && Story()[3] == AddAt(3)
    ensures Story()[4] == DeleteOp("b") && Story()[5] == DeleteOp("c")
  {
  }

  lemma FirstStep(s': Index)
    requires Inv(EmptyIndex(1, 2, 2)) && Step(OnLine(), EmptyIndex(1, 2, 2), AddAt(0), s')
    ensures s' == Stage(NBRS1, {})
  {
    hide Inv, Added;
    FirstStage(s');
  }

  lemma SecondStep(s: Index, s': Index)
    requires s == Stage(NBRS1, {}) && Inv(s) && Step(OnLine(), s, AddAt(1), s')
    ensures s' == Stage(NBRS2, {})
  {
    hide Inv, Added;
    SecondStage(s');
  }

  lemma ThirdStep(s: Index, s': Index)
    requires s == Stage(NBRS2, {}) && Inv(s) && Step(OnLine(), s, AddAt(2), s')
    ensures s' == Stage(NBRS3, {})
  {
    hide Inv, Added;
    ThirdStage(s');
  }

  lemma FourthStep(s: Index, s': Index)
    requires s == Stage(NBRS3, {}) && Inv(s) && Step(OnLine(), s, AddAt(3), s')
    ensures s' == Stage(NBRS4, {})
  {
    hide Inv, Added;
    FourthStage(s');
  }

  lemma DeleteSteps(s: Index, s1: Index, s2: Index)
    requires s == Stage(NBRS4, {}) && Inv(s) && Inv(s1) && Step(OnLine(), s, DeleteOp("b"), s1) && Step(OnLine(), s1, DeleteOp("c"), s2)
    ensures s2 == Stage(NBRS4, {1, 2})
  {
    hide Inv;
    BothDeleted();
  }

  // ---------- the search that misses ----------

  lemma EndReads(w: Walk)
    requires EdgesOk(Points(NBRS4)) && w == Layer0(NBRS4, {1, 2}, None, [43])
    ensures w.Valid() && w.adj.Keys == w.d.Keys == {0, 1, 2, 3} && w.adj[0] == {1, 2} && w.ok == {0, 3}
    ensures w.d[0] < w.d[1] && w.d[0] < w.d[2]
  {
    Layer0Reads(NBRS4, {1, 2}, None, 43);
    LayerWalkValid(OnLine(), Points(NBRS4), {1, 2}, None, [43], 0);
    hide LayerWalk, EdgesOk, Points, Layer0;
    assert Points(NBRS4).Keys == {0, 1, 2, 3} && {0, 1, 2, 3} - {1, 2} == {0, 3};
  }

  /** The entry point and the two tombstoned nodes are a pocket for a query at 43. */
  lemma EndPocket()
    requires EdgesOk(Points(NBRS4))
    ensures var w := Layer0(NBRS4, {1, 2}, None, [43]); w.Valid() && 0 in w.adj && Pocket(w, 0, {0, 1, 2})
  {
    hide EdgesOk, Points, Layer0;
    var w, C := Layer0(NBRS4, {1, 2}, None, [43]), {0, 1, 2};
    EndReads(w);
    assert Admitted(w, 0, C) == {0};
    forall x | Bright(w, 0, C, x) ensures x == 0 {}
  }

  lemma EndWalk(ep: nat, ef: int, found: set<nat>)
    requires EdgesOk(Points(NBRS4)) && Descended(OnLine(), Points(NBRS4), {1, 2}, [43], 0, 0, 0, ep)
    requires ep in Points(NBRS4) && Walked(OnLine(), Points(NBRS4), {1, 2}, None, [43], ep, ef, 0, found)
    ensures found <= {0, 1, 2}
  {
    hide EdgesOk, Outcome, Pocket, LayerWalk, Descended;
    DescendedNowhere(OnLine(), Points(NBRS4), {1, 2}, [43], 0, 0, 0, ep);
    EndPocket();
    NothingOutside(Layer0(NBRS4, {1, 2}, None, [43]), 0, ef, found, {0, 1, 2});
  }

  /** At the end of the story "d" is live and nearer to 43 than anything else live, and no search near 43, with
      whatever `k` and `ef`, returns it. */
  lemma NearestIsHidden(k: nat, ef: Option<int>, res: seq<(string, real)>)
    requires Inv(Stage(NBRS4, {1, 2})) && Searched(OnLine(), Stage(NBRS4, {1, 2}), [43], k, ef, None, res)
    ensures "d" !in Ids(res)
    ensures var d := LiveDist(OnLine(), Live(Stage(NBRS4, {1, 2})), [43]);
            "d" in d && forall v :: v in d && v != "d" ==> d["d"] < d[v]
  {
    hide *;
    EndFields();
    var s := Stage(NBRS4, {1, 2});
    var ep, found, xs := AnswerWalk(OnLine(), s, [43], k, ef, None, res);
    EndWalk(ep, EffectiveEf(k, s.efc, ef), found);
    EligibleAreFound(OnLine(), s, [43], None, found);
    RankedFound(s, k, found, xs);
    NamedIds(s, xs, res);
    OnlyThreeIsD(Ids(xs));
    EndLive();
  }

  lemma EndFields()
    requires Inv(Stage(NBRS4, {1, 2}))
    ensures var s := Stage(NBRS4, {1, 2});
            && s.nodes == Points(NBRS4) && s.deleted == {1, 2} && s.entry == Some(0) && s.maxLayer == 0 && EdgesOk(s.nodes) && 0 in s.nodes
  {
  }

  lemma RankedFound(s: Index, k: nat, found: set<nat>, xs: seq<(nat, real)>)
    requires found <= s.nodes.Keys && EligibleIn(s.nodes, s.deleted, None, found) <= DistFrom(OnLine(), s.nodes, [43]).Keys
    requires IsRanking(DistFrom(OnLine(), s.nodes, [43]), EligibleIn(s.nodes, s.deleted, None, found), k, xs)
    ensures Ids(xs) <= found
  {
    hide Reports, Sorted;
  }

  lemma OnlyThreeIsD(S: set<nat>)
    requires S <= {0, 1, 2} && S <= Stage(NBRS4, {1, 2}).nodes.Keys
    ensures "d" !in Vids(Stage(NBRS4, {1, 2}), S)
  {
    assert forall i :: i in S ==> Name(i) != "d";
  }

  /** A name, its node and its place at the end of the story. */
  lemma EndNames(v: string)
    requires v in Names(4)
    ensures Names(4)[v] < 4 && Name(Names(4)[v]) == v
  {
  }

  lemma LiveAtEnd(v: string)
    requires Inv(Stage(NBRS4, {1, 2})) && v in Live(Stage(NBRS4, {1, 2}))
    ensures (v == "a" || v == "d") && Live(Stage(NBRS4, {1, 2}))[v] == [Place(if v == "d" then 3 else 0)]
  {
    hide Inv, Names;
    EndNames(v);
  }

  lemma DIsLive()
    requires Inv(Stage(NBRS4, {1, 2}))
    ensures "d" in Live(Stage(NBRS4, {1, 2}))
  {
    hide Inv;
    assert Names(4)["d"] == 3;
  }

  lemma EndLive()
    requires Inv(Stage(NBRS4, {1, 2}))
    ensures var d := LiveDist(OnLine(), Live(Stage(NBRS4, {1, 2})), [43]);
            "d" in d && forall v :: v in d && v != "d" ==> d["d"] < d[v]
  {
    hide Inv, Live, Stage;
    var live := Live(Stage(NBRS4, {1, 2}));
    DIsLive();
    LiveAtEnd("d");
    forall v | v in live && v != "d" ensures live[v] == [Place(0)] {
      LiveAtEnd(v);
    }
  }

  /** Before the deletions, asking for two results with `ef` 1 gives one, although four vectors are live. */
  lemma NarrowSearchIsShort(states: seq<Index>, q: Vec, res: seq<(string, real)>)
    requires Run(OnLine(), states, Story()) && states[0] == EmptyIndex(1, 2, 2) && |states| == 7 && Inv(states[4])
    requires Searched(OnLine(), states[4], q, 2, Some(1), None, res)
    ensures |res| == 1 && |Live(states[4])| == 4
  {
    hide *;
    StoryEnds(states);
    FourLive();
    SmallRunConnected(OnLine(), states, Story(), 4);
    AnswerSize(OnLine(), states[4], q, 2, Some(1), res);
  }

  lemma FourNodes()
    ensures |Points(NBRS4)| == 4
  {
    var nodes := Points(NBRS4);
    hide Points;
    assert nodes.Keys == {0, 1, 2, 3};
    assert |nodes| == |nodes.Keys|;
  }

  lemma FourLive()
    requires Inv(Stage(NBRS4, {}))
    ensures var s := Stage(NBRS4, {}); s.deleted == {} && s.M == 2 && s.efc == 2 && |s.nodes| == 4 && |Live(s)| == 4
  {
    FourNodes();
    hide Inv, Points, Names, Live;
    LiveCount(Stage(NBRS4, {}));
  }

  // ---------- the objects ----------

  method AddNext(index: Hnsw.HNSWIndex, i: nat)
    requires index.Valid() && index.metric == OnLine()
    modifies index, index.nodes.Values
    ensures index.Valid() && fresh(index.nodes.Values - old(index.nodes.Values))
    ensures Inv(old(index.View())) && Step(OnLine(), old(index.View()), AddAt(i), index.View())
  {
    hide Inv, Added;
    index.ValidParts();
    index.ViewReads();
    var r := index.Add(Name(i), [Place(i)], None, 0);
  }

  method DeleteNext(index: Hnsw.HNSWIndex, vid: string)
    requires index.Valid() && index.metric == OnLine()
    modifies index
    ensures index.Valid() && index.nodes == old(index.nodes)
    ensures Inv(old(index.View())) && Step(OnLine(), old(index.View()), DeleteOp(vid), index.View())
  {
    hide Inv;
    index.ValidParts();
    var found := index.Delete(vid);
  }

  /** The objects themselves go through the story. */
  method TellStory() returns (index: Hnsw.HNSWIndex, ghost states: seq<Index>)
    ensures fresh(index) && index.Valid() && index.metric == OnLine() && index.View() == Stage(NBRS4, {1, 2})
    ensures Run(OnLine(), states, Story()) && states[0] == EmptyIndex(1, 2, 2) && states[6] == index.View()
  {
    hide *;
    index := new Hnsw.HNSWIndex(OnLine(), 1, 2, 2);
    ghost var s0 := index.View();
    AddNext(index, 0);
    ghost var s1 := index.View();
    AddNext(index, 1);
    ghost var s2 := index.View();
    AddNext(index, 2);
    ghost var s3 := index.View();
    AddNext(index, 3);
    ghost var s4 := index.View();
    DeleteNext(index, "b");
    ghost var s5 := index.View();
    DeleteNext(index, "c");
    states := [s0, s1, s2, s3, s4, s5, index.View()];
    StoryRuns(states);
    StoryEnds(states);
  }

  lemma StoryRuns(states: seq<Index>)
    requires |states| == 7 && states[0] == EmptyIndex(1, 2, 2)
    requires Inv(states[0]) && Step(OnLine(), states[0], AddAt(0), states[1]) && Inv(states[1]) && Step(OnLine(), states[1], AddAt(1), states[2])
    requires Inv(states[2]) && Step(OnLine(), states[2], AddAt(2), states[3]) && Inv(states[3]) && Step(OnLine(), states[3], AddAt(3), states[4])
    requires Inv(states[4]) && Step(OnLine(), states[4], DeleteOp("b"), states[5])
    requires Inv(states[5]) && Step(OnLine(), states[5], DeleteOp("c"), states[6])
    ensures Run(OnLine(), states, Story())
  {
    hide Inv, Step;
    StoryOps();
    assert states[0].dim == 1 && states[0].M == 2 && states[0].efc == 2;
  }
}
