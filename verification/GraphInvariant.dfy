/** The graph invariant is kept by every insertion and deletion.

    While a node is being inserted, the invariant holds on the layers already worked through, and below them the
    new node is still isolated (`MidInsert`). Wiring one layer moves that boundary down by one; trimming never takes
    a node's last edge, because a trimmed node keeps as many edges as its cap allows. */
module GraphInvariant {
  import opened Types
  import opened Ranking
  import opened BeamLoop
  import opened Graph

  /** The state of the fine insert of `iid` once layers `l` and above are done: below `l` the new node is
      still isolated, elsewhere the invariant already holds. */
  ghost predicate MidInsert(nodes: Nodes, M: nat, iid: nat, l: nat) {
    && EdgesOk(nodes) && DegreesOk(nodes, M) && iid in nodes
    && (forall i: nat, k: nat :: k < l ==> !Edge(nodes, i, k, iid))
    && (forall k: nat :: k < l ==> nodes[iid].Nbrs(k) == {})
    && forall i, j, k: nat :: Together(nodes, i, j, k) && (l <= k || (i != iid && j != iid)) ==> nodes[i].Nbrs(k) != {}
  }

  /** A place to start a walk on layer `l` that is not the node being inserted. */
  ghost predicate Standing(nodes: Nodes, iid: nat, ep: nat, l: nat) {
    OnLayer(nodes, ep, l) && ep != iid
  }

  /** Nothing but the neighbour sets has changed. */
  ghost predicate SameButEdges(n1: Nodes, n2: Nodes) {
    && n1.Keys == n2.Keys
    && forall i :: i in n1 ==>
         && n2[i].vid == n1[i].vid && n2[i].vec == n1[i].vec
         && n2[i].level == n1[i].level && n2[i].meta == n1[i].meta
  }

  /** A walk on layer `l` stays on nodes of that layer, and never meets a node nothing points to. */
  lemma WalkStays(metric: Metric, nodes: Nodes, deleted: set<nat>, filter: Option<Filter>, q: Vec,
                  ep: nat, ef: int, l: nat, found: set<nat>, iid: nat)
    requires EdgesOk(nodes) && Standing(nodes, iid, ep, l) && forall i: nat :: !Edge(nodes, i, l, iid)
    requires Walked(metric, nodes, deleted, filter, q, ep, ef, l, found)
    ensures found != {} && forall x :: x in found ==> Standing(nodes, iid, x, l)
  {
    var P := set x | x in nodes && Standing(nodes, iid, x, l);
    var w := LayerWalk(metric, nodes, deleted, filter, q, l);
    forall i, j | i in nodes && j in w.adj[i] ensures j in P {
      assert Edge(nodes, i, l, j);
    }
    LayerWalkValid(metric, nodes, deleted, filter, q, l);
    OutcomeInside(w, ep, ef, found, P);
  }

  lemma ClosestNonEmpty(d: map<nat, real>, n: nat, S: set<nat>, R: set<nat>)
    requires S <= d.Keys && Closest(d, n, S, R) && n >= 1 && S != {}
    ensures R != {}
  {
  }

  // ---------- one layer of wiring ----------

  /** The nodes of a layer. */
  ghost function On(nodes: Nodes, l: nat): set<nat> { set i | i in nodes && l <= nodes[i].level }

  /** What wiring `iid` to `sel` on layer `l` may do to node `i`. */
  ghost predicate Rewired(v: Vertex, v': Vertex, i: nat, iid: nat, l: nat, sel: set<nat>, cap: nat) {
    && v'.vid == v.vid && v'.vec == v.vec && v'.level == v.level && v'.meta == v.meta
    && v'.nbrs.Keys == v.nbrs.Keys
    && (forall k: nat :: k != l ==> v'.Nbrs(k) == v.Nbrs(k))
    && (i == iid ==> v'.Nbrs(l) == sel)
    && (i != iid ==> v'.Nbrs(l) <= v.Nbrs(l) + Gains(i, iid, sel))
    && |v'.Nbrs(l)| <= cap
    && (v.Nbrs(l) != {} || i in sel ==> v'.Nbrs(l) != {})
  }

  ghost function Gains(i: nat, iid: nat, sel: set<nat>): set<nat> {
    if i in sel then {iid} else {}
  }

  lemma TrimmedVertex(metric: Metric, nodes: Nodes, cap: nat, l: nat, v: Vertex, v': Vertex)
    requires v.Nbrs(l) <= nodes.Keys && l in v.nbrs && 1 <= cap && Trimmed(metric, nodes, cap, l, v, v')
    ensures v'.vid == v.vid && v'.vec == v.vec && v'.level == v.level && v'.meta == v.meta
    ensures v'.nbrs.Keys == v.nbrs.Keys && forall k: nat :: k != l ==> v'.Nbrs(k) == v.Nbrs(k)
    ensures v'.Nbrs(l) <= v.Nbrs(l) && |v'.Nbrs(l)| <= cap
    ensures v.Nbrs(l) != {} ==> v'.Nbrs(l) != {}
    ensures |v.Nbrs(l)| <= cap ==> v' == v
  {
  }

  lemma JoinedVertex(nodes: Nodes, iid: nat, l: nat, sel: set<nat>, i: nat)
    requires i in nodes && l in nodes[i].nbrs && iid !in sel && (i == iid ==> nodes[i].Nbrs(l) == {})
    ensures var v, m := nodes[i], Joined(nodes, iid, l, sel)[i];
            && m.vid == v.vid && m.vec == v.vec && m.level == v.level && m.meta == v.meta && m.nbrs.Keys == v.nbrs.Keys
            && (forall k: nat :: k != l ==> m.Nbrs(k) == v.Nbrs(k))
            && m.Nbrs(l) == if i == iid then sel else v.Nbrs(l) + Gains(i, iid, sel)
  {
  }

  lemma WiredNode(metric: Metric, M: nat, nodes: Nodes, iid: nat, l: nat, sel: set<nat>, nodes': Nodes, i: nat)
    requires 2 <= M && EdgesOk(nodes) && DegreesOk(nodes, M) && iid in nodes && i in nodes && l <= nodes[iid].level
    requires nodes[iid].Nbrs(l) == {} && |sel| <= Cap(M, l) && forall x :: x in sel ==> Standing(nodes, iid, x, l)
    requires Wired(metric, M, nodes, iid, l, sel, nodes')
    ensures Rewired(nodes[i], nodes'[i], i, iid, l, sel, Cap(M, l))
    ensures |On(nodes, l)| <= Cap(M, l) + 1 && i != iid ==> nodes'[i].Nbrs(l) == nodes[i].Nbrs(l) + Gains(i, iid, sel)
  {
    if i in sel {
      WiredSelected(metric, M, nodes, iid, l, sel, nodes', i);
    } else if i == iid {
      assert nodes[i].Shaped();
      JoinedVertex(nodes, iid, l, sel, i);
    } else {
      DegreeAt(nodes, M, i, l);
    }
  }

  lemma WiredSelected(metric: Metric, M: nat, nodes: Nodes, iid: nat, l: nat, sel: set<nat>, nodes': Nodes, i: nat)
    requires 2 <= M && EdgesOk(nodes) && OnLayer(nodes, iid, l) && i in sel && iid !in sel && Standing(nodes, iid, i, l)
    requires Wired(metric, M, nodes, iid, l, sel, nodes')
    ensures Rewired(nodes[i], nodes'[i], i, iid, l, sel, Cap(M, l))
    ensures |On(nodes, l)| <= Cap(M, l) + 1 ==> nodes'[i].Nbrs(l) == nodes[i].Nbrs(l) + Gains(i, iid, sel)
  {
    NeighboursExist(nodes);
    assert nodes[i].Shaped();
    assert !Edge(nodes, i, l, i);
    JoinedVertex(nodes, iid, l, sel, i);
    var m := Joined(nodes, iid, l, sel)[i];
    forall j | j in m.Nbrs(l) ensures j in On(nodes, l) - {i} {
      assert j != iid ==> Edge(nodes, i, l, j);
    }
    SubsetSize(m.Nbrs(l), On(nodes, l) - {i});
    TrimmedVertex(metric, nodes, Cap(M, l), l, m, nodes'[i]);
  }

  lemma DegreeAt(nodes: Nodes, M: nat, i: nat, l: nat)
    requires DegreesOk(nodes, M) && i in nodes
    ensures |nodes[i].Nbrs(l)| <= Cap(M, l)
  {
  }

  lemma InsertedKeeps(metric: Metric, M: nat, efc: nat, deleted: set<nat>, iid: nat, l: nat,
                      nodes: Nodes, ep: nat, nodes': Nodes, ep': nat)
    requires 2 <= M && MidInsert(nodes, M, iid, l + 1) && Standing(nodes, iid, ep, l) && l <= nodes[iid].level
    requires Inserted(metric, M, efc, deleted, iid, l, nodes, ep, nodes', ep')
    ensures EdgesOk(nodes') && MidInsert(nodes', M, iid, l)
    ensures Standing(nodes', iid, ep', l) && SameButEdges(nodes, nodes')
  {
    hide Walked, Wired;
    var found, sel :|
      && Walked(metric, nodes, deleted, None, nodes[iid].vec, ep, efc, l, found)
      && NearestOf(metric, nodes, nodes[iid].vec, found, ep')
      && Closest(DistFrom(metric, nodes, nodes[iid].vec), Cap(M, l), found, sel)
      && Wired(metric, M, nodes, iid, l, sel, nodes');
    WalkStays(metric, nodes, deleted, None, nodes[iid].vec, ep, efc, l, found, iid);
    ClosestNonEmpty(DistFrom(metric, nodes, nodes[iid].vec), Cap(M, l), found, sel);
    WiredKeeps(metric, M, iid, l, nodes, sel, nodes');
  }

  ghost predicate RewiredAll(nodes: Nodes, iid: nat, l: nat, sel: set<nat>, cap: nat, nodes': Nodes) {
    && nodes'.Keys == nodes.Keys
    && OnLayer(nodes, iid, l) && (forall x :: x in sel ==> Standing(nodes, iid, x, l))
    && forall i :: i in nodes ==> Rewired(nodes[i], nodes'[i], i, iid, l, sel, cap)
  }

  lemma WiredKeeps(metric: Metric, M: nat, iid: nat, l: nat, nodes: Nodes, sel: set<nat>, nodes': Nodes)
    requires 2 <= M && MidInsert(nodes, M, iid, l + 1) && l <= nodes[iid].level
    requires sel != {} && |sel| <= Cap(M, l) && forall x :: x in sel ==> Standing(nodes, iid, x, l)
    requires Wired(metric, M, nodes, iid, l, sel, nodes')
    ensures MidInsert(nodes', M, iid, l) && SameButEdges(nodes, nodes')
  {
    assert RewiredAll(nodes, iid, l, sel, Cap(M, l), nodes') by {
      forall i | i in nodes ensures Rewired(nodes[i], nodes'[i], i, iid, l, sel, Cap(M, l)) {
        WiredNode(metric, M, nodes, iid, l, sel, nodes', i);
      }
    }
    RewiredEdges(nodes, iid, l, sel, Cap(M, l), nodes');
    RewiredDegrees(nodes, M, iid, l, sel, nodes');
    RewiredExits(nodes, M, iid, l, sel, nodes');
    RewiredIsolation(nodes, iid, l, sel, Cap(M, l), nodes');
  }

  lemma RewiredEdges(nodes: Nodes, iid: nat, l: nat, sel: set<nat>, cap: nat, nodes': Nodes)
    requires EdgesOk(nodes) && RewiredAll(nodes, iid, l, sel, cap, nodes')
    ensures EdgesOk(nodes') && SameButEdges(nodes, nodes')
  {
    forall i | i in nodes' ensures nodes'[i].Shaped() {
      assert nodes[i].Shaped();
    }
    forall i, k, j | Edge(nodes', i, k, j) ensures OnLayer(nodes', j, k) && j != i {
      assert Edge(nodes, i, k, j) || (k == l && (i == iid || j == iid));
    }
  }

  lemma RewiredDegrees(nodes: Nodes, M: nat, iid: nat, l: nat, sel: set<nat>, nodes': Nodes)
    requires DegreesOk(nodes, M) && RewiredAll(nodes, iid, l, sel, Cap(M, l), nodes')
    ensures DegreesOk(nodes', M)
  {
    forall i, k: nat | i in nodes' ensures |nodes'[i].Nbrs(k)| <= Cap(M, k) {
      assert |nodes[i].Nbrs(k)| <= Cap(M, k);
    }
  }

  lemma RewiredIsolation(nodes: Nodes, iid: nat, l: nat, sel: set<nat>, cap: nat, nodes': Nodes)
    requires RewiredAll(nodes, iid, l, sel, cap, nodes')
    requires forall i: nat, k: nat :: k <= l ==> !Edge(nodes, i, k, iid)
    requires forall k: nat :: k <= l ==> nodes[iid].Nbrs(k) == {}
    ensures forall i: nat, k: nat :: k < l ==> !Edge(nodes', i, k, iid)
    ensures forall k: nat :: k < l ==> nodes'[iid].Nbrs(k) == {}
  {
    forall i: nat, k: nat | k < l ensures !Edge(nodes', i, k, iid) {
      assert !Edge(nodes, i, k, iid);
    }
  }

  lemma RewiredExits(nodes: Nodes, M: nat, iid: nat, l: nat, sel: set<nat>, nodes': Nodes)
    requires MidInsert(nodes, M, iid, l + 1) && RewiredAll(nodes, iid, l, sel, Cap(M, l), nodes') && sel != {}
    ensures forall i, j, k: nat :: Together(nodes', i, j, k) && (l <= k || (i != iid && j != iid)) ==> nodes'[i].Nbrs(k) != {}
  {
    hide EdgesOk, DegreesOk;
    forall i, j, k: nat | Together(nodes', i, j, k) && (l <= k || (i != iid && j != iid)) ensures nodes'[i].Nbrs(k) != {} {
      assert Together(nodes, i, j, k);
      if k == l && i != iid && j == iid {
        // the selected node is another node of this layer, or it is `i` itself
        var x :| x in sel;
        if x != i {
          assert Together(nodes, i, x, l);
        }
      }
    }
  }

  // ---------- the whole insertion ----------

  lemma {:induction false} DescendedStands(metric: Metric, nodes: Nodes, deleted: set<nat>, q: Vec,
                                           ep0: nat, top: nat, l: nat, ep: nat, iid: nat)
    requires EdgesOk(nodes) && Standing(nodes, iid, ep0, top)
    requires forall i: nat, k: nat :: !Edge(nodes, i, k, iid)
    requires Descended(metric, nodes, deleted, q, ep0, top, l, ep)
    ensures Standing(nodes, iid, ep, Min(l, top))
    decreases top - l
  {
    hide Walked, Descended;
    if l < top {
      var p := DescendedLast(metric, nodes, deleted, q, ep0, top, l, ep);
      DescendedStands(metric, nodes, deleted, q, ep0, top, l + 1, p, iid);
      var found :| Walked(metric, nodes, deleted, None, q, p, 1, l + 1, found) && NearestOf(metric, nodes, q, found, ep);
      WalkStays(metric, nodes, deleted, None, q, p, 1, l + 1, found, iid);
    } else {
      DescendedNowhere(metric, nodes, deleted, q, ep0, top, l, ep);
    }
  }

  /** How far the fine insert of `iid`, started from `nodes0` at layer `from`, has come when layer `l` is done. */
  ghost predicate Progress(nodes0: Nodes, M: nat, iid: nat, from: nat, l: nat, nodes: Nodes, ep: nat) {
    && EdgesOk(nodes) && MidInsert(nodes, M, iid, l) && Standing(nodes, iid, ep, Min(l, from))
    && OnLayer(nodes, iid, from) && SameButEdges(nodes0, nodes)
  }

  lemma StepKeeps(metric: Metric, M: nat, efc: nat, deleted: set<nat>, iid: nat,
                  nodes0: Nodes, from: nat, l: nat, n1: Nodes, e1: nat, nodes: Nodes, ep: nat)
    requires 2 <= M && l <= from && Progress(nodes0, M, iid, from, l + 1, n1, e1)
    requires Inserted(metric, M, efc, deleted, iid, l, n1, e1, nodes, ep)
    ensures Progress(nodes0, M, iid, from, l, nodes, ep)
  {
    hide Inserted;
    InsertedKeeps(metric, M, efc, deleted, iid, l, n1, e1, nodes, ep);
  }

  lemma {:induction false} InsertedDownKeeps(metric: Metric, M: nat, efc: nat, deleted: set<nat>, iid: nat,
                                             nodes0: Nodes, ep0: nat, from: nat, l: nat, nodes: Nodes, ep: nat)
    requires 2 <= M && l <= from + 1
    requires EdgesOk(nodes0) && iid in nodes0 && ep0 in nodes0 && Progress(nodes0, M, iid, from, from + 1, nodes0, ep0)
    requires InsertedDown(metric, M, efc, deleted, iid, nodes0, ep0, from, l, nodes, ep)
    ensures Progress(nodes0, M, iid, from, l, nodes, ep)
    decreases from + 1 - l
  {
    hide Progress, EdgesOk, Inserted, InsertedDown;
    if l <= from {
      var n1, e1 := LastLayer(metric, M, efc, deleted, iid, nodes0, ep0, from, l, nodes, ep);
      InsertedDownKeeps(metric, M, efc, deleted, iid, nodes0, ep0, from, l + 1, n1, e1);
      StepKeeps(metric, M, efc, deleted, iid, nodes0, from, l, n1, e1, nodes, ep);
    } else {
      InsertedNowhere(metric, M, efc, deleted, iid, nodes0, ep0, from, l, nodes, ep);
    }
  }

  /** Registering the new node leaves the old graph intact and the new node isolated, which is where the fine
      insert starts: every layer above the old top, or above its own level, is trivially in order. */
  lemma RegisteredIsMid(s: Index, vid: string, vec: Vec, meta: Option<Meta>, level: nat)
    requires Inv(s) && s.entry.Some?
    ensures MidInsert(Registered(s, vid, vec, meta, level).nodes, s.M, s.nextId, Min(level, s.maxLayer) + 1)
    ensures forall i: nat, k: nat :: !Edge(Registered(s, vid, vec, meta, level).nodes, i, k, s.nextId)
  {
    var nodes, iid := Registered(s, vid, vec, meta, level).nodes, s.nextId;
    forall k: nat ensures nodes[iid].Nbrs(k) == {} {}
    forall i, j, k: nat | Together(nodes, i, j, k) && (Min(level, s.maxLayer) + 1 <= k || (i != iid && j != iid))
      ensures nodes[i].Nbrs(k) != {}
    {
      assert Together(s.nodes, i, j, k);
    }
    forall i, k, j | Edge(nodes, i, k, j) ensures OnLayer(nodes, j, k) && j != i && j != iid {
      assert Edge(s.nodes, i, k, j);
    }
  }

  /** After registering, the descent can start at the old entry point. */
  lemma ReadyToDescend(s: Index, vid: string, vec: Vec, meta: Option<Meta>, level: nat)
    requires Inv(s) && s.entry.Some?
    ensures var b := Registered(s, vid, vec, meta, level).nodes;
            EdgesOk(b) && s.nextId in b && s.entry.value in b && Standing(b, s.nextId, s.entry.value, s.maxLayer)
  {
    RegisteredIsMid(s, vid, vec, meta, level);
  }

  /** After the descent, the fine insert can start. */
  lemma ReadyToInsert(metric: Metric, s: Index, vid: string, vec: Vec, meta: Option<Meta>, level: nat, ep1: nat)
    requires Inv(s) && s.entry.Some?
    requires var b := Registered(s, vid, vec, meta, level).nodes;
             EdgesOk(b) && s.entry.value in b && Descended(metric, b, s.deleted, vec, s.entry.value, s.maxLayer, level, ep1)
    ensures var b, from := Registered(s, vid, vec, meta, level).nodes, Min(level, s.maxLayer);
            ep1 in b && s.nextId in b && Progress(b, s.M, s.nextId, from, from + 1, b, ep1)
  {
    hide Descended;
    var b := Registered(s, vid, vec, meta, level).nodes;
    RegisteredIsMid(s, vid, vec, meta, level);
    DescendedStands(metric, b, s.deleted, vec, s.entry.value, s.maxLayer, level, ep1, s.nextId);
  }

  /** How an `add` to a non-empty index ends. */
  ghost predicate Finished(s: Index, vid: string, vec: Vec, meta: Option<Meta>, level: nat, nodes': Nodes, s': Index) {
    s' == Registered(s, vid, vec, meta, level).(
            nodes := nodes', entry := if level > s.maxLayer then Some(s.nextId) else s.entry, maxLayer := Max(level, s.maxLayer))
  }

  lemma AddedBy(metric: Metric, s: Index, vid: string, vec: Vec, meta: Option<Meta>, level: nat, ep1: nat, nodes': Nodes, ep2: nat, s': Index)
    requires Inv(s) && s.entry.Some? && Finished(s, vid, vec, meta, level, nodes', s')
    requires var b := Registered(s, vid, vec, meta, level).nodes;
             && EdgesOk(b) && s.nextId in b && s.entry.value in b && ep1 in b
             && Descended(metric, b, s.deleted, vec, s.entry.value, s.maxLayer, level, ep1)
             && InsertedDown(metric, s.M, s.efc, s.deleted, s.nextId, b, ep1, Min(level, s.maxLayer), 0, nodes', ep2)
    ensures Added(metric, s, vid, vec, meta, level, s')
  {
    hide Descended, InsertedDown;
  }

  lemma AddedFirst(metric: Metric, s: Index, vid: string, vec: Vec, meta: Option<Meta>, level: nat, s': Index)
    requires Inv(s) && s.entry.None?
    requires s' == Registered(s, vid, vec, meta, level).(entry := Some(s.nextId), maxLayer := level)
    ensures Added(metric, s, vid, vec, meta, level, s')
  {
  }

  lemma AddedFrom(metric: Metric, s: Index, vid: string, vec: Vec, meta: Option<Meta>, level: nat, s': Index)
    returns (ep1: nat, nodes': Nodes, ep2: nat)
    requires Inv(s) && s.entry.Some? && Added(metric, s, vid, vec, meta, level, s')
    ensures Finished(s, vid, vec, meta, level, nodes', s')
    ensures var b := Registered(s, vid, vec, meta, level).nodes;
            && EdgesOk(b) && s.nextId in b && s.entry.value in b && ep1 in b
            && Descended(metric, b, s.deleted, vec, s.entry.value, s.maxLayer, level, ep1)
            && InsertedDown(metric, s.M, s.efc, s.deleted, s.nextId, b, ep1, Min(level, s.maxLayer), 0, nodes', ep2)
  {
    hide Descended, InsertedDown;
    var b := Registered(s, vid, vec, meta, level);
    ep1, nodes', ep2 :|
      && ep1 in b.nodes
      && Descended(metric, b.nodes, s.deleted, vec, s.entry.value, s.maxLayer, level, ep1)
      && InsertedDown(metric, s.M, s.efc, s.deleted, s.nextId, b.nodes, ep1, Min(level, s.maxLayer), 0, nodes', ep2)
      && s' == b.(nodes := nodes',
                  entry := if level > s.maxLayer then Some(s.nextId) else s.entry,
                  maxLayer := Max(level, s.maxLayer));
  }

  /** The graph invariant is kept by every successful `add`, whatever level was drawn. */
  lemma AddKeepsInv(metric: Metric, s: Index, vid: string, vec: Vec, meta: Option<Meta>, level: nat, s': Index)
    requires Inv(s) && |vec| == s.dim && vid !in s.idMap
    requires Added(metric, s, vid, vec, meta, level, s')
    ensures Inv(s')
  {
    hide *;
    if s.entry.None? {
      FirstAddInv(metric, s, vid, vec, meta, level, s');
    } else {
      var b, from := Registered(s, vid, vec, meta, level).nodes, Min(level, s.maxLayer);
      var ep1, nodes', ep2 := AddedFrom(metric, s, vid, vec, meta, level, s');
      ReadyToInsert(metric, s, vid, vec, meta, level, ep1);
      AtLeastTwo(s);
      InsertedDownKeeps(metric, s.M, s.efc, s.deleted, s.nextId, b, ep1, from, 0, nodes', ep2);
      AddedInv(s, vid, vec, meta, level, nodes', ep2, s');
    }
  }

  lemma AtLeastTwo(s: Index)
    requires Inv(s)
    ensures 2 <= s.M
  {
  }

  lemma FirstAddInv(metric: Metric, s: Index, vid: string, vec: Vec, meta: Option<Meta>, level: nat, s': Index)
    requires Inv(s) && |vec| == s.dim && vid !in s.idMap && s.entry.None?
    requires Added(metric, s, vid, vec, meta, level, s')
    ensures Inv(s')
  {
    assert s.nodes == map[];
  }

  lemma AddedInv(s: Index, vid: string, vec: Vec, meta: Option<Meta>, level: nat, nodes': Nodes, ep2: nat, s': Index)
    requires Inv(s) && |vec| == s.dim && vid !in s.idMap && s.entry.Some?
    requires Progress(Registered(s, vid, vec, meta, level).nodes, s.M, s.nextId, Min(level, s.maxLayer), 0, nodes', ep2)
    requires Finished(s, vid, vec, meta, level, nodes', s')
    ensures Inv(s')
  {
    assert forall i, j, k: nat :: Together(nodes', i, j, k) ==> nodes'[i].Nbrs(k) != {};
  }

  lemma DeleteKeepsInv(s: Index, vid: string)
    requires Inv(s)
    ensures Inv(Deleted(s, vid))
  {
  }
}
