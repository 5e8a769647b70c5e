/** A layer stays symmetric and connected until it first prunes. */
module LayerShape {
  import opened Types
  import opened Ranking
  import opened Graph
  import opened GraphInvariant
  import opened Runs

  ghost predicate Symmetric(nodes: Nodes, l: nat) {
    forall i: nat, j: nat :: Edge(nodes, i, l, j) ==> Edge(nodes, j, l, i)
  }

  ghost predicate Closed(nodes: Nodes, l: nat, C: set<nat>) {
    forall i: nat, j: nat :: i in C && Edge(nodes, i, l, j) ==> j in C
  }

  /** No set of nodes of the layer but the whole is closed under its edges. */
  ghost predicate Connected(nodes: Nodes, l: nat) {
    forall C: set<nat> :: C <= On(nodes, l) && C != {} && Closed(nodes, l, C) ==> C == On(nodes, l)
  }

  ghost predicate LayerOk(s: Index, l: nat) {
    Symmetric(s.nodes, l) && Connected(s.nodes, l)
  }

  lemma BottomIsAll(nodes: Nodes)
    ensures On(nodes, 0) == nodes.Keys
  {
  }

  // ---------- one layer of an insertion, seen from any layer ----------

  ghost predicate SameLayer(g: Nodes, h: Nodes, l: nat) {
    g.Keys == h.Keys && forall i :: i in g ==> h[i].level == g[i].level && h[i].Nbrs(l) == g[i].Nbrs(l)
  }

  /** Layer `l` after wiring `iid` to `sel` without pruning. */
  ghost predicate Grown(g: Nodes, iid: nat, sel: set<nat>, h: Nodes, l: nat) {
    && h.Keys == g.Keys && OnLayer(g, iid, l) && sel != {} && sel <= On(g, l) - {iid}
    && h[iid].Nbrs(l) == sel
    && forall i :: i in g ==> h[i].level == g[i].level && (i != iid ==> h[i].Nbrs(l) == g[i].Nbrs(l) + Gains(i, iid, sel))
  }

  lemma MidFacts(g: Nodes, M: nat, iid: nat, k: nat)
    requires MidInsert(g, M, iid, k + 1)
    ensures EdgesOk(g) && DegreesOk(g, M) && iid in g && g[iid].Nbrs(k) == {} && forall i: nat :: !Edge(g, i, k, iid)
  {
  }

  /** What one layer of an insertion found and selected. */
  lemma InsertedParts(metric: Metric, M: nat, efc: nat, deleted: set<nat>, iid: nat, k: nat,
                      g: Nodes, ep: nat, g': Nodes, ep': nat) returns (found: set<nat>, sel: set<nat>)
    requires EdgesOk(g) && iid in g && ep in g && Inserted(metric, M, efc, deleted, iid, k, g, ep, g', ep')
    ensures NearestOf(metric, g, g[iid].vec, found, ep')
    ensures Walked(metric, g, deleted, None, g[iid].vec, ep, efc, k, found)
    ensures found <= g.Keys && Closest(DistFrom(metric, g, g[iid].vec), Cap(M, k), found, sel)
    ensures Wired(metric, M, g, iid, k, sel, g') && g'.Keys == g.Keys
  {
    hide Walked, EdgesOk, Trimmed;
    found, sel :|
      && Walked(metric, g, deleted, None, g[iid].vec, ep, efc, k, found)
      && NearestOf(metric, g, g[iid].vec, found, ep')
      && Closest(DistFrom(metric, g, g[iid].vec), Cap(M, k), found, sel)
      && Wired(metric, M, g, iid, k, sel, g');
  }

  lemma SelectedStand(metric: Metric, M: nat, efc: nat, deleted: set<nat>, iid: nat, k: nat, g: Nodes, ep: nat, found: set<nat>, sel: set<nat>)
    requires 2 <= M && MidInsert(g, M, iid, k + 1) && Standing(g, iid, ep, k)
    requires Walked(metric, g, deleted, None, g[iid].vec, ep, efc, k, found) && found <= g.Keys
    requires Closest(DistFrom(metric, g, g[iid].vec), Cap(M, k), found, sel)
    ensures sel != {} && |sel| == Min(Cap(M, k), |found|) && sel <= On(g, k) - {iid} && forall x :: x in sel ==> Standing(g, iid, x, k)
  {
    hide Walked;
    WalkStays(metric, g, deleted, None, g[iid].vec, ep, efc, k, found, iid);
    ClosestNonEmpty(DistFrom(metric, g, g[iid].vec), Cap(M, k), found, sel);
  }

  /** Where the insertion of layer `k` leaves layer `l`. */
  lemma InsertedLayer(metric: Metric, M: nat, efc: nat, deleted: set<nat>, iid: nat, k: nat, g: Nodes, ep: nat, g': Nodes, ep': nat, l: nat)
    requires 2 <= M && MidInsert(g, M, iid, k + 1) && Standing(g, iid, ep, k) && k <= g[iid].level
    requires Inserted(metric, M, efc, deleted, iid, k, g, ep, g', ep')
    ensures k != l ==> SameLayer(g, g', l)
    ensures k == l && |On(g, l)| <= Cap(M, l) + 1 ==> exists sel :: Grown(g, iid, sel, g', l)
  {
    hide Walked, Wired, MidInsert, EdgesOk, DegreesOk, Inserted, NearestOf, Closest, DistFrom;
    MidFacts(g, M, iid, k);
    var found, sel := InsertedParts(metric, M, efc, deleted, iid, k, g, ep, g', ep');
    SelectedStand(metric, M, efc, deleted, iid, k, g, ep, found, sel);
    forall i | i in g
      ensures Rewired(g[i], g'[i], i, iid, k, sel, Cap(M, k))
      ensures |On(g, k)| <= Cap(M, k) + 1 && i != iid ==> g'[i].Nbrs(k) == g[i].Nbrs(k) + Gains(i, iid, sel)
    {
      WiredNode(metric, M, g, iid, k, sel, g', i);
    }
    hide Gains;
    if k == l && |On(g, l)| <= Cap(M, l) + 1 {
      assert Grown(g, iid, sel, g', l);
    }
  }

  /** One layer of an insertion, in plain terms: the new node is linked to as many of the nodes the walk found as 2M on
      layer 0, or M above, allow, to the nearest of them; the next layer is entered at the nearest of all. */
  lemma NewNodeLinks(metric: Metric, M: nat, efc: nat, deleted: set<nat>, iid: nat, l: nat, g: Nodes, ep: nat, g': Nodes, ep': nat)
      returns (found: set<nat>)
    requires 2 <= M && MidInsert(g, M, iid, l + 1) && Standing(g, iid, ep, l) && l <= g[iid].level
    requires Inserted(metric, M, efc, deleted, iid, l, g, ep, g', ep')
    ensures EdgesOk(g) && iid in g && iid in g' && Walked(metric, g, deleted, None, g[iid].vec, ep, efc, l, found) && found <= g.Keys
    ensures |g'[iid].Nbrs(l)| == Min(if l == 0 then 2 * M else M, |found|) && g'[iid].Nbrs(l) <= found
    ensures forall x, y :: x in g'[iid].Nbrs(l) && y in found && y !in g'[iid].Nbrs(l) ==>
              metric(g[iid].vec, g[x].vec) <= metric(g[iid].vec, g[y].vec)
    ensures ep' in found && forall y :: y in found ==> metric(g[iid].vec, g[ep'].vec) <= metric(g[iid].vec, g[y].vec)
  {
    hide Walked, Wired, MidInsert, EdgesOk, DegreesOk, Inserted;
    MidFacts(g, M, iid, l);
    var sel;
    found, sel := InsertedParts(metric, M, efc, deleted, iid, l, g, ep, g', ep');
    SelectedStand(metric, M, efc, deleted, iid, l, g, ep, found, sel);
    WiredNode(metric, M, g, iid, l, sel, g', iid);
    assert g'[iid].Nbrs(l) == sel;
    ClosestPlain(metric, g, g[iid].vec, Cap(M, l), found, sel);
  }

  lemma ClosestPlain(metric: Metric, g: Nodes, q: Vec, n: nat, S: set<nat>, R: set<nat>)
    requires S <= g.Keys && Closest(DistFrom(metric, g, q), n, S, R)
    ensures R <= S && |R| == Min(n, |S|) && forall x, y :: x in R && y in S && y !in R ==> metric(q, g[x].vec) <= metric(q, g[y].vec)
  {
    var d := DistFrom(metric, g, q);
    forall x, y | x in R && y in S && y !in R ensures metric(q, g[x].vec) <= metric(q, g[y].vec) {
      assert y in S - R;
      assert d[x] <= d[y];
    }
  }

  /** What trimming takes from an older node, in plain terms: if it loses a neighbour, it keeps 2M on layer 0, or M above,
      and none of those is farther from it than any it lost. */
  lemma TrimmedLoseFarthest(metric: Metric, M: nat, efc: nat, deleted: set<nat>, iid: nat, l: nat, g: Nodes, ep: nat, g': Nodes, ep': nat, i: nat)
    requires 2 <= M && MidInsert(g, M, iid, l + 1) && Standing(g, iid, ep, l) && l <= g[iid].level
    requires Inserted(metric, M, efc, deleted, iid, l, g, ep, g', ep') && i in g && i != iid
    ensures i in g' && i in g && iid in g'
    ensures forall x :: x in g'[i].Nbrs(l) && x !in g[i].Nbrs(l) ==> x == iid && i in g'[iid].Nbrs(l)
    ensures forall x :: x in g[i].Nbrs(l) + Linked(g', iid, l, i) && x !in g'[i].Nbrs(l) ==>
              && x in g && |g'[i].Nbrs(l)| == (if l == 0 then 2 * M else M)
              && forall y :: y in g'[i].Nbrs(l) ==> y in g && metric(g[i].vec, g[y].vec) <= metric(g[i].vec, g[x].vec)
  {
    hide Walked, MidInsert, EdgesOk, DegreesOk, Inserted, Trimmed, NearestOf, Closest, DistFrom;
    MidFacts(g, M, iid, l);
    var found, sel := InsertedParts(metric, M, efc, deleted, iid, l, g, ep, g', ep');
    SelectedStand(metric, M, efc, deleted, iid, l, g, ep, found, sel);
    WiredNode(metric, M, g, iid, l, sel, g', iid);
    NeighboursExist(g);
    if i in sel {
      TrimmedPlain(metric, g, Cap(M, l), l, i, Joined(g, iid, l, sel)[i], g'[i]);
    }
  }

  /** The edge the new node brings, if it was linked to `i`. */
  ghost function Linked(g: Nodes, iid: nat, l: nat, i: nat): set<nat>
    requires iid in g
  {
    if i in g[iid].Nbrs(l) then {iid} else {}
  }

  lemma TrimmedPlain(metric: Metric, g: Nodes, cap: nat, l: nat, i: nat, v: Vertex, v': Vertex)
    requires i in g && v.vec == g[i].vec && v.Nbrs(l) <= g.Keys && Trimmed(metric, g, cap, l, v, v')
    ensures v'.Nbrs(l) <= v.Nbrs(l)
    ensures forall x :: x in v.Nbrs(l) && x !in v'.Nbrs(l) ==>
              |v'.Nbrs(l)| == cap && forall y :: y in v'.Nbrs(l) ==> metric(g[i].vec, g[y].vec) <= metric(g[i].vec, g[x].vec)
  {
    if |v.Nbrs(l)| > cap {
      ClosestPlain(metric, g, v.vec, cap, v.Nbrs(l), v'.Nbrs(l));
    }
  }

  // ---------- the layers of an insertion together ----------

  /** Layer `l` once the insertion from `nodes0` has worked through layers `from` to `n`. */
  ghost predicate LayerAfter(nodes0: Nodes, M: nat, iid: nat, from: nat, n: nat, l: nat, nodes: Nodes) {
    if n <= l <= from then |On(nodes0, l)| <= Cap(M, l) + 1 ==> exists sel :: Grown(nodes0, iid, sel, nodes, l)
    else SameLayer(nodes0, nodes, l)
  }

  lemma SameOn(g: Nodes, h: Nodes, l: nat)
    requires SameLayer(g, h, l)
    ensures On(g, l) == On(h, l)
  {
  }

  lemma SameThenGrown(g: Nodes, h: Nodes, iid: nat, sel: set<nat>, h': Nodes, l: nat)
    requires SameLayer(g, h, l) && Grown(h, iid, sel, h', l)
    ensures Grown(g, iid, sel, h', l)
  {
    SameOn(g, h, l);
    hide On;
  }

  lemma GrownThenSame(g: Nodes, iid: nat, sel: set<nat>, h: Nodes, h': Nodes, l: nat)
    requires Grown(g, iid, sel, h, l) && SameLayer(h, h', l)
    ensures Grown(g, iid, sel, h', l)
  {
    hide On;
  }

  lemma LayerStep(metric: Metric, M: nat, efc: nat, deleted: set<nat>, iid: nat, nodes0: Nodes, from: nat, n: nat, l: nat,
                  n1: Nodes, e1: nat, nodes: Nodes, ep: nat)
    requires 2 <= M && n <= from && Progress(nodes0, M, iid, from, n + 1, n1, e1) && LayerAfter(nodes0, M, iid, from, n + 1, l, n1)
    requires Inserted(metric, M, efc, deleted, iid, n, n1, e1, nodes, ep)
    ensures LayerAfter(nodes0, M, iid, from, n, l, nodes)
  {
    hide Inserted, Grown, SameLayer, On;
    InsertedLayer(metric, M, efc, deleted, iid, n, n1, e1, nodes, ep, l);
    if n == l {
      SameOn(nodes0, n1, l);
      if sel :| Grown(n1, iid, sel, nodes, l) {
        SameThenGrown(nodes0, n1, iid, sel, nodes, l);
      }
    } else if n < l <= from {
      if sel :| Grown(nodes0, iid, sel, n1, l) {
        GrownThenSame(nodes0, iid, sel, n1, nodes, l);
      }
    } else {
      SameTwice(nodes0, n1, nodes, l);
    }
  }

  lemma SameTwice(g: Nodes, h: Nodes, k: Nodes, l: nat)
    requires SameLayer(g, h, l) && SameLayer(h, k, l)
    ensures SameLayer(g, k, l)
  {
  }

  lemma {:induction false} LayersAfter(metric: Metric, M: nat, efc: nat, deleted: set<nat>, iid: nat,
                                       nodes0: Nodes, ep0: nat, from: nat, n: nat, l: nat, nodes: Nodes, ep: nat)
    requires 2 <= M && n <= from + 1
    requires EdgesOk(nodes0) && iid in nodes0 && ep0 in nodes0 && Progress(nodes0, M, iid, from, from + 1, nodes0, ep0)
    requires InsertedDown(metric, M, efc, deleted, iid, nodes0, ep0, from, n, nodes, ep)
    ensures LayerAfter(nodes0, M, iid, from, n, l, nodes)
    decreases from + 1 - n
  {
    hide Progress, EdgesOk, Inserted, InsertedDown, On, Grown;
    if n <= from {
      var n1, e1 := LastLayer(metric, M, efc, deleted, iid, nodes0, ep0, from, n, nodes, ep);
      LayersAfter(metric, M, efc, deleted, iid, nodes0, ep0, from, n + 1, l, n1, e1);
      InsertedDownKeeps(metric, M, efc, deleted, iid, nodes0, ep0, from, n + 1, n1, e1);
      hide LayerAfter;
      LayerStep(metric, M, efc, deleted, iid, nodes0, from, n, l, n1, e1, nodes, ep);
    } else {
      InsertedNowhere(metric, M, efc, deleted, iid, nodes0, ep0, from, n, nodes, ep);
    }
  }

  // ---------- growing by one node keeps a layer in one piece ----------

  /** `g` is `g0` with the node `iid` added and not yet connected. */
  ghost predicate Extended(g0: Nodes, g: Nodes, iid: nat, l: nat) {
    && iid !in g0 && g.Keys == g0.Keys + {iid}
    && (forall i :: i in g0 ==> g[i].level == g0[i].level && g[i].Nbrs(l) == g0[i].Nbrs(l) && g0[i].Nbrs(l) <= g0.Keys)
    && g[iid].Nbrs(l) == {}
  }

  lemma ExtendedOn(g0: Nodes, g: Nodes, iid: nat, l: nat)
    requires Extended(g0, g, iid, l)
    ensures On(g, l) == On(g0, l) + if OnLayer(g, iid, l) then {iid} else {}
    ensures iid !in On(g0, l)
  {
  }

  lemma GrownEdge(g0: Nodes, g: Nodes, iid: nat, sel: set<nat>, h: Nodes, l: nat, i: nat, j: nat)
    requires Extended(g0, g, iid, l) && Grown(g, iid, sel, h, l)
    ensures Edge(h, i, l, j) <==> if i == iid then j in sel else Edge(g0, i, l, j) || (i in sel && j == iid)
    ensures Edge(g0, i, l, j) ==> j != iid
  {
  }

  lemma GrownOn(g0: Nodes, g: Nodes, iid: nat, sel: set<nat>, h: Nodes, l: nat)
    requires Extended(g0, g, iid, l) && Grown(g, iid, sel, h, l)
    ensures On(h, l) == On(g0, l) + {iid} && iid !in On(g0, l) && sel != {} && sel <= On(g0, l)
  {
    ExtendedOn(g0, g, iid, l);
    assert On(h, l) == On(g, l);
  }

  lemma GrownSymmetric(g0: Nodes, g: Nodes, iid: nat, sel: set<nat>, h: Nodes, l: nat)
    requires Extended(g0, g, iid, l) && Grown(g, iid, sel, h, l) && Symmetric(g0, l)
    ensures Symmetric(h, l)
  {
    hide Extended, Grown, Edge, On;
    GrownOn(g0, g, iid, sel, h, l);
    forall i: nat, j: nat | Edge(h, i, l, j) ensures Edge(h, j, l, i) {
      GrownEdge(g0, g, iid, sel, h, l, i, j);
      GrownEdge(g0, g, iid, sel, h, l, j, i);
    }
  }

  lemma GrownConnected(g0: Nodes, g: Nodes, iid: nat, sel: set<nat>, h: Nodes, l: nat)
    requires Extended(g0, g, iid, l) && Grown(g, iid, sel, h, l) && Connected(g0, l)
    ensures Connected(h, l)
  {
    hide Extended, Grown, Edge, On;
    GrownOn(g0, g, iid, sel, h, l);
    forall C: set<nat> | C <= On(h, l) && C != {} && Closed(h, l, C) ensures C == On(h, l) {
      var x :| x in sel;
      GrownEdge(g0, g, iid, sel, h, l, x, iid);
      GrownEdge(g0, g, iid, sel, h, l, iid, x);
      var C0 := C - {iid};
      forall i: nat, j: nat | i in C0 && Edge(g0, i, l, j) ensures j in C0 {
        GrownEdge(g0, g, iid, sel, h, l, i, j);
      }
      assert Closed(g0, l, C0);
      assert C0 != {};
      assert C0 == On(g0, l);
    }
  }

  // ---------- an add ----------

  lemma AddKeepsLayer(metric: Metric, s: Index, vid: string, vec: Vec, meta: Option<Meta>, level: nat, s': Index, l: nat)
    requires Inv(s) && LayerOk(s, l) && Added(metric, s, vid, vec, meta, level, s')
    requires |On(s'.nodes, l)| <= Cap(s.M, l) + 1
    ensures LayerOk(s', l)
  {
    hide *;
    if s.entry.None? {
      FirstLayer(metric, s, vid, vec, meta, level, s', l);
    } else {
      var b, from := Registered(s, vid, vec, meta, level).nodes, Min(level, s.maxLayer);
      var ep1, nodes', ep2 := AddedFrom(metric, s, vid, vec, meta, level, s');
      ReadyToInsert(metric, s, vid, vec, meta, level, ep1);
      AtLeastTwo(s);
      LayersAfter(metric, s.M, s.efc, s.deleted, s.nextId, b, ep1, from, 0, l, nodes', ep2);
      FinishedNodes(s, vid, vec, meta, level, nodes', s');
      RegisteredExtends(s, vid, vec, meta, level, l);
      InsertedDownKeeps(metric, s.M, s.efc, s.deleted, s.nextId, b, ep1, from, 0, nodes', ep2);
      WorkedFrame(b, s.M, s.nextId, from, l, nodes', ep2);
      if l <= from {
        LayerGrows(s, s.nextId, b, from, nodes', l);
      } else {
        UpperLayer(s, vid, vec, meta, level, nodes', l);
      }
      LayerParts(s', nodes', l);
    }
  }

  lemma WorkedFrame(b: Nodes, M: nat, iid: nat, from: nat, l: nat, nodes': Nodes, ep: nat)
    requires Progress(b, M, iid, from, 0, nodes', ep) && LayerAfter(b, M, iid, from, 0, l, nodes')
    ensures nodes'.Keys == b.Keys && forall i :: i in b ==> nodes'[i].level == b[i].level
    ensures l > from ==> SameLayer(b, nodes', l)
  {
    hide MidInsert, EdgesOk, Grown, SameLayer;
  }

  lemma LayerParts(s: Index, nodes: Nodes, l: nat)
    requires s.nodes == nodes && Symmetric(nodes, l) && Connected(nodes, l)
    ensures LayerOk(s, l)
  {
  }

  lemma FinishedNodes(s: Index, vid: string, vec: Vec, meta: Option<Meta>, level: nat, nodes': Nodes, s': Index)
    requires Finished(s, vid, vec, meta, level, nodes', s')
    ensures s'.nodes == nodes'
  {
  }

  lemma FirstLayer(metric: Metric, s: Index, vid: string, vec: Vec, meta: Option<Meta>, level: nat, s': Index, l: nat)
    requires Inv(s) && s.entry.None? && Added(metric, s, vid, vec, meta, level, s')
    ensures LayerOk(s', l)
  {
    assert s'.nodes.Keys == {s.nextId};
    assert s'.nodes[s.nextId].Nbrs(l) == {};
    forall C: set<nat> | C <= On(s'.nodes, l) && C != {} ensures C == On(s'.nodes, l) {
      var x :| x in C;
    }
  }

  lemma RegisteredExtends(s: Index, vid: string, vec: Vec, meta: Option<Meta>, level: nat, l: nat)
    requires Inv(s)
    ensures Extended(s.nodes, Registered(s, vid, vec, meta, level).nodes, s.nextId, l)
    ensures s.nextId in Registered(s, vid, vec, meta, level).nodes && Registered(s, vid, vec, meta, level).nodes[s.nextId].level == level
  {
    NeighboursExist(s.nodes);
    hide EdgesOk, DegreesOk, NoDeadEnds;
  }

  /** A layer the new node was wired on. */
  lemma LayerGrows(s: Index, iid: nat, b: Nodes, from: nat, nodes': Nodes, l: nat)
    requires LayerOk(s, l) && Extended(s.nodes, b, iid, l) && l <= from && LayerAfter(b, s.M, iid, from, 0, l, nodes')
    requires |On(nodes', l)| <= Cap(s.M, l) + 1 && nodes'.Keys == b.Keys && forall i :: i in b ==> nodes'[i].level == b[i].level
    ensures Symmetric(nodes', l) && Connected(nodes', l)
  {
    hide Symmetric, Connected, Grown, Extended;
    assert On(b, l) == On(nodes', l);
    var sel :| Grown(b, iid, sel, nodes', l);
    GrownSymmetric(s.nodes, b, iid, sel, nodes', l);
    GrownConnected(s.nodes, b, iid, sel, nodes', l);
  }

  /** A layer above the new node, or above the old top, where the new node is alone. */
  lemma UpperLayer(s: Index, vid: string, vec: Vec, meta: Option<Meta>, level: nat, nodes': Nodes, l: nat)
    requires Inv(s) && LayerOk(s, l) && l > Min(level, s.maxLayer) && Extended(s.nodes, Registered(s, vid, vec, meta, level).nodes, s.nextId, l)
    requires SameLayer(Registered(s, vid, vec, meta, level).nodes, nodes', l)
    requires s.nextId in Registered(s, vid, vec, meta, level).nodes && Registered(s, vid, vec, meta, level).nodes[s.nextId].level == level
    ensures Symmetric(nodes', l) && Connected(nodes', l)
  {
    hide DegreesOk, NoDeadEnds, IdsOk, ShapeOk, Registered;
    var b, iid := Registered(s, vid, vec, meta, level).nodes, s.nextId;
    forall i: nat, j: nat ensures Edge(nodes', i, l, j) <==> Edge(s.nodes, i, l, j) {}
    SameOn(b, nodes', l);
    ExtendedOn(s.nodes, b, iid, l);
    if l > level {
      assert On(nodes', l) == On(s.nodes, l);
      forall C: set<nat> | Closed(nodes', l, C) ensures Closed(s.nodes, l, C) {
        forall i: nat, j: nat | i in C && Edge(s.nodes, i, l, j) ensures j in C {
          assert Edge(nodes', i, l, j);
        }
      }
    } else {
      assert On(s.nodes, l) == {};
      assert On(nodes', l) == {iid};
      forall C: set<nat> | C <= On(nodes', l) && C != {} ensures C == On(nodes', l) {
        var x :| x in C;
      }
    }
  }

  // ---------- whole runs ----------

  lemma StepOn(metric: Metric, s: Index, op: Op, s': Index, l: nat)
    requires Inv(s) && Step(metric, s, op, s')
    ensures On(s.nodes, l) <= On(s'.nodes, l) && s'.M == s.M
  {
    hide Inv, Added, Registered, SameButEdges;
    if op.AddOp? && |op.vec| == s.dim && op.vid !in s.idMap {
      AddedFrame(metric, s, op.vid, op.vec, op.meta, op.level, s');
      RegisteredOn(s, op.vid, op.vec, op.meta, op.level, s'.nodes, l);
    }
  }

  lemma RegisteredOn(s: Index, vid: string, vec: Vec, meta: Option<Meta>, level: nat, nodes': Nodes, l: nat)
    requires Inv(s) && SameButEdges(Registered(s, vid, vec, meta, level).nodes, nodes')
    ensures On(s.nodes, l) <= On(nodes', l)
  {
    hide EdgesOk, DegreesOk, NoDeadEnds, EntryOk, ShapeOk;
  }

  lemma StepKeepsLayer(metric: Metric, s: Index, op: Op, s': Index, l: nat)
    requires Inv(s) && LayerOk(s, l) && Step(metric, s, op, s') && |On(s'.nodes, l)| <= Cap(s.M, l) + 1
    ensures LayerOk(s', l)
  {
    hide Inv, Added, Symmetric, Connected;
    if op.AddOp? && |op.vec| == s.dim && op.vid !in s.idMap {
      AddKeepsLayer(metric, s, op.vid, op.vec, op.meta, op.level, s', l);
    }
  }

  lemma EmptyLayer(s: Index, l: nat)
    requires s.nodes == map[]
    ensures LayerOk(s, l)
  {
  }

  /** In every run, every layer is symmetric and connected as long as it has held no more nodes than a node may have
      neighbours there, and one: 2M+1 on layer 0, M+1 above. Levels and deletions are arbitrary. */
  lemma {:induction false} SmallLayerConnected(metric: Metric, states: seq<Index>, ops: seq<Op>, n: nat, l: nat)
    requires Run(metric, states, ops) && n < |states| && |On(states[n].nodes, l)| <= (if l == 0 then 2 * states[n].M else states[n].M) + 1
    ensures Symmetric(states[n].nodes, l) && Connected(states[n].nodes, l)
  {
    hide Symmetric, Connected, Inv, Step;
    assert LayerOk(states[n], l) by {
      if n == 0 {
        EmptyLayer(states[0], l);
      } else {
        RunKeepsInv(metric, states, ops, n - 1);
        var s, op, s' := states[n - 1], ops[n - 1], states[n];
        StepOn(metric, s, op, s', l);
        SubsetSize(On(s.nodes, l), On(s'.nodes, l));
        SmallLayerConnected(metric, states, ops, n - 1, l);
        StepKeepsLayer(metric, s, op, s', l);
      }
    }
  }

  /** In every run no node ever has more than 2M neighbours on layer 0, or more than M on a layer above. */
  lemma RunDegrees(metric: Metric, states: seq<Index>, ops: seq<Op>, n: nat, i: nat, l: nat)
    requires Run(metric, states, ops) && n < |states| && i in states[n].nodes
    ensures |states[n].nodes[i].Nbrs(0)| <= 2 * states[n].M
    ensures l >= 1 ==> |states[n].nodes[i].Nbrs(l)| <= states[n].M
  {
    RunKeepsInv(metric, states, ops, n);
    hide Run, EdgesOk, NoDeadEnds, EntryOk, ShapeOk, IdsOk;
    DegreeAt(states[n].nodes, states[n].M, i, 0);
    DegreeAt(states[n].nodes, states[n].M, i, l);
  }
}
