/** Metadata plays no part in how the graph grows. */
module Echo {
  import opened Types
  import opened Ranking
  import opened Beam
  import opened BeamLoop
  import opened Graph
  import opened GraphInvariant
  import opened Runs

  // An index with some records replaced, such as one read back from a file, goes through the same states as the
  // original, up to those records.

  /** Replacement records for some of the nodes. */
  type Records = map<nat, Option<Meta>>

  function Swap(i: nat, v: Vertex, ms: Records): Vertex { if i in ms then v.(meta := ms[i]) else v }

  function WithMeta(nodes: Nodes, ms: Records): (n: Nodes)
    ensures n.Keys == nodes.Keys
  {
    map i | i in nodes :: Swap(i, nodes[i], ms)
  }

  function Swapped(s: Index, ms: Records): Index { s.(nodes := WithMeta(s.nodes, ms)) }

  lemma EchoEdges(nodes: Nodes, ms: Records)
    ensures EdgesOk(nodes) <==> EdgesOk(WithMeta(nodes, ms))
  {
    var n := WithMeta(nodes, ms);
    forall i: nat, l: nat, j: nat ensures Edge(nodes, i, l, j) <==> Edge(n, i, l, j) {}
    forall j: nat, l: nat ensures OnLayer(nodes, j, l) <==> OnLayer(n, j, l) {}
    forall i | i in nodes ensures nodes[i].Shaped() <==> n[i].Shaped() {
      assert n[i].nbrs == nodes[i].nbrs && n[i].level == nodes[i].level;
    }
  }

  lemma EchoDist(metric: Metric, nodes: Nodes, ms: Records, q: Vec)
    ensures DistFrom(metric, WithMeta(nodes, ms), q) == DistFrom(metric, nodes, q)
  {
  }

  /** A filter sees the same records in both. */
  ghost predicate SameRead(nodes: Nodes, ms: Records) {
    forall i :: i in nodes && i in ms ==> MetaOrEmpty(ms[i]) == MetaOrEmpty(nodes[i].meta)
  }

  lemma EchoWalk(metric: Metric, nodes: Nodes, ms: Records, deleted: set<nat>, filter: Option<Filter>, q: Vec, l: nat)
    requires filter.None? || SameRead(nodes, ms)
    ensures LayerWalk(metric, WithMeta(nodes, ms), deleted, filter, q, l) == LayerWalk(metric, nodes, deleted, filter, q, l)
  {
    var w, e := LayerWalk(metric, nodes, deleted, filter, q, l), LayerWalk(metric, WithMeta(nodes, ms), deleted, filter, q, l);
    EchoDist(metric, nodes, ms, q);
    hide EdgesOk, Walk.Valid, DistFrom;
    assert w.adj == e.adj;
    assert w.ok == e.ok;
  }

  lemma EchoMoved(metric: Metric, nodes: Nodes, ms: Records, deleted: set<nat>, q: Vec, ep: nat, l: nat, ep': nat)
    requires EdgesOk(nodes) && EdgesOk(WithMeta(nodes, ms)) && ep in nodes && Moved(metric, nodes, deleted, q, ep, l, ep')
    ensures Moved(metric, WithMeta(nodes, ms), deleted, q, ep, l, ep')
  {
    var found :| Walked(metric, nodes, deleted, None, q, ep, 1, l, found) && NearestOf(metric, nodes, q, found, ep');
    EchoWalk(metric, nodes, ms, deleted, None, q, l);
    hide Outcome, LayerWalk;
    assert Walked(metric, WithMeta(nodes, ms), deleted, None, q, ep, 1, l, found);
    assert NearestOf(metric, WithMeta(nodes, ms), q, found, ep');
  }

  lemma {:induction false} EchoDescended(metric: Metric, nodes: Nodes, ms: Records, deleted: set<nat>, q: Vec, ep0: nat, top: nat, l: nat, ep: nat)
    requires EdgesOk(nodes) && EdgesOk(WithMeta(nodes, ms)) && ep0 in nodes && Descended(metric, nodes, deleted, q, ep0, top, l, ep)
    ensures Descended(metric, WithMeta(nodes, ms), deleted, q, ep0, top, l, ep)
    decreases top - l
  {
    hide Moved, EdgesOk, WithMeta, Descended;
    if l < top {
      var p := DescendedLast(metric, nodes, deleted, q, ep0, top, l, ep);
      EchoDescended(metric, nodes, ms, deleted, q, ep0, top, l + 1, p);
      EchoMoved(metric, nodes, ms, deleted, q, p, l + 1, ep);
      DescendedStep(metric, WithMeta(nodes, ms), deleted, q, ep0, top, l, p, ep);
    } else {
      DescendedNowhere(metric, nodes, deleted, q, ep0, top, l, ep);
      DescendedStart(metric, WithMeta(nodes, ms), deleted, q, ep0, top, l);
    }
  }

  lemma EchoJoined(nodes: Nodes, ms: Records, iid: nat, l: nat, sel: set<nat>)
    ensures Joined(WithMeta(nodes, ms), iid, l, sel) == WithMeta(Joined(nodes, iid, l, sel), ms)
  {
  }

  lemma EchoTrimmed(metric: Metric, nodes: Nodes, ms: Records, cap: nat, l: nat, i: nat, v: Vertex, v': Vertex)
    requires v.Nbrs(l) <= nodes.Keys && Trimmed(metric, nodes, cap, l, v, v')
    ensures Trimmed(metric, WithMeta(nodes, ms), cap, l, Swap(i, v, ms), Swap(i, v', ms))
  {
    EchoDist(metric, nodes, ms, v.vec);
    hide Closest, DistFrom;
  }

  lemma EchoAt(nodes: Nodes, ms: Records)
    ensures WithMeta(nodes, ms).Keys == nodes.Keys && forall i :: i in nodes ==> WithMeta(nodes, ms)[i] == Swap(i, nodes[i], ms)
  {
  }

  lemma WiredAt(metric: Metric, M: nat, nodes: Nodes, iid: nat, l: nat, sel: set<nat>, nodes': Nodes, i: nat)
    requires EdgesOk(nodes) && iid in nodes && Wired(metric, M, nodes, iid, l, sel, nodes') && i in nodes
    ensures var m := Joined(nodes, iid, l, sel)[i];
            && sel <= nodes.Keys && nodes'.Keys == nodes.Keys && m.Nbrs(l) <= nodes.Keys
            && if i in sel then Trimmed(metric, nodes, Cap(M, l), l, m, nodes'[i]) else nodes'[i] == m
  {
    NeighboursExist(nodes);
    hide EdgesOk, Trimmed;
  }

  lemma EchoWiredAt(metric: Metric, M: nat, nodes: Nodes, ms: Records, iid: nat, l: nat, sel: set<nat>, nodes': Nodes, i: nat)
    requires EdgesOk(nodes) && iid in nodes && Wired(metric, M, nodes, iid, l, sel, nodes') && i in nodes
    ensures var e, e' := WithMeta(nodes, ms), WithMeta(nodes', ms);
            var m := Joined(e, iid, l, sel)[i];
            && i in e' && m.Nbrs(l) <= e.Keys
            && if i in sel then Trimmed(metric, e, Cap(M, l), l, m, e'[i]) else e'[i] == m
  {
    WiredAt(metric, M, nodes, iid, l, sel, nodes', i);
    EchoJoined(nodes, ms, iid, l, sel);
    hide EdgesOk, Wired, Trimmed;
    var m := Joined(nodes, iid, l, sel)[i];
    if i in sel {
      EchoTrimmed(metric, nodes, ms, Cap(M, l), l, i, m, nodes'[i]);
    }
  }

  lemma EchoWired(metric: Metric, M: nat, nodes: Nodes, ms: Records, iid: nat, l: nat, sel: set<nat>, nodes': Nodes)
    requires EdgesOk(nodes) && EdgesOk(WithMeta(nodes, ms)) && iid in nodes && Wired(metric, M, nodes, iid, l, sel, nodes')
    ensures Wired(metric, M, WithMeta(nodes, ms), iid, l, sel, WithMeta(nodes', ms))
  {
    hide EdgesOk, Trimmed, WithMeta;
    EchoAt(nodes, ms);
    EchoAt(nodes', ms);
    WiredAt(metric, M, nodes, iid, l, sel, nodes', iid);
    forall i | i in nodes
      ensures var e, e' := WithMeta(nodes, ms), WithMeta(nodes', ms);
              var m := Joined(e, iid, l, sel)[i];
              && i in e' && m.Nbrs(l) <= e.Keys
              && if i in sel then Trimmed(metric, e, Cap(M, l), l, m, e'[i]) else e'[i] == m
    {
      EchoWiredAt(metric, M, nodes, ms, iid, l, sel, nodes', i);
    }
  }

  lemma EchoInserted(metric: Metric, M: nat, efc: nat, deleted: set<nat>, iid: nat, l: nat, nodes: Nodes, ms: Records, ep: nat, nodes': Nodes, ep': nat)
    requires EdgesOk(nodes) && EdgesOk(WithMeta(nodes, ms)) && iid in nodes && ep in nodes
    requires Inserted(metric, M, efc, deleted, iid, l, nodes, ep, nodes', ep')
    ensures Inserted(metric, M, efc, deleted, iid, l, WithMeta(nodes, ms), ep, WithMeta(nodes', ms), ep')
  {
    hide Wired, EdgesOk, Outcome, Closest;
    var q := nodes[iid].vec;
    var found, sel :| && Walked(metric, nodes, deleted, None, q, ep, efc, l, found) && NearestOf(metric, nodes, q, found, ep')
      && Closest(DistFrom(metric, nodes, q), Cap(M, l), found, sel) && Wired(metric, M, nodes, iid, l, sel, nodes');
    EchoWalk(metric, nodes, ms, deleted, None, q, l);
    EchoDist(metric, nodes, ms, q);
    EchoWired(metric, M, nodes, ms, iid, l, sel, nodes');
    var e := WithMeta(nodes, ms);
    assert e[iid].vec == q;
    hide LayerWalk;
    assert Walked(metric, e, deleted, None, q, ep, efc, l, found) && NearestOf(metric, e, q, found, ep');
  }

  lemma {:induction false} EchoInsertedDown(metric: Metric, M: nat, efc: nat, deleted: set<nat>, iid: nat, nodes0: Nodes, ms: Records, ep0: nat,
                                            from: nat, l: nat, nodes: Nodes, ep: nat)
    requires EdgesOk(nodes0) && EdgesOk(WithMeta(nodes0, ms)) && iid in nodes0 && ep0 in nodes0
    requires InsertedDown(metric, M, efc, deleted, iid, nodes0, ep0, from, l, nodes, ep)
    ensures InsertedDown(metric, M, efc, deleted, iid, WithMeta(nodes0, ms), ep0, from, l, WithMeta(nodes, ms), ep)
    decreases from + 1 - l
  {
    hide Inserted, EdgesOk, WithMeta, InsertedDown;
    if l <= from {
      var n1, e1 := LastLayer(metric, M, efc, deleted, iid, nodes0, ep0, from, l, nodes, ep);
      EchoInsertedDown(metric, M, efc, deleted, iid, nodes0, ms, ep0, from, l + 1, n1, e1);
      EchoEdges(n1, ms);
      EchoInserted(metric, M, efc, deleted, iid, l, n1, ms, e1, nodes, ep);
      InsertedDownStep(metric, M, efc, deleted, iid, WithMeta(nodes0, ms), ep0, from, l, WithMeta(n1, ms), e1, WithMeta(nodes, ms), ep);
    } else {
      InsertedNowhere(metric, M, efc, deleted, iid, nodes0, ep0, from, l, nodes, ep);
      InsertedDownStart(metric, M, efc, deleted, iid, WithMeta(nodes0, ms), ep0, from, l);
    }
  }

  lemma EchoRegistered(s: Index, ms: Records, vid: string, vec: Vec, meta: Option<Meta>, level: nat)
    requires s.nextId !in ms
    ensures Registered(Swapped(s, ms), vid, vec, meta, level) == Swapped(Registered(s, vid, vec, meta, level), ms)
    ensures Registered(Swapped(s, ms), vid, vec, meta, level).nodes == WithMeta(Registered(s, vid, vec, meta, level).nodes, ms)
  {
    assert Registered(Swapped(s, ms), vid, vec, meta, level).nodes == WithMeta(Registered(s, vid, vec, meta, level).nodes, ms);
  }

  lemma EchoInv(s: Index, ms: Records)
    requires Inv(s)
    ensures Inv(Swapped(s, ms))
  {
    EchoEdges(s.nodes, ms);
    var t := Swapped(s, ms);
    hide EdgesOk;
    assert DegreesOk(t.nodes, t.M) by {
      forall i, l: nat | i in t.nodes ensures |t.nodes[i].Nbrs(l)| <= Cap(t.M, l) {
        assert t.nodes[i].Nbrs(l) == s.nodes[i].Nbrs(l);
      }
    }
    assert NoDeadEnds(t.nodes) by {
      forall i, j, l: nat | Together(t.nodes, i, j, l) ensures t.nodes[i].Nbrs(l) != {} {
        assert Together(s.nodes, i, j, l);
        assert t.nodes[i].Nbrs(l) == s.nodes[i].Nbrs(l);
      }
    }
  }

  lemma EchoAdded(metric: Metric, s: Index, ms: Records, vid: string, vec: Vec, meta: Option<Meta>, level: nat, s': Index)
    requires Inv(s) && Inv(Swapped(s, ms)) && IdsOk(s) && ms.Keys <= s.nodes.Keys && Added(metric, s, vid, vec, meta, level, s')
    ensures Added(metric, Swapped(s, ms), vid, vec, meta, level, Swapped(s', ms))
  {
    hide *;
    var t, b := Swapped(s, ms), Registered(s, vid, vec, meta, level).nodes;
    SwappedParts(s, ms);
    EchoRegistered(s, ms, vid, vec, meta, level);
    if s.entry.Some? {
      var ep1, nodes', ep2 := AddedFrom(metric, s, vid, vec, meta, level, s');
      EchoEdges(b, ms);
      EchoDescended(metric, b, ms, s.deleted, vec, s.entry.value, s.maxLayer, level, ep1);
      EchoInsertedDown(metric, s.M, s.efc, s.deleted, s.nextId, b, ms, ep1, Min(level, s.maxLayer), 0, nodes', ep2);
      EchoFinished(s, ms, vid, vec, meta, level, nodes', s');
      AddedBy(metric, t, vid, vec, meta, level, ep1, WithMeta(nodes', ms), ep2, Swapped(s', ms));
    } else {
      EchoFirst(metric, s, ms, vid, vec, meta, level, s');
    }
  }

  /** Everything but the records is shared. */
  lemma SwappedParts(s: Index, ms: Records)
    requires IdsOk(s) && ms.Keys <= s.nodes.Keys
    ensures var t := Swapped(s, ms);
            && t.nodes == WithMeta(s.nodes, ms) && t.dim == s.dim && t.M == s.M && t.efc == s.efc && t.idMap == s.idMap
            && t.deleted == s.deleted && t.entry == s.entry && t.maxLayer == s.maxLayer && t.nextId == s.nextId
    ensures s.nextId !in ms
  {
  }

  lemma EchoFinished(s: Index, ms: Records, vid: string, vec: Vec, meta: Option<Meta>, level: nat, nodes': Nodes, s': Index)
    requires Finished(s, vid, vec, meta, level, nodes', s') && s.nextId !in ms
    ensures Finished(Swapped(s, ms), vid, vec, meta, level, WithMeta(nodes', ms), Swapped(s', ms))
  {
    hide WithMeta;
    EchoRegistered(s, ms, vid, vec, meta, level);
  }

  lemma EchoFirst(metric: Metric, s: Index, ms: Records, vid: string, vec: Vec, meta: Option<Meta>, level: nat, s': Index)
    requires Inv(s) && Inv(Swapped(s, ms)) && s.entry.None? && s.nextId !in ms && Added(metric, s, vid, vec, meta, level, s')
    ensures Added(metric, Swapped(s, ms), vid, vec, meta, level, Swapped(s', ms))
  {
    hide WithMeta, Inv;
    EchoRegistered(s, ms, vid, vec, meta, level);
  }

  /** One operation on the original is the same operation on the copy. */
  lemma EchoStep(metric: Metric, s: Index, ms: Records, op: Op, s': Index)
    requires Inv(s) && Inv(Swapped(s, ms)) && ms.Keys <= s.nodes.Keys && Step(metric, s, op, s')
    ensures Step(metric, Swapped(s, ms), op, Swapped(s', ms))
  {
    assert IdsOk(s);
    hide Inv, Added, IdsOk;
    match op
    case AddOp(vid, vec, meta, level) =>
      if |vec| == s.dim && vid !in s.idMap {
        EchoAdded(metric, s, ms, vid, vec, meta, level, s');
      }
    case DeleteOp(vid) =>
  }
}
