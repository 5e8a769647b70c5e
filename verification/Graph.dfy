/** The index as a value, and what `add`, `delete` and `search` do to it. */
module Graph {
  import opened Types
  import opened Ranking
  import opened Beam
  import opened BeamLoop
  import opened Ranked

  // The operations are relations between index values, because equal distances, set enumeration and heap order
  // leave the program free to choose; where distances are distinct the choice disappears (see `Beam`).

  datatype Vertex = Vertex(vid: string, vec: Vec, level: nat, meta: Option<Meta>, nbrs: map<nat, set<nat>>) {
    function Nbrs(l: nat): set<nat> { if l in nbrs then nbrs[l] else {} }

    function Put(l: nat, s: set<nat>): Vertex { this.(nbrs := nbrs[l := s]) }

    /** There is a neighbour set for each layer up to the node's level. */
    ghost predicate Shaped() { forall l: nat :: l in nbrs <==> l <= level }
  }

  type Nodes = map<nat, Vertex>

  datatype Index = Index(
    dim: nat, M: nat, efc: nat,
    nodes: Nodes, idMap: map<string, nat>, deleted: set<nat>,
    entry: Option<nat>, maxLayer: nat, nextId: nat)

  function Cap(M: nat, l: nat): nat { if l == 0 then 2 * M else M }

  function EmptyIndex(dim: nat, M: nat, efc: nat): Index {
    Index(dim, M, efc, map[], map[], {}, None, 0, 0)
  }

  // ---------- the graph invariant ----------

  ghost predicate OnLayer(nodes: Nodes, i: nat, l: nat) { i in nodes && l <= nodes[i].level }

  ghost predicate Edge(nodes: Nodes, i: nat, l: nat, j: nat) { i in nodes && j in nodes[i].Nbrs(l) }

  /** Edges of a layer join distinct nodes of that layer. */
  ghost predicate EdgesOk(nodes: Nodes) {
    && (forall i :: i in nodes ==> nodes[i].Shaped())
    && forall i: nat, l: nat, j: nat :: Edge(nodes, i, l, j) ==> OnLayer(nodes, j, l) && j != i
  }

  lemma NeighboursExist(nodes: Nodes)
    requires EdgesOk(nodes)
    ensures forall i, l: nat :: i in nodes ==> nodes[i].Nbrs(l) <= nodes.Keys
  {
    forall i, l: nat, j | i in nodes && j in nodes[i].Nbrs(l) ensures j in nodes {
      assert Edge(nodes, i, l, j);
    }
  }

  ghost predicate DegreesOk(nodes: Nodes, M: nat) {
    forall i, l: nat :: i in nodes ==> |nodes[i].Nbrs(l)| <= Cap(M, l)
  }

  ghost predicate Together(nodes: Nodes, i: nat, j: nat, l: nat) {
    OnLayer(nodes, i, l) && OnLayer(nodes, j, l) && i != j
  }

  /** On a layer with two or more nodes, every node has a way out. */
  ghost predicate NoDeadEnds(nodes: Nodes) {
    forall i, j, l: nat :: Together(nodes, i, j, l) ==> nodes[i].Nbrs(l) != {}
  }

  ghost predicate EntryOk(s: Index) {
    && (s.entry.None? <==> s.nodes == map[])
    && (s.entry.None? ==> s.maxLayer == 0)
    && (s.entry.Some? ==> s.entry.value in s.nodes && s.nodes[s.entry.value].level == s.maxLayer)
    && forall i :: i in s.nodes ==> s.nodes[i].level <= s.maxLayer
  }

  ghost predicate IdsOk(s: Index) {
    && (forall i: nat :: i in s.nodes <==> i < s.nextId)
    && (forall i :: i in s.nodes ==> s.nodes[i].vid in s.idMap && s.idMap[s.nodes[i].vid] == i)
    && (forall v :: v in s.idMap ==> s.idMap[v] in s.nodes && s.nodes[s.idMap[v]].vid == v)
    && s.deleted <= s.nodes.Keys
  }

  ghost predicate ShapeOk(s: Index) {
    && 1 <= s.dim && 2 <= s.M <= s.efc
    && forall i :: i in s.nodes ==> |s.nodes[i].vec| == s.dim
  }

  ghost predicate Inv(s: Index) {
    ShapeOk(s) && IdsOk(s) && EntryOk(s) && EdgesOk(s.nodes) && DegreesOk(s.nodes, s.M) && NoDeadEnds(s.nodes)
  }

  // ---------- one layer as a walk ----------

  function MetaOrEmpty(m: Option<Meta>): Meta { if m.Some? then m.value else map[] }

  predicate Eligible(nodes: Nodes, deleted: set<nat>, filter: Option<Filter>, i: nat)
    requires i in nodes
  {
    i !in deleted && (filter.None? || filter.value(MetaOrEmpty(nodes[i].meta)))
  }

  ghost function DistFrom(metric: Metric, nodes: Nodes, q: Vec): map<nat, real> {
    map i | i in nodes :: metric(q, nodes[i].vec)
  }

  ghost function LayerWalk(metric: Metric, nodes: Nodes, deleted: set<nat>, filter: Option<Filter>, q: Vec, l: nat): Walk {
    Walk(map i | i in nodes :: nodes[i].Nbrs(l), DistFrom(metric, nodes, q),
      set i | i in nodes && Eligible(nodes, deleted, filter, i))
  }

  lemma LayerWalkValid(metric: Metric, nodes: Nodes, deleted: set<nat>, filter: Option<Filter>, q: Vec, l: nat)
    ensures var w := LayerWalk(metric, nodes, deleted, filter, q, l);
            w.adj.Keys == nodes.Keys == w.d.Keys && (EdgesOk(nodes) ==> w.Valid())
  {
    if EdgesOk(nodes) {
      NeighboursExist(nodes);
    }
  }

  /** The layer walk may return `found`. */
  ghost predicate Walked(metric: Metric, nodes: Nodes, deleted: set<nat>, filter: Option<Filter>, q: Vec,
                         ep: nat, ef: int, l: nat, found: set<nat>)
    requires EdgesOk(nodes) && ep in nodes
  {
    LayerWalkValid(metric, nodes, deleted, filter, q, l);
    Outcome(LayerWalk(metric, nodes, deleted, filter, q, l), ep, ef, found)
  }

  ghost predicate NearestOf(metric: Metric, nodes: Nodes, q: Vec, found: set<nat>, c: nat) {
    && found <= nodes.Keys && c in found
    && forall y :: y in found ==> metric(q, nodes[c].vec) <= metric(q, nodes[y].vec)
  }

  /** One coarse step: a width-1 walk, then its nearest node. */
  ghost predicate Moved(metric: Metric, nodes: Nodes, deleted: set<nat>, q: Vec, ep: nat, l: nat, ep': nat)
    requires EdgesOk(nodes) && ep in nodes
  {
    exists found :: Walked(metric, nodes, deleted, None, q, ep, 1, l, found) && NearestOf(metric, nodes, q, found, ep')
  }

  /** On layer `top` - `i` the descent moved from `ps[i]` to `ps[i + 1]`. */
  ghost predicate Hop(metric: Metric, nodes: Nodes, deleted: set<nat>, q: Vec, top: nat, ps: seq<nat>, i: nat)
    requires EdgesOk(nodes)
  {
    i + 1 < |ps| && i < top && ps[i] in nodes && Moved(metric, nodes, deleted, q, ps[i], top - i, ps[i + 1])
  }

  /** `ps` is a way down through layers `top`, `top`-1, ..., `l`+1. */
  ghost predicate WayDown(metric: Metric, nodes: Nodes, deleted: set<nat>, q: Vec, top: nat, l: nat, ps: seq<nat>)
    requires EdgesOk(nodes)
  {
    |ps| == 1 + Max(0, top - l) && forall i: nat :: i + 1 < |ps| ==> Hop(metric, nodes, deleted, q, top, ps, i)
  }

  /** Descending from `ep0` at layer `top` may arrive at `ep` on layer `l`. */
  ghost predicate Descended(metric: Metric, nodes: Nodes, deleted: set<nat>, q: Vec, ep0: nat, top: nat, l: nat, ep: nat)
    requires EdgesOk(nodes) && ep0 in nodes
  {
    exists ps :: WayDown(metric, nodes, deleted, q, top, l, ps) && ps[0] == ep0 && ps[|ps| - 1] == ep
  }

  lemma DescendedStart(metric: Metric, nodes: Nodes, deleted: set<nat>, q: Vec, ep0: nat, top: nat, l: nat)
    requires EdgesOk(nodes) && ep0 in nodes && top <= l
    ensures Descended(metric, nodes, deleted, q, ep0, top, l, ep0)
  {
    hide EdgesOk, Hop;
    assert WayDown(metric, nodes, deleted, q, top, l, [ep0]);
  }

  lemma DescendedStep(metric: Metric, nodes: Nodes, deleted: set<nat>, q: Vec, ep0: nat, top: nat, l: nat, p: nat, ep: nat)
    requires EdgesOk(nodes) && ep0 in nodes && p in nodes && l < top
    requires Descended(metric, nodes, deleted, q, ep0, top, l + 1, p) && Moved(metric, nodes, deleted, q, p, l + 1, ep)
    ensures Descended(metric, nodes, deleted, q, ep0, top, l, ep)
  {
    hide Moved, EdgesOk;
    var ps :| WayDown(metric, nodes, deleted, q, top, l + 1, ps) && ps[0] == ep0 && ps[|ps| - 1] == p;
    forall i: nat | i + 1 < |ps + [ep]| ensures Hop(metric, nodes, deleted, q, top, ps + [ep], i) {
      assert i + 1 < |ps| ==> Hop(metric, nodes, deleted, q, top, ps, i);
    }
    assert WayDown(metric, nodes, deleted, q, top, l, ps + [ep]);
  }

  /** The last step of a descent. */
  lemma DescendedLast(metric: Metric, nodes: Nodes, deleted: set<nat>, q: Vec, ep0: nat, top: nat, l: nat, ep: nat) returns (p: nat)
    requires EdgesOk(nodes) && ep0 in nodes && l < top && Descended(metric, nodes, deleted, q, ep0, top, l, ep)
    ensures p in nodes && Descended(metric, nodes, deleted, q, ep0, top, l + 1, p) && Moved(metric, nodes, deleted, q, p, l + 1, ep)
  {
    hide Moved, EdgesOk;
    var ps :| WayDown(metric, nodes, deleted, q, top, l, ps) && ps[0] == ep0 && ps[|ps| - 1] == ep;
    var front := ps[..|ps| - 1];
    p := front[|front| - 1];
    assert Hop(metric, nodes, deleted, q, top, ps, |ps| - 2);
    forall i: nat | i + 1 < |front| ensures Hop(metric, nodes, deleted, q, top, front, i) {
      assert Hop(metric, nodes, deleted, q, top, ps, i);
    }
    assert WayDown(metric, nodes, deleted, q, top, l + 1, front);
  }

  lemma DescendedNowhere(metric: Metric, nodes: Nodes, deleted: set<nat>, q: Vec, ep0: nat, top: nat, l: nat, ep: nat)
    requires EdgesOk(nodes) && ep0 in nodes && top <= l && Descended(metric, nodes, deleted, q, ep0, top, l, ep)
    ensures ep == ep0
  {
    hide Hop, EdgesOk;
  }

  // ---------- insertion ----------

  /** Both ends of the new node's edges on layer `l`. */
  function Joined(nodes: Nodes, iid: nat, l: nat, sel: set<nat>): Nodes {
    map i | i in nodes ::
      if i == iid then nodes[i].Put(l, nodes[i].Nbrs(l) + sel)
      else if i in sel then nodes[i].Put(l, nodes[i].Nbrs(l) + {iid})
      else nodes[i]
  }

  /** `v'` is `v`, trimmed to its `cap` closest layer-`l` neighbours if it had more. */
  ghost predicate Trimmed(metric: Metric, nodes: Nodes, cap: nat, l: nat, v: Vertex, v': Vertex)
    requires v.Nbrs(l) <= nodes.Keys
  {
    if |v.Nbrs(l)| <= cap then v' == v else
      && v' == v.Put(l, v'.Nbrs(l))
      && Closest(DistFrom(metric, nodes, v.vec), cap, v.Nbrs(l), v'.Nbrs(l))
  }

  /** Wiring `iid` to `sel` on layer `l`: edges both ways, then each selected neighbour (only) is trimmed. */
  ghost predicate Wired(metric: Metric, M: nat, nodes: Nodes, iid: nat, l: nat, sel: set<nat>, nodes': Nodes)
    requires EdgesOk(nodes) && iid in nodes
  {
    var mid := Joined(nodes, iid, l, sel);
    NeighboursExist(nodes);
    && sel <= nodes.Keys && nodes'.Keys == nodes.Keys
    && forall i :: i in nodes ==>
         if i in sel then Trimmed(metric, nodes, Cap(M, l), l, mid[i], nodes'[i]) else nodes'[i] == mid[i]
  }

  /** One layer of the fine insert: search, select, wire, and move on to the nearest candidate. */
  ghost predicate Inserted(metric: Metric, M: nat, efc: nat, deleted: set<nat>, iid: nat, l: nat,
                           nodes: Nodes, ep: nat, nodes': Nodes, ep': nat)
    requires EdgesOk(nodes) && iid in nodes && ep in nodes
  {
    exists found, sel ::
      && Walked(metric, nodes, deleted, None, nodes[iid].vec, ep, efc, l, found)
      && NearestOf(metric, nodes, nodes[iid].vec, found, ep')
      && Closest(DistFrom(metric, nodes, nodes[iid].vec), Cap(M, l), found, sel)
      && Wired(metric, M, nodes, iid, l, sel, nodes')
  }

  /** On layer `from` - `i` the fine insert took `gs[i]` to `gs[i + 1]`. */
  ghost predicate LayerDone(metric: Metric, M: nat, efc: nat, deleted: set<nat>, iid: nat, from: nat, gs: seq<(Nodes, nat)>, i: nat) {
    && i + 1 < |gs| && i <= from && EdgesOk(gs[i].0) && iid in gs[i].0 && gs[i].1 in gs[i].0
    && Inserted(metric, M, efc, deleted, iid, from - i, gs[i].0, gs[i].1, gs[i + 1].0, gs[i + 1].1)
  }

  /** `gs` are the graphs and entry points of a fine insert through layers `from`, `from`-1, ..., `l`. */
  ghost predicate LayersDone(metric: Metric, M: nat, efc: nat, deleted: set<nat>, iid: nat, from: nat, l: nat, gs: seq<(Nodes, nat)>) {
    |gs| == 1 + Max(0, from + 1 - l) && forall i: nat :: i + 1 < |gs| ==> LayerDone(metric, M, efc, deleted, iid, from, gs, i)
  }

  /** The fine insert has worked through layers `from`, `from`-1, ..., `l` and left `nodes`, `ep`. */
  ghost predicate InsertedDown(metric: Metric, M: nat, efc: nat, deleted: set<nat>, iid: nat,
                               nodes0: Nodes, ep0: nat, from: nat, l: nat, nodes: Nodes, ep: nat)
    requires EdgesOk(nodes0) && iid in nodes0 && ep0 in nodes0
  {
    exists gs: seq<(Nodes, nat)> :: LayersDone(metric, M, efc, deleted, iid, from, l, gs) && gs[0] == (nodes0, ep0) && gs[|gs| - 1] == (nodes, ep)
  }

  lemma InsertedDownStart(metric: Metric, M: nat, efc: nat, deleted: set<nat>, iid: nat, nodes0: Nodes, ep0: nat, from: nat, l: nat)
    requires EdgesOk(nodes0) && iid in nodes0 && ep0 in nodes0 && from < l
    ensures InsertedDown(metric, M, efc, deleted, iid, nodes0, ep0, from, l, nodes0, ep0)
  {
    hide EdgesOk, LayerDone;
    assert LayersDone(metric, M, efc, deleted, iid, from, l, [(nodes0, ep0)]);
  }

  lemma InsertedDownStep(metric: Metric, M: nat, efc: nat, deleted: set<nat>, iid: nat, nodes0: Nodes, ep0: nat,
                         from: nat, l: nat, n1: Nodes, e1: nat, nodes: Nodes, ep: nat)
    requires EdgesOk(nodes0) && iid in nodes0 && ep0 in nodes0 && l <= from
    requires EdgesOk(n1) && iid in n1 && e1 in n1
    requires InsertedDown(metric, M, efc, deleted, iid, nodes0, ep0, from, l + 1, n1, e1)
    requires Inserted(metric, M, efc, deleted, iid, l, n1, e1, nodes, ep)
    ensures InsertedDown(metric, M, efc, deleted, iid, nodes0, ep0, from, l, nodes, ep)
  {
    hide Inserted, EdgesOk;
    var gs: seq<(Nodes, nat)> :| LayersDone(metric, M, efc, deleted, iid, from, l + 1, gs) && gs[0] == (nodes0, ep0) && gs[|gs| - 1] == (n1, e1);
    var next := gs + [(nodes, ep)];
    forall i: nat | i + 1 < |next| ensures LayerDone(metric, M, efc, deleted, iid, from, next, i) {
      assert i + 1 < |gs| ==> LayerDone(metric, M, efc, deleted, iid, from, gs, i);
    }
    assert LayersDone(metric, M, efc, deleted, iid, from, l, next);
  }

  /** The last layer of a fine insert. */
  lemma LastLayer(metric: Metric, M: nat, efc: nat, deleted: set<nat>, iid: nat,
                  nodes0: Nodes, ep0: nat, from: nat, l: nat, nodes: Nodes, ep: nat) returns (n1: Nodes, e1: nat)
    requires EdgesOk(nodes0) && iid in nodes0 && ep0 in nodes0 && l <= from
    requires InsertedDown(metric, M, efc, deleted, iid, nodes0, ep0, from, l, nodes, ep)
    ensures EdgesOk(n1) && iid in n1 && e1 in n1
    ensures InsertedDown(metric, M, efc, deleted, iid, nodes0, ep0, from, l + 1, n1, e1)
    ensures Inserted(metric, M, efc, deleted, iid, l, n1, e1, nodes, ep)
  {
    hide Inserted, EdgesOk;
    var gs: seq<(Nodes, nat)> :| LayersDone(metric, M, efc, deleted, iid, from, l, gs) && gs[0] == (nodes0, ep0) && gs[|gs| - 1] == (nodes, ep);
    var front := gs[..|gs| - 1];
    n1, e1 := front[|front| - 1].0, front[|front| - 1].1;
    assert LayerDone(metric, M, efc, deleted, iid, from, gs, |gs| - 2);
    forall i: nat | i + 1 < |front| ensures LayerDone(metric, M, efc, deleted, iid, from, front, i) {
      assert LayerDone(metric, M, efc, deleted, iid, from, gs, i);
    }
    assert LayersDone(metric, M, efc, deleted, iid, from, l + 1, front);
  }

  lemma InsertedNowhere(metric: Metric, M: nat, efc: nat, deleted: set<nat>, iid: nat,
                        nodes0: Nodes, ep0: nat, from: nat, l: nat, nodes: Nodes, ep: nat)
    requires EdgesOk(nodes0) && iid in nodes0 && ep0 in nodes0 && from < l
    requires InsertedDown(metric, M, efc, deleted, iid, nodes0, ep0, from, l, nodes, ep)
    ensures nodes == nodes0 && ep == ep0
  {
    hide LayerDone, EdgesOk;
  }

  function Layers(level: nat): (ls: set<nat>)
    ensures forall l: nat :: l in ls <==> l <= level
  {
    if level == 0 then {0} else Layers(level - 1) + {level}
  }

  function FreshVertex(vid: string, vec: Vec, meta: Option<Meta>, level: nat): Vertex {
    Vertex(vid, vec, level, meta, map l | l in Layers(level) :: {})
  }

  /** The index with the new node registered but not yet connected. */
  function Registered(s: Index, vid: string, vec: Vec, meta: Option<Meta>, level: nat): Index {
    s.(nodes := s.nodes[s.nextId := FreshVertex(vid, vec, meta, level)],
       idMap := s.idMap[vid := s.nextId], nextId := s.nextId + 1)
  }

  /** A successful `add` that drew `level`. */
  ghost predicate Added(metric: Metric, s: Index, vid: string, vec: Vec, meta: Option<Meta>, level: nat, s': Index)
    requires Inv(s)
  {
    var b := Registered(s, vid, vec, meta, level);
    if s.entry.None? then s' == b.(entry := Some(s.nextId), maxLayer := level) else
    && EdgesOk(b.nodes)
    && exists ep1, nodes', ep2 ::
      && ep1 in b.nodes
      && Descended(metric, b.nodes, s.deleted, vec, s.entry.value, s.maxLayer, level, ep1)
      && InsertedDown(metric, s.M, s.efc, s.deleted, s.nextId, b.nodes, ep1, Min(level, s.maxLayer), 0, nodes', ep2)
      && s' == b.(nodes := nodes',
                  entry := if level > s.maxLayer then Some(s.nextId) else s.entry,
                  maxLayer := Max(level, s.maxLayer))
  }

  function Deleted(s: Index, vid: string): Index {
    if vid in s.idMap then s.(deleted := s.deleted + {s.idMap[vid]}) else s
  }

  // ---------- search ----------

  /** The beam width used when `ef` is absent or 0, or the width asked for. */
  function EffectiveEf(k: nat, efc: nat, ef: Option<int>): int {
    if ef.Some? && ef.value != 0 then ef.value else Max(k, efc)
  }

  ghost function EligibleIn(nodes: Nodes, deleted: set<nat>, filter: Option<Filter>, S: set<nat>): set<nat>
    requires S <= nodes.Keys
  {
    set i | i in S && Eligible(nodes, deleted, filter, i)
  }

  /** The same list with caller-supplied ids in place of internal ones. */
  ghost predicate Named(nodes: Nodes, xs: seq<(nat, real)>, res: seq<(string, real)>) {
    && |res| == |xs|
    && forall i :: 0 <= i < |xs| ==> xs[i].0 in nodes && res[i] == (nodes[xs[i].0].vid, xs[i].1)
  }

  /** `search` may answer `res`. */
  ghost predicate Searched(metric: Metric, s: Index, q: Vec, k: nat, ef: Option<int>, filter: Option<Filter>, res: seq<(string, real)>)
    requires Inv(s)
  {
    if s.entry.None? then res == [] else
    exists ep, found, xs ::
      && ep in s.nodes && found <= s.nodes.Keys
      && Descended(metric, s.nodes, s.deleted, q, s.entry.value, s.maxLayer, 0, ep)
      && Walked(metric, s.nodes, s.deleted, filter, q, ep, EffectiveEf(k, s.efc, ef), 0, found)
      && IsRanking(DistFrom(metric, s.nodes, q), EligibleIn(s.nodes, s.deleted, filter, found), k, xs)
      && Named(s.nodes, xs, res)
  }

  // ---------- live contents ----------

  ghost function LiveIds(s: Index): set<nat> { s.nodes.Keys - s.deleted }

  /** What the index holds for its callers: every id not tombstoned, with its vector. */
  ghost function Live(s: Index): map<string, Vec>
    requires Inv(s)
  {
    map v | v in s.idMap && s.idMap[v] !in s.deleted :: s.nodes[s.idMap[v]].vec
  }

  /** `items` lists the live contents, each id once. */
  ghost predicate Lists<V>(live: map<string, V>, items: seq<(string, V)>) {
    && |items| == |live|
    && (forall i :: 0 <= i < |items| ==> items[i].0 in live && live[items[i].0] == items[i].1)
    && forall i, j :: 0 <= i < j < |items| ==> items[i].0 != items[j].0
  }

  ghost predicate ListsLive(s: Index, items: seq<(string, Vec)>)
    requires Inv(s)
  {
    Lists(Live(s), items)
  }
}
