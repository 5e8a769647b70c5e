/** The multi-layer index: objects updated in place, specified by the value relations of `Graph`. */
module Hnsw {
  import opened Types
  import opened Ranking
  import opened Ranked
  import opened Beam
  import opened Graph
  import opened GraphInvariant
  import opened Wiring
  import Heap
  import opened BeamLoop
  import opened BeamHeaps

  datatype Error = BadShape | DuplicateId | BadK | UnknownId

  /** A vertex; only its neighbour sets change after creation. */
  class Node {
    const iid: nat
    const vid: string
    const vec: Vec
    const level: nat
    const meta: Option<Meta>
    var neighbors: map<nat, set<nat>>

    constructor (iid: nat, vid: string, vec: Vec, level: nat, meta: Option<Meta>)
      ensures this.iid == iid && View() == FreshVertex(vid, vec, meta, level)
    {
      this.iid, this.vid, this.vec, this.level, this.meta := iid, vid, vec, level, meta;
      neighbors := map l | l in Layers(level) :: {};
    }

    ghost function View(): Vertex
      reads this
    {
      Vertex(vid, vec, level, meta, neighbors)
    }

    function Nbrs(l: nat): set<nat>
      reads this
    {
      if l in neighbors then neighbors[l] else {}
    }
  }

  class HNSWIndex {
    const metric: Metric
    const dim: nat
    const M: nat
    const efConstruction: nat
    var nodes: map<nat, Node>
    var idMap: map<string, nat>
    var deleted: set<nat>
    var entryPoint: Option<nat>
    var maxLayer: nat
    var nextId: nat

    /** Nodes are filed under their own ids, so no two keys share a node. */
    ghost predicate Filed()
      reads this
    {
      forall i :: i in nodes ==> nodes[i].iid == i
    }

    ghost function Graph(): Nodes
      reads this, nodes.Values
    {
      map i | i in nodes :: nodes[i].View()
    }

    ghost function View(): Index
      reads this, nodes.Values
    {
      Index(dim, M, efConstruction, Graph(), idMap, deleted, entryPoint, maxLayer, nextId)
    }

    ghost predicate Valid()
      reads this, nodes.Values
    {
      Filed() && Inv(View())
    }

    constructor (metric: Metric, dim: nat, M: nat, efConstruction: nat)
      requires 1 <= dim && 2 <= M <= efConstruction
      ensures Valid() && View() == EmptyIndex(dim, M, efConstruction) && nodes == map[]
      ensures this.metric == metric
    {
      this.metric, this.dim, this.M, this.efConstruction := metric, dim, M, efConstruction;
      nodes, idMap, deleted, entryPoint, maxLayer, nextId := map[], map[], {}, None, 0, 0;
    }

    predicate IsEligible(i: nat, filter: Option<Filter>)
      requires i in nodes
      reads this
    {
      i !in deleted && (filter.None? || filter.value(MetaOrEmpty(nodes[i].meta)))
    }

    /** The walk a search makes of one layer is over the objects' own data. */
    lemma WalkReads(filter: Option<Filter>, q: Vec, l: nat)
      ensures var w := Walk(filter, q, l);
              && w.adj.Keys == w.d.Keys == nodes.Keys
              && forall i :: i in nodes ==>
                   && w.adj[i] == nodes[i].Nbrs(l) && w.d[i] == metric(q, nodes[i].vec)
                   && (i in w.ok <==> IsEligible(i, filter))
    {
    }

    ghost function Walk(filter: Option<Filter>, q: Vec, l: nat): Walk
      reads this, nodes.Values
    {
      LayerWalk(metric, Graph(), deleted, filter, q, l)
    }

    /** The loop body for one neighbour that has not been visited before. */
    static method Admit(nb: nat, nbDist: real, eligible: bool, ef: int, candidates: seq<Heap.Entry>, found: seq<Heap.Entry>,
                        ghost w: Walk, ghost ep: nat, ghost m: Moment)
        returns (candidates': seq<Heap.Entry>, found': seq<Heap.Entry>, ghost m': Moment)
      requires w.Valid() && ep in w.adj && nb in m.pending && nb !in m.seen && nb in w.d
      requires nbDist == w.d[nb] && eligible == (nb in w.ok) && Walking(w, ep, ef, candidates, found, m)
      ensures Walking(w, ep, ef, candidates', found', m')
      ensures m'.seen == m.seen + {nb} && m'.pending == m.pending - {nb} && m'.done == m.done
    {
      WalkingHeaps(w, ep, ef, candidates, found, m);
      NewNeighbour(w, ep, ef, candidates, found, m, nb);
      hide Walking, Heap.PushedTo, Heap.PoppedFrom, Heap.IsHeap;
      candidates', found' := candidates, found;
      var fDist := -found[0].0;
      if nbDist < fDist || |found| < ef {
        candidates' := Heap.Push(candidates, (nbDist, nb));
        if eligible {
          found' := Heap.Push(found, (-nbDist, nb));
          if |found'| > ef {
            var full := found';
            var worst;
            worst, found' := Heap.Pop(full);
            m' := After(m, nb, m.cand + {nb}, m.found + {nb} - {full[0].1});
            Evicted(w, ep, ef, candidates, found, m, nb, candidates', full, found');
          } else {
            m' := After(m, nb, m.cand + {nb}, m.found + {nb});
            Taken(w, ep, ef, candidates, found, m, nb, candidates', found');
          }
        } else {
          m' := After(m, nb, m.cand + {nb}, m.found);
          Queued(w, ep, ef, candidates, found, m, nb, candidates');
        }
      } else {
        m' := After(m, nb, m.cand, m.found);
        Refused(w, ep, ef, candidates, found, m, nb);
      }
    }

    /** The inner loop: every neighbour of the expanded node, in any order, each time by the next step of the machine. */
    method Expand(query: Vec, c: nat, ef: int, filter: Option<Filter>, layer: nat,
                  candidates: seq<Heap.Entry>, found: seq<Heap.Entry>, visited: set<nat>, ghost w: Walk, ghost ep: nat, ghost m: Moment)
        returns (candidates': seq<Heap.Entry>, found': seq<Heap.Entry>, visited': set<nat>, ghost m': Moment)
      requires w.Valid() && w == Walk(filter, query, layer) && ep in w.adj && c in w.adj
      requires Walking(w, ep, ef, candidates, found, m) && visited == m.seen && m.pending == w.adj[c]
      ensures Walking(w, ep, ef, candidates', found', m') && visited' == m'.seen
      ensures m'.pending == {} && m'.done == m.done && m'.seen == m.seen + w.adj[c]
    {
      hide *;
      candidates', found', visited', m' := candidates, found, visited, m;
      WalkReads(filter, query, layer);
      w.NeighboursWithin(c);
      var neighbours := nodes[c].Nbrs(layer);
      var pending := neighbours;
      while pending != {}
        invariant pending <= neighbours && visited' + pending == visited + neighbours
        invariant visited' == m'.seen && pending == m'.pending && m'.done == m.done
        invariant Walking(w, ep, ef, candidates', found', m')
      {
        var nb :| nb in pending;
        pending := pending - {nb};
        if nb !in visited' {
          candidates', found', m' :=
            Admit(nb, metric(query, nodes[nb].vec), IsEligible(nb, filter), ef, candidates', found', w, ep, m');
          visited' := visited' + {nb};
        } else {
          Skipped(w, ep, ef, candidates', found', m', nb);
          m' := m'.(pending := m'.pending - {nb});
        }
      }
    }

    /** Beam search of one layer. */
    method SearchLayer(query: Vec, entry: nat, ef: int, layer: nat, filter: Option<Filter>) returns (result: seq<(nat, real)>)
      requires Filed() && EdgesOk(Graph()) && entry in nodes
      ensures Reports(DistFrom(metric, Graph(), query), result)
      ensures Walked(metric, Graph(), deleted, filter, query, entry, ef, layer, Ids(result))
    {
      hide *;
      ghost var w := Walk(filter, query, layer);
      WalkValid(filter, query, layer);
      WalkReads(filter, query, layer);
      var epDist := metric(query, nodes[entry].vec);
      var candidates: seq<Heap.Entry> := [(epDist, entry)];
      var found: seq<Heap.Entry> := [(-epDist, entry)];
      var visited := {entry};
      ghost var m := FirstMoment(entry);
      FirstParts(entry);
      Begin(w, entry, ef);
      ghost var ended := false;
      while candidates != []
        invariant !ended && Walking(w, entry, ef, candidates, found, m) && visited == m.seen && m.pending == {}
        decreases w.adj.Keys - Elems(m.done)
      {
        WalkingHeaps(w, entry, ef, candidates, found, m);
        ghost var queue := candidates;
        var c;
        c, candidates := Heap.Pop(candidates);
        var fDist := -found[0].0;
        if c.0 > fDist {
          Ended(w, entry, ef, queue, found, m);
          ended := true;
          break;
        }
        Expanding(w, entry, ef, queue, found, m, candidates);
        ExpandedMore(w, m.done, c.1);
        OpenedParts(w, m, c.1);
        candidates, found, visited, m := Expand(query, c.1, ef, filter, layer, candidates, found, visited, w, entry, Opened(w, m, c.1));
      }
      if !ended {
        Ended(w, entry, ef, candidates, found, m);
      }
      result := seq(|found|, i requires 0 <= i < |found| => (found[i].1, -found[i].0));
      WalkResult(filter, query, layer, entry, ef, found, result);
    }

    lemma WalkValid(filter: Option<Filter>, q: Vec, l: nat)
      requires EdgesOk(Graph())
      ensures Walk(filter, q, l).Valid()
    {
      LayerWalkValid(metric, Graph(), deleted, filter, q, l);
    }

    lemma WalkResult(filter: Option<Filter>, q: Vec, l: nat, entry: nat, ef: int, found: seq<Heap.Entry>, result: seq<(nat, real)>)
      requires EdgesOk(Graph()) && entry in nodes && Walk(filter, q, l).Valid() && entry in Walk(filter, q, l).adj
      requires Outcome(Walk(filter, q, l), entry, ef, Heap.HeapIds(found))
      requires Heap.StandsFor(found, Far(Walk(filter, q, l).d), Heap.HeapIds(found))
      requires |result| == |found| && forall i :: 0 <= i < |found| ==> result[i] == (found[i].1, -found[i].0)
      ensures Reports(DistFrom(metric, Graph(), q), result)
      ensures Walked(metric, Graph(), deleted, filter, q, entry, ef, l, Ids(result))
    {
      hide Outcome, Heap.StandsFor, EdgesOk;
      var d := Walk(filter, q, l).d;
      Heap.ReadOff(found, d, Far(d), Heap.HeapIds(found), result);
    }

    // ---------- choosing neighbours ----------

    /** The nearest entry of a non-empty result. */
    static method Nearest(result: seq<(nat, real)>) returns (ep: nat)
      requires result != []
      ensures exists i :: 0 <= i < |result| && result[i].0 == ep && forall j :: 0 <= j < |result| ==> result[i].1 <= result[j].1
    {
      var best := 0;
      for i := 1 to |result|
        invariant 0 <= best < |result| && forall j :: 0 <= j < i ==> result[best].1 <= result[j].1
      {
        if result[i].1 < result[best].1 {
          best := i;
        }
      }
      ep := result[best].0;
    }

    /** The `m` closest candidates. */
    static method SelectNeighbours(candidates: seq<(nat, real)>, m: nat, ghost d: map<nat, real>) returns (selected: seq<(nat, real)>)
      requires Reports(d, candidates)
      ensures Ids(candidates) <= d.Keys && IsRanking(d, Ids(candidates), m, selected)
    {
      var sorted := SortByDistance(candidates);
      PermutedReports(d, candidates, sorted);
      PrefixIsRanking(d, m, sorted);
      selected := sorted[..Min(m, |sorted|)];
    }

    /** The `m` closest of a node's layer neighbours. */
    method PruneNeighbors(i: nat, layer: nat, m: nat) returns (kept: set<nat>)
      requires i in nodes && nodes[i].Nbrs(layer) <= nodes.Keys
      ensures Closest(DistFrom(metric, Graph(), nodes[i].vec), m, nodes[i].Nbrs(layer), kept)
    {
      hide *;
      ghost var d := DistFrom(metric, Graph(), nodes[i].vec);
      DistReads(nodes[i].vec);
      var neighbours := nodes[i].Nbrs(layer);
      NothingReported(d);
      var pending := neighbours;
      var scored: seq<(nat, real)> := [];
      while pending != {}
        invariant pending <= neighbours && Reports(d, scored) && Ids(scored) == neighbours - pending
      {
        var x :| x in pending;
        pending := pending - {x};
        ReportsOneMore(d, scored, x);
        scored := scored + [(x, metric(nodes[i].vec, nodes[x].vec))];
      }
      var selected := SelectNeighbours(scored, m, d);
      kept := IdSet(selected);
      assert neighbours - pending == neighbours;
      RankingIsClosest(d, neighbours, m, selected);
    }

    lemma DistReads(q: Vec)
      ensures DistFrom(metric, Graph(), q).Keys == nodes.Keys
      ensures forall x :: x in nodes ==> DistFrom(metric, Graph(), q)[x] == metric(q, nodes[x].vec)
    {
    }

    // ---------- wiring ----------

    /** Replace one neighbour set of one node. */
    method SetNeighbours(i: nat, layer: nat, s: set<nat>)
      requires Filed() && i in nodes
      modifies nodes[i]
      ensures Graph() == old(Graph())[i := old(Graph())[i].Put(layer, s)]
    {
      nodes[i].neighbors := nodes[i].neighbors[layer := s];
    }

    /** Edges both ways between the new node and each selected neighbour. */
    method Link(iid: nat, layer: nat, neighbours: seq<(nat, real)>, ghost d: map<nat, real>)
      requires Filed() && iid in nodes && layer in nodes[iid].neighbors
      requires Reports(d, neighbours) && iid !in Ids(neighbours) && Ids(neighbours) <= nodes.Keys
      modifies nodes.Values
      ensures Graph() == Joined(old(Graph()), iid, layer, Ids(neighbours))
    {
      ghost var g := Graph();
      JoinedNothing(g, iid, layer);
      assert Ids(neighbours[..0]) == {};
      hide Joined;
      for j := 0 to |neighbours|
        invariant Filed() && Graph() == Joined(g, iid, layer, Ids(neighbours[..j])) && Graph().Keys == g.Keys
      {
        var nb := neighbours[j].0;
        SetNeighbours(iid, layer, nodes[iid].Nbrs(layer) + {nb});
        SetNeighbours(nb, layer, nodes[nb].Nbrs(layer) + {iid});
        IdsOneMore(d, neighbours, j);
        JoinedOneMore(g, iid, layer, Ids(neighbours[..j]), nb);
      }
      assert neighbours[..|neighbours|] == neighbours;
    }

    /** Trim each selected neighbour that now has too many edges. */
    method Prune(layer: nat, neighbours: seq<(nat, real)>, cap: nat, ghost d: map<nat, real>, ghost g: Nodes)
      requires Filed() && Reports(d, neighbours) && Ids(neighbours) <= nodes.Keys == g.Keys
      requires SameVectors(g, Graph()) && InRange(g, Graph(), layer)
      modifies nodes.Values
      ensures InRange(g, old(Graph()), layer)
      ensures PartlyTrimmed(metric, g, old(Graph()), cap, layer, Ids(neighbours), Graph())
    {
      hide *;
      ghost var mid := Graph();
      NothingReported(d);
      NothingTrimmed(metric, g, mid, cap, layer);
      assert neighbours[..0] == [];
      GraphReads(layer);
      for j := 0 to |neighbours|
        invariant Filed() && PartlyTrimmed(metric, g, mid, cap, layer, Ids(neighbours[..j]), Graph())
      {
        var nb := neighbours[j].0;
        IdsOneMore(d, neighbours, j);
        GraphReads(layer);
        ghost var now := Graph();
        TrimFacts(metric, g, mid, cap, layer, Ids(neighbours[..j]), now, nb);
        if |nodes[nb].Nbrs(layer)| > cap {
          var kept := PruneNeighbors(nb, layer, cap);
          SetNeighbours(nb, layer, kept);
          TrimOne(metric, g, mid, cap, layer, Ids(neighbours[..j]), now, nb, kept);
        }
      }
      assert neighbours[..|neighbours|] == neighbours;
    }

    lemma NodeReads()
      ensures Graph().Keys == nodes.Keys
      ensures forall i :: i in nodes ==> Graph()[i].vid == nodes[i].vid && Graph()[i].vec == nodes[i].vec && Graph()[i].meta == nodes[i].meta
    {
    }

    lemma GraphReads(l: nat)
      ensures Graph().Keys == nodes.Keys
      ensures forall i :: i in nodes ==> Graph()[i].vec == nodes[i].vec && Graph()[i].Nbrs(l) == nodes[i].Nbrs(l)
    {
    }

    // ---------- the two kinds of descent ----------

    /** One coarse step: a width-1 walk of the layer, then its nearest node. */
    method Descend(query: Vec, ep: nat, layer: nat) returns (ep': nat)
      requires Filed() && EdgesOk(Graph()) && ep in nodes
      ensures ep' in nodes && Moved(metric, Graph(), deleted, query, ep, layer, ep')
    {
      hide *;
      var candidates := SearchLayer(query, ep, 1, layer, None);
      GraphReads(layer);
      WalkFinds(metric, Graph(), deleted, None, query, ep, 1, layer, candidates);
      ep' := Nearest(candidates);
      NearestReported(metric, Graph(), query, candidates, ep');
      MovedStep(metric, Graph(), deleted, query, ep, layer, ep', Ids(candidates));
    }

    /** One layer of the fine insert. */
    method ConnectLayer(iid: nat, ep: nat, layer: nat) returns (ep': nat)
      requires Filed() && EdgesOk(Graph()) && iid in nodes && ep in nodes
      requires MidInsert(Graph(), M, iid, layer + 1) && Standing(Graph(), iid, ep, layer) && layer <= nodes[iid].level
      modifies nodes.Values
      ensures Inserted(metric, M, efConstruction, deleted, iid, layer, old(Graph()), ep, Graph(), ep')
    {
      hide *;
      ghost var g := Graph();
      GraphReads(layer);
      ghost var d := DistFrom(metric, g, nodes[iid].vec);
      DistReads(nodes[iid].vec);
      var mCap := Cap(M, layer);
      var candidates := SearchLayer(nodes[iid].vec, ep, efConstruction, layer, None);
      var neighbours := SelectNeighbours(candidates, mCap, d);
      RankingIsClosest(d, Ids(candidates), mCap, neighbours);
      Selection(iid, ep, layer, candidates, neighbours, mCap);
      Link(iid, layer, neighbours, d);
      JoinedInRange(g, iid, layer, Ids(neighbours));
      GraphReads(layer);
      Prune(layer, neighbours, mCap, d, g);
      WiredWhenTrimmed(metric, M, g, iid, layer, Ids(neighbours), Graph());
      ep' := Nearest(candidates);
      NearestReported(metric, g, nodes[iid].vec, candidates, ep');
      InsertedStep(metric, M, efConstruction, deleted, iid, layer, g, ep, Graph(), ep', Ids(candidates), Ids(neighbours));
    }

    /** The selected neighbours are other nodes of the layer. */
    lemma Selection(iid: nat, ep: nat, layer: nat, candidates: seq<(nat, real)>, neighbours: seq<(nat, real)>, mCap: nat)
      requires EdgesOk(Graph()) && iid in nodes && ep in nodes && layer <= nodes[iid].level
      requires MidInsert(Graph(), M, iid, layer + 1) && Standing(Graph(), iid, ep, layer)
      requires Walked(metric, Graph(), deleted, None, nodes[iid].vec, ep, efConstruction, layer, Ids(candidates))
      requires Ids(candidates) <= nodes.Keys && Closest(DistFrom(metric, Graph(), nodes[iid].vec), mCap, Ids(candidates), Ids(neighbours))
      ensures candidates != [] && iid !in Ids(neighbours) && Ids(neighbours) <= nodes.Keys && layer in nodes[iid].neighbors
    {
      hide Walked;
      WalkStays(metric, Graph(), deleted, None, nodes[iid].vec, ep, efConstruction, layer, Ids(candidates), iid);
      assert Graph()[iid].Shaped();
    }

    /** Coarse descent through layers `top` down to `stop`+1. */
    method CoarseDescent(query: Vec, ep0: nat, top: nat, stop: nat) returns (ep: nat)
      requires Filed() && EdgesOk(Graph()) && ep0 in nodes
      ensures ep in nodes && Descended(metric, Graph(), deleted, query, ep0, top, stop, ep)
    {
      hide *;
      GraphReads(0);
      ep := ep0;
      var layer := top;
      DescendedStart(metric, Graph(), deleted, query, ep0, top, top);
      if top <= stop {
        DescendedStart(metric, Graph(), deleted, query, ep0, top, stop);
        return;
      }
      while layer > stop
        invariant stop <= layer <= top
        invariant ep in nodes && Descended(metric, Graph(), deleted, query, ep0, top, layer, ep)
      {
        var p := ep;
        ep := Descend(query, p, layer);
        DescendedStep(metric, Graph(), deleted, query, ep0, top, layer - 1, p, ep);
        layer := layer - 1;
      }
    }

    /** Fine insert through layers `from` down to 0. */
    method FineInsert(iid: nat, ep1: nat, from: nat) returns (ep: nat)
      requires Filed() && EdgesOk(Graph()) && iid in nodes && ep1 in nodes && 2 <= M
      requires Progress(Graph(), M, iid, from, from + 1, Graph(), ep1)
      modifies nodes.Values
      ensures InsertedDown(metric, M, efConstruction, deleted, iid, old(Graph()), ep1, from, 0, Graph(), ep)
      ensures Progress(old(Graph()), M, iid, from, 0, Graph(), ep) && unchanged(this) && Filed()
    {
      hide *;
      ghost var g := Graph();
      GraphReads(0);
      ep := ep1;
      FineStart(iid, ep1, from);
      var layer := from + 1;
      while layer > 0
        invariant 0 <= layer <= from + 1 && Filed()
        invariant InsertedDown(metric, M, efConstruction, deleted, iid, g, ep1, from, layer, Graph(), ep)
        invariant Progress(g, M, iid, from, layer, Graph(), ep)
      {
        layer := layer - 1;
        var p := ep;
        ghost var h := Graph();
        GraphReads(0);
        ProgressFacts(g, from, iid, layer, p);
        ep := ConnectLayer(iid, p, layer);
        InsertedDownStep(metric, M, efConstruction, deleted, iid, g, ep1, from, layer, h, p, Graph(), ep);
        StepKeeps(metric, M, efConstruction, deleted, iid, g, from, layer, h, p, Graph(), ep);
      }
    }

    lemma FineStart(iid: nat, ep1: nat, from: nat)
      requires EdgesOk(Graph()) && iid in nodes && ep1 in nodes
      ensures InsertedDown(metric, M, efConstruction, deleted, iid, Graph(), ep1, from, from + 1, Graph(), ep1)
    {
      hide EdgesOk, InsertedDown;
      InsertedDownStart(metric, M, efConstruction, deleted, iid, Graph(), ep1, from, from + 1);
    }

    lemma ProgressFacts(g: Nodes, from: nat, iid: nat, layer: nat, p: nat)
      requires layer <= from && Progress(g, M, iid, from, layer + 1, Graph(), p)
      ensures EdgesOk(Graph()) && iid in nodes && p in nodes && layer <= nodes[iid].level
      ensures MidInsert(Graph(), M, iid, layer + 1) && Standing(Graph(), iid, p, layer)
    {
    }

    /** File a new, unconnected node. */
    method Register(vid: string, vector: Vec, meta: Option<Meta>, level: nat)
      requires Filed() && nextId !in nodes
      modifies this
      ensures Filed() && View() == Registered(old(View()), vid, vector, meta, level)
      ensures nodes.Keys == old(nodes).Keys + {old(nextId)} && fresh(nodes.Values - old(nodes.Values))
    {
      ghost var g := Graph();
      var iid := nextId;
      nextId := nextId + 1;
      var node := new Node(iid, vid, vector, level, meta);
      nodes := nodes[iid := node];
      idMap := idMap[vid := iid];
      assert forall i :: i in old(nodes) ==> nodes[i] == old(nodes)[i] && nodes[i].View() == g[i];
      assert Graph() == g[iid := FreshVertex(vid, vector, meta, level)];
    }

    // ---------- operations ----------

    /** Insert a vector. The level is drawn at random by the program and is arbitrary here. */
    method Add(vid: string, vector: Vec, meta: Option<Meta>, level: nat) returns (r: Result<(), Error>)
      requires Valid()
      modifies this, nodes.Values
      ensures Valid() && fresh(nodes.Values - old(nodes.Values))
      ensures r == if |vector| != dim then Err(BadShape) else if vid in old(idMap) then Err(DuplicateId) else Ok(())
      ensures r.Err? ==> View() == old(View())
      ensures r.Ok? ==> Added(metric, old(View()), vid, vector, meta, level, View())
    {
      if |vector| != dim {
        return Err(BadShape);
      }
      if vid in idMap {
        return Err(DuplicateId);
      }
      ghost var s := View();
      assert nextId !in nodes by { GraphReads(0); }
      hide *;
      AddNew(vid, vector, meta, level);
      AddKeepsInv(metric, s, vid, vector, meta, level, View());
      r := Ok(());
    }

    /** The write section of `Add`, for an id not yet present. */
    method AddNew(vid: string, vector: Vec, meta: Option<Meta>, level: nat)
      requires Filed() && Inv(View()) && nextId !in nodes
      modifies this, nodes.Values
      ensures Filed() && fresh(nodes.Values - old(nodes.Values))
      ensures Added(metric, old(View()), vid, vector, meta, level, View())
    {
      hide Added, Inv, Descended, InsertedDown, EdgesOk;
      ghost var s := View();
      var iid := nextId;
      Register(vid, vector, meta, level);
      if entryPoint.None? {
        Enter(iid, level);
        AddedFirst(metric, s, vid, vector, meta, level, View());
        return;
      }
      var ep1, ep2 := Connect(iid, vector, level, s, vid, meta);
      ghost var nodes' := Graph();
      Promote(iid, level);
      AddedBy(metric, s, vid, vector, meta, level, ep1, nodes', ep2, View());
    }

    /** The first node is the entry point. */
    method Enter(iid: nat, level: nat)
      requires Filed()
      modifies this
      ensures Filed() && nodes == old(nodes)
      ensures View() == old(View()).(entry := Some(iid), maxLayer := level)
    {
      entryPoint, maxLayer := Some(iid), level;
    }

    /** The new node becomes the entry point if it reaches a higher layer. */
    method Promote(iid: nat, level: nat)
      requires Filed()
      modifies this
      ensures Filed() && nodes == old(nodes)
      ensures View() == old(View()).(entry := if level > old(maxLayer) then Some(iid) else old(entryPoint),
                                     maxLayer := Max(level, old(maxLayer)))
    {
      if level > maxLayer {
        entryPoint, maxLayer := Some(iid), level;
      }
    }

    /** Coarse descent, then fine insert, of the freshly registered node. */
    method Connect(iid: nat, vector: Vec, level: nat, ghost s: Index, ghost vid: string, ghost meta: Option<Meta>)
        returns (ep1: nat, ep2: nat)
      requires Filed() && entryPoint.Some? && Inv(s) && iid == s.nextId
      requires View() == Registered(s, vid, vector, meta, level)
      modifies nodes.Values
      ensures unchanged(this) && Filed() && View() == old(View()).(nodes := Graph())
      ensures var b := Registered(s, vid, vector, meta, level).nodes;
              && EdgesOk(b) && s.nextId in b && s.entry.Some? && s.entry.value in b && ep1 in b
              && Descended(metric, b, s.deleted, vector, s.entry.value, s.maxLayer, level, ep1)
              && InsertedDown(metric, s.M, s.efc, s.deleted, s.nextId, b, ep1, Min(level, s.maxLayer), 0, Graph(), ep2)
    {
      hide *;
      ViewReads();
      GraphReads(0);
      RegisteredFields(s, vid, vector, meta, level);
      AtLeastTwo(s);
      ReadyToDescend(s, vid, vector, meta, level);
      ep1 := CoarseDescent(vector, entryPoint.value, maxLayer, level);
      ReadyToInsert(metric, s, vid, vector, meta, level, ep1);
      ep2 := FineInsert(iid, ep1, Min(level, maxLayer));
      ViewReads();
    }

    lemma RegisteredFields(s: Index, vid: string, vec: Vec, meta: Option<Meta>, level: nat)
      ensures var b := Registered(s, vid, vec, meta, level);
              b.dim == s.dim && b.M == s.M && b.efc == s.efc && b.deleted == s.deleted && b.entry == s.entry && b.maxLayer == s.maxLayer
    {
    }

    lemma ViewReads()
      ensures var s := View();
              && s.dim == dim && s.M == M && s.efc == efConstruction && s.nodes == Graph() && s.idMap == idMap
              && s.deleted == deleted && s.entry == entryPoint && s.maxLayer == maxLayer && s.nextId == nextId
    {
    }

    // ---------- search ----------

    /** Sorted candidates that may be returned, in order. */
    method KeepEligible(sorted: seq<(nat, real)>, filter: Option<Filter>, ghost d: map<nat, real>) returns (kept: seq<(nat, real)>)
      requires Reports(d, sorted) && Sorted(sorted) && d.Keys == nodes.Keys
      ensures Reports(d, kept) && Sorted(kept)
      ensures Ids(sorted) <= Graph().Keys && Ids(kept) == EligibleIn(Graph(), deleted, filter, Ids(sorted))
    {
      hide *;
      kept := [];
      NothingReported(d);
      GraphReads(0);
      EligibleReads(filter);
      NothingEligible(Graph(), deleted, filter);
      assert sorted[..0] == [];
      for j := 0 to |sorted|
        invariant Reports(d, kept) && SortedUpTo(kept, sorted, j)
        invariant Ids(sorted[..j]) <= Graph().Keys && Ids(kept) == EligibleIn(Graph(), deleted, filter, Ids(sorted[..j]))
      {
        var x := sorted[j].0;
        IdsOneMore(d, sorted, j);
        EligibleReads(filter);
        GraphReads(0);
        EligibleOneMore(Graph(), deleted, filter, Ids(sorted[..j]), x);
        SortedOneMore(kept, sorted, j);
        if IsEligible(x, filter) {
          ReportsOneMore(d, kept, x);
          kept := kept + [sorted[j]];
        }
      }
      assert sorted[..|sorted|] == sorted;
      SortedAtEnd(kept, sorted, |sorted|);
    }

    lemma EligibleReads(filter: Option<Filter>)
      ensures forall x :: x in nodes ==> Eligible(Graph(), deleted, filter, x) == IsEligible(x, filter)
    {
    }

    /** Caller-supplied ids in place of internal ones. */
    method Name(xs: seq<(nat, real)>) returns (res: seq<(string, real)>)
      requires forall i :: 0 <= i < |xs| ==> xs[i].0 in nodes
      ensures Named(Graph(), xs, res)
    {
      res := [];
      for j := 0 to |xs|
        invariant |res| == j && forall i :: 0 <= i < j ==> res[i] == (nodes[xs[i].0].vid, xs[i].1)
      {
        res := res + [(nodes[xs[j].0].vid, xs[j].1)];
      }
    }

    /** Sort, drop what may not be returned, then truncate. */
    method TopEligible(candidates: seq<(nat, real)>, k: nat, filter: Option<Filter>, ghost query: Vec) returns (top: seq<(nat, real)>)
      requires Reports(DistFrom(metric, Graph(), query), candidates)
      ensures Ids(candidates) <= Graph().Keys && forall i :: 0 <= i < |top| ==> top[i].0 in nodes
      ensures EligibleIn(Graph(), deleted, filter, Ids(candidates)) <= DistFrom(metric, Graph(), query).Keys
      ensures IsRanking(DistFrom(metric, Graph(), query), EligibleIn(Graph(), deleted, filter, Ids(candidates)), k, top)
    {
      hide *;
      ghost var d := DistFrom(metric, Graph(), query);
      DistReads(query);
      var sorted := SortByDistance(candidates);
      PermutedReports(d, candidates, sorted);
      var eligible := KeepEligible(sorted, filter, d);
      top := eligible[..Min(k, |eligible|)];
      PrefixIsRanking(d, k, eligible);
      RankingWithin(d, Ids(eligible), k, top);
    }

    /** The read section of `Search`, on a non-empty index. */
    method SearchFrom(entry: nat, query: Vec, k: nat, ef: Option<int>, filter: Option<Filter>) returns (res: seq<(string, real)>)
      requires Filed() && Inv(View()) && EdgesOk(Graph()) && entry in nodes && entryPoint == Some(entry)
      ensures Searched(metric, View(), query, k, ef, filter, res)
    {
      hide *;
      ghost var s := View();
      ViewReads();
      GraphReads(0);
      var ep := CoarseDescent(query, entry, maxLayer, 0);
      var candidates := SearchLayer(query, ep, EffectiveEf(k, efConstruction, ef), 0, filter);
      var top := TopEligible(candidates, k, filter, query);
      res := Name(top);
      SearchedBy(metric, s, query, k, ef, filter, ep, Ids(candidates), top, res);
    }

    /** The `k` nearest neighbours the walk finds, nearest first. */
    method Search(query: Vec, k: int, ef: Option<int>, filter: Option<Filter>) returns (r: Result<seq<(string, real)>, Error>)
      requires Valid()
      ensures k < 1 ==> r == Err(BadK)
      ensures k >= 1 && |query| != dim ==> r == Err(BadShape)
      ensures k >= 1 && |query| == dim ==> r.Ok? && Searched(metric, View(), query, k, ef, filter, r.value)
    {
      hide *;
      ViewReads();
      ValidParts();
      if k < 1 {
        return Err(BadK);
      }
      if |query| != dim {
        return Err(BadShape);
      }
      if entryPoint.None? {
        SearchedNothing(metric, View(), query, k, ef, filter);
        return Ok([]);
      }
      var res := SearchFrom(entryPoint.value, query, k, ef, filter);
      r := Ok(res);
    }

    lemma ValidParts()
      requires Valid()
      ensures Filed() && Inv(View()) && EdgesOk(Graph()) && (entryPoint.Some? ==> entryPoint.value in nodes)
    {
    }

    // ---------- the rest of the interface ----------

    /** Tombstone an id; the node stays in the graph. */
    method Delete(vid: string) returns (found: bool)
      requires Valid()
      modifies this
      ensures Valid() && nodes == old(nodes) && found == (vid in old(idMap)) && View() == Deleted(old(View()), vid)
    {
      if vid !in idMap {
        return false;
      }
      ghost var s := View();
      deleted := deleted + {idMap[vid]};
      assert Graph() == s.nodes;
      DeleteKeepsInv(s, vid);
      found := true;
    }

    method GetMetadata(vid: string) returns (r: Result<Option<Meta>, Error>)
      requires Valid()
      ensures r == if vid in idMap then Ok(View().nodes[idMap[vid]].meta) else Err(UnknownId)
    {
      if vid !in idMap {
        return Err(UnknownId);
      }
      r := Ok(nodes[idMap[vid]].meta);
    }

    /** Ids and vectors of everything not tombstoned, in any order. */
    method LiveItems() returns (items: seq<(string, Vec)>)
      requires Valid()
      ensures ListsLive(View(), items)
    {
      hide *;
      ghost var s := View();
      ValidParts();
      ViewReads();
      NodeReads();
      var pending := nodes.Keys;
      items := [];
      NothingListed(s);
      ghost var listed: seq<nat> := [];
      while pending != {}
        invariant pending <= nodes.Keys
        invariant Listing(s, pending, listed, items)
      {
        var i :| i in pending;
        if i !in deleted {
          ListedOne(s, pending, listed, items, i);
          items := items + [(nodes[i].vid, nodes[i].vec)];
          listed := listed + [i];
        } else {
          SkippedOne(s, pending, listed, items, i);
        }
        pending := pending - {i};
      }
      ListedLive(s, items, listed);
    }

    /** `len(index)` counts what `LiveItems` lists. */
    function Len(): (n: int)
      requires Valid()
      reads this, nodes.Values
      ensures n == |Live(View())| && forall items :: ListsLive(View(), items) ==> |items| == n
    {
      LenCounts();
      |nodes| - |deleted|
    }

    lemma LenCounts()
      requires Valid()
      ensures |nodes| - |deleted| == |Live(View())|
    {
      hide *;
      ValidParts();
      ViewReads();
      NodeReads();
      LiveCount(View());
    }
  }
}
