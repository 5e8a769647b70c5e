/** `save` and `load` over a byte sequence: the loops that write an index object out and build one back. */
module Persistence {
  import opened Types
  import opened Ranking
  import opened Graph
  import opened Bytes
  import opened Format
  import opened Saved
  import opened Reload
  import opened Hnsw

  datatype SaveError = FieldTooWide

  /** A set's elements in some order. */
  method ListOf(S: set<nat>) returns (xs: seq<nat>)
    ensures Enumeration(xs, S)
  {
    xs := [];
    var pending := S;
    while pending != {}
      invariant pending <= S && Enumeration(xs, S - pending)
    {
      var x :| x in pending;
      pending := pending - {x};
      xs := xs + [x];
    }
  }

  /** `struct.pack` of one unsigned field. */
  method Pack(n: nat, w: nat) returns (r: Result<seq<Byte>, SaveError>)
    ensures r == if Fits(n, w) then Ok(Le(n, w)) else Err(FieldTooWide)
  {
    if n < Pow256(w) {
      r := Ok(Le(n, w));
    } else {
      r := Err(FieldTooWide);
    }
  }

  /** `np.array(ids, dtype="<u8").tobytes()`: refuses an id that is too wide. */
  method PackIds(ids: seq<nat>) returns (r: Result<seq<Byte>, SaveError>)
    ensures r == if AllFit(ids, 8) then Ok(LeAll(ids, 8)) else Err(FieldTooWide)
  {
    hide Pow256, Le;
    var bs := [];
    for i := 0 to |ids|
      invariant AllFit(ids[..i], 8) && bs == LeAll(ids[..i], 8)
    {
      if !Fits(ids[i], 8) {
        return Err(FieldTooWide);
      }
      assert ids[..i + 1][..i] == ids[..i];
      bs := bs + Le(ids[i], 8);
    }
    assert ids[..|ids|] == ids;
    return Ok(bs);
  }

  /** What one layer of a node needs in order to be written. */
  ghost predicate LayerFits(v: Vertex, l: nat) {
    Fits(|v.Nbrs(l)|, 4) && forall x :: x in v.Nbrs(l) ==> Fits(x, 8)
  }

  ghost predicate LayersFit(v: Vertex, n: nat) { forall l: nat :: l < n ==> LayerFits(v, l) }

  ghost predicate ShowsLayers(v: Vertex, layers: seq<seq<nat>>) {
    forall l :: 0 <= l < |layers| ==> Enumeration(layers[l], v.Nbrs(l))
  }

  method SaveLayer(node: Node, layer: nat) returns (r: Result<seq<Byte>, SaveError>, ghost ids: seq<nat>)
    ensures Enumeration(ids, node.View().Nbrs(layer))
    ensures r == if LayerFits(node.View(), layer) then Ok(PrintLayer(ids)) else Err(FieldTooWide)
  {
    var list := ListOf(node.Nbrs(layer));
    ids := list;
    EnumerationSize(ids, node.View().Nbrs(layer));
    FitsListed(ids, node.View().Nbrs(layer));
    hide Le, LeAll, Fits, Enumeration;
    var count := Pack(|list|, 4);
    if count.Err? {
      return Err(FieldTooWide), ids;
    }
    var body := PackIds(list);
    if body.Err? {
      return Err(FieldTooWide), ids;
    }
    r := Ok(count.value + body.value);
  }

  lemma FitsListed(ids: seq<nat>, S: set<nat>)
    requires Enumeration(ids, S)
    ensures AllFit(ids, 8) <==> forall x :: x in S ==> Fits(x, 8)
  {
    hide Fits;
    if AllFit(ids, 8) {
      forall x | x in S ensures Fits(x, 8) {
        var i :| 0 <= i < |ids| && ids[i] == x;
      }
    }
  }

  lemma {:induction false} PrintLayersSnoc(layers: seq<seq<nat>>, ids: seq<nat>)
    ensures PrintLayers(layers + [ids]) == PrintLayers(layers) + PrintLayer(ids)
  {
    hide PrintLayer;
    if layers == [] {
      assert PrintLayers([ids]) == PrintLayer(ids) + PrintLayers([]);
    } else {
      assert (layers + [ids])[1..] == layers[1..] + [ids];
      PrintLayersSnoc(layers[1..], ids);
    }
  }

  method SaveLayers(node: Node) returns (r: Result<seq<Byte>, SaveError>, ghost layers: seq<seq<nat>>)
    ensures r.Ok? <==> LayersFit(node.View(), node.level + 1)
    ensures r.Ok? ==> r.value == PrintLayers(layers) && |layers| == node.level + 1 && ShowsLayers(node.View(), layers)
  {
    hide LayerFits, Enumeration, PrintLayer;
    var fh := [];
    layers := [];
    for layer := 0 to node.level + 1
      invariant LayersFit(node.View(), layer) && fh == PrintLayers(layers)
      invariant |layers| == layer && ShowsLayers(node.View(), layers)
    {
      var bs, ids := SaveLayer(node, layer);
      if bs.Err? {
        return Err(FieldTooWide), [];
      }
      PrintLayersSnoc(layers, ids);
      fh, layers := fh + bs.value, layers + [ids];
    }
    r := Ok(fh);
  }

  /** Empty metadata is falsy, like absent metadata. */
  method SaveMeta(node: Node, c: Codec) returns (r: Result<seq<Byte>, SaveError>)
    ensures var bs := MetaBytes(c, node.meta); r == if Fits(|bs|, 4) then Ok(PrintMeta(CURRENT, bs)) else Err(FieldTooWide)
  {
    var metaBytes := if node.meta.Some? && node.meta.value != map[] then c.encodeMeta(node.meta.value) else [];
    var size := Pack(|metaBytes|, 4);
    if size.Err? {
      return Err(FieldTooWide);
    }
    r := Ok(size.value + metaBytes);
  }

  ghost predicate NodeFits(c: Codec, i: nat, v: Vertex) {
    FitsNode(c, i, v) && LayersFit(v, v.level + 1)
  }

  method SaveFields(node: Node, c: Codec) returns (r: Result<seq<Byte>, SaveError>)
    ensures var id := c.encodeId(node.vid);
            r == if Fits(node.iid, 8) && Fits(node.level, 4) && Fits(|id|, 2)
                 then Ok(PrintFields(node.iid, node.level, id, node.vec)) else Err(FieldTooWide)
  {
    hide Le, LeAll, Fits;
    var vidBytes := c.encodeId(node.vid);
    var iid := Pack(node.iid, 8);
    var level := Pack(node.level, 4);
    var size := Pack(|vidBytes|, 2);
    if iid.Err? || level.Err? || size.Err? {
      return Err(FieldTooWide);
    }
    r := Ok(iid.value + (level.value + (size.value + (vidBytes + LeAll(node.vec, 4)))));
  }

  method SaveNode(node: Node, c: Codec) returns (r: Result<seq<Byte>, SaveError>, ghost rec: Rec)
    ensures r.Ok? <==> NodeFits(c, node.iid, node.View())
    ensures r.Ok? ==> DepictsNode(c, node.iid, node.View(), rec) && r.value == PrintRec(CURRENT, rec)
  {
    hide Fits, PrintFields, PrintMeta, PrintLayers, Enumeration, LayerFits, MetaBytes;
    ghost var v := node.View();
    rec := Rec(node.iid, node.level, c.encodeId(node.vid), node.vec, MetaBytes(c, node.meta), []);
    FitsParts(c, node.iid, v);
    var fields := SaveFields(node, c);
    if fields.Err? {
      return Err(FieldTooWide), rec;
    }
    var meta := SaveMeta(node, c);
    if meta.Err? {
      return Err(FieldTooWide), rec;
    }
    var body, layers := SaveLayers(node);
    if body.Err? {
      return Err(FieldTooWide), rec;
    }
    rec := rec.(layers := layers);
    r := Ok(fields.value + (meta.value + body.value));
  }

  lemma FitsParts(c: Codec, i: nat, v: Vertex)
    ensures NodeFits(c, i, v) <==>
      Fits(i, 8) && Fits(v.level, 4) && Fits(|c.encodeId(v.vid)|, 2) && Fits(|MetaBytes(c, v.meta)|, 4) && LayersFit(v, v.level + 1)
  {
    hide Fits, MetaBytes;
    if LayersFit(v, v.level + 1) {
      forall l: nat | l <= v.level ensures Fits(|v.Nbrs(l)|, 4) { assert LayerFits(v, l); }
    }
  }

  // ---------- save ----------

  /** The records written so far show the nodes `done` of `g`. */
  ghost predicate Written(c: Codec, g: Nodes, done: set<nat>, recs: seq<Rec>, fh: seq<Byte>) {
    && done <= g.Keys && DepictsNodes(c, g, recs) && Enumeration(Iids(recs), done) && fh == PrintRecs(CURRENT, recs)
    && forall i :: i in done ==> NodeFits(c, i, g[i])
  }

  lemma {:induction false} PrintRecsSnoc(version: nat, recs: seq<Rec>, r: Rec)
    ensures PrintRecs(version, recs + [r]) == PrintRecs(version, recs) + PrintRec(version, r)
  {
    hide PrintRec;
    if recs == [] {
      assert PrintRecs(version, [r]) == PrintRec(version, r) + PrintRecs(version, []);
    } else {
      assert (recs + [r])[1..] == recs[1..] + [r];
      PrintRecsSnoc(version, recs[1..], r);
    }
  }

  lemma WrittenOne(c: Codec, g: Nodes, done: set<nat>, recs: seq<Rec>, fh: seq<Byte>, i: nat, rec: Rec)
    requires Written(c, g, done, recs, fh) && i in g && i !in done && NodeFits(c, i, g[i]) && DepictsNode(c, i, g[i], rec)
    ensures Written(c, g, done + {i}, recs + [rec], fh + PrintRec(CURRENT, rec))
  {
    hide PrintRec, NodeFits, PrintRecs, CURRENT;
    assert rec.iid == i;
    hide DepictsNode;
    PrintRecsSnoc(CURRENT, recs, rec);
    var ids, ids' := Iids(recs), Iids(recs + [rec]);
    assert ids' == ids + [i];
  }

  ghost predicate NodesFit(c: Codec, g: Nodes) { forall i :: i in g ==> NodeFits(c, i, g[i]) }

  method SaveNodes(index: HNSWIndex, c: Codec) returns (r: Result<seq<Byte>, SaveError>, ghost recs: seq<Rec>)
    requires index.Filed()
    ensures r.Ok? <==> NodesFit(c, index.Graph())
    ensures r.Ok? ==> Written(c, index.Graph(), index.nodes.Keys, recs, r.value)
  {
    hide NodeFits, DepictsNode, Written;
    ghost var g := index.Graph();
    var fh := [];
    recs := [];
    WrittenNone(c, g);
    var pending := index.nodes.Keys;
    assert index.nodes.Keys - pending == {};
    while pending != {}
      invariant pending <= index.nodes.Keys && Written(c, g, index.nodes.Keys - pending, recs, fh)
      invariant forall i :: i in index.nodes.Keys - pending ==> NodeFits(c, i, g[i])
    {
      var i :| i in pending;
      ghost var done := index.nodes.Keys - pending;
      var bs, rec := SaveNode(index.nodes[i], c);
      assert index.nodes[i].View() == g[i];
      if bs.Err? {
        return Err(FieldTooWide), [];
      }
      WrittenOne(c, g, done, recs, fh, i, rec);
      fh, recs, pending := fh + bs.value, recs + [rec], pending - {i};
      assert done + {i} == index.nodes.Keys - pending;
    }
    assert index.nodes.Keys - pending == index.nodes.Keys;
    r := Ok(fh);
  }

  lemma WrittenNone(c: Codec, g: Nodes)
    ensures Written(c, g, {}, [], [])
  {
  }

  function HeaderBytes(s: Index, numNodes: nat, numDeleted: nat): seq<Byte> {
    MAGIC + (Le(CURRENT, 2) + (Le(s.dim, 4) + (Le(s.M, 4) + (Le(s.efc, 4) + (Le(s.maxLayer, 4) + (Le(numNodes, 8) + Le(numDeleted, 8)))))))
      + Le(EntryField(s.entry), 8)
  }

  ghost predicate FitsHeader(s: Index, numNodes: nat, numDeleted: nat) {
    && Fits(s.dim, 4) && Fits(s.M, 4) && Fits(s.efc, 4) && Fits(s.maxLayer, 4) && Fits(numNodes, 8) && Fits(numDeleted, 8)
    && (s.entry.Some? ==> 2 * s.entry.value < Pow256(8))
  }

  method SaveHeader(index: HNSWIndex) returns (r: Result<seq<Byte>, SaveError>)
    ensures var s, n, m := index.View(), |index.nodes|, |index.deleted|;
            r == if FitsHeader(s, n, m) then Ok(HeaderBytes(s, n, m)) else Err(FieldTooWide)
  {
    hide Le, Fits, EntryField;
    var dim := Pack(index.dim, 4);
    var m := Pack(index.M, 4);
    var efc := Pack(index.efConstruction, 4);
    var maxLayer := Pack(index.maxLayer, 4);
    var numNodes := Pack(|index.nodes|, 8);
    var numDeleted := Pack(|index.deleted|, 8);
    if dim.Err? || m.Err? || efc.Err? || maxLayer.Err? || numNodes.Err? || numDeleted.Err? {
      return Err(FieldTooWide);
    }
    if index.entryPoint.Some? && 2 * index.entryPoint.value >= Pow256(8) {
      return Err(FieldTooWide);
    }
    r := Ok(MAGIC + (Le(CURRENT, 2) + (dim.value + (m.value + (efc.value + (maxLayer.value + (numNodes.value + numDeleted.value))))))
      + Le(EntryField(index.entryPoint), 8));
  }

  /** The checks `Save` makes are together those of `FitsFile`: under the graph invariant every id written as a
      neighbour or a tombstone is some node's own id. */
  lemma ChecksSuffice(c: Codec, s: Index)
    requires Inv(s)
    ensures FitsFile(c, s) <==> FitsHeader(s, |s.nodes|, |s.deleted|) && NodesFit(c, s.nodes)
  {
    if FitsFile(c, s) {
      forall i | i in s.nodes ensures NodeFits(c, i, s.nodes[i]) {
        NodeSuffices(c, s, i);
      }
    }
    hide Fits, FitsNode, LayersFit, Inv;
    if FitsHeader(s, |s.nodes|, |s.deleted|) && NodesFit(c, s.nodes) {
      forall i | i in s.nodes ensures FitsNode(c, i, s.nodes[i]) {
        assert NodeFits(c, i, s.nodes[i]);
      }
    }
  }

  lemma NodeSuffices(c: Codec, s: Index, i: nat)
    requires Inv(s) && FitsFile(c, s) && i in s.nodes
    ensures NodeFits(c, i, s.nodes[i])
  {
    hide Fits, NoDeadEnds, DegreesOk, MetaBytes, IdsOk, EntryOk, ShapeOk;
    var v := s.nodes[i];
    assert FitsNode(c, i, v);
    forall l: nat, x | l <= v.level && x in v.Nbrs(l) ensures Fits(x, 8) {
      assert Edge(s.nodes, i, l, x);
      assert OnLayer(s.nodes, x, l);
      IdFits(c, s, x);
    }
  }

  lemma TombstonesFit(c: Codec, s: Index, ids: seq<nat>)
    requires Inv(s) && FitsFile(c, s) && Enumeration(ids, s.deleted)
    ensures AllFit(ids, 8)
  {
    hide Fits, FitsFile, EdgesOk, NoDeadEnds, DegreesOk, EntryOk, ShapeOk;
    forall i | 0 <= i < |ids| ensures Fits(ids[i], 8) {
      assert ids[i] in s.deleted;
      IdFits(c, s, ids[i]);
    }
  }

  /** What `Save` has written shows the index. */
  lemma Shown(c: Codec, s: Index, recs: seq<Rec>, bs: seq<Byte>, ids: seq<nat>)
    requires Written(c, s.nodes, s.nodes.Keys, recs, bs) && Enumeration(ids, s.deleted)
    ensures var img := Image(s.dim, s.M, s.efc, s.maxLayer, s.entry, recs, ids);
            && Depicts(c, s, img)
            && Print(CURRENT, img) == HeaderBytes(s, |s.nodes|, |s.deleted|) + (bs + (Le(|s.deleted|, 8) + LeAll(ids, 8)))
  {
    var img := Image(s.dim, s.M, s.efc, s.maxLayer, s.entry, recs, ids);
    assert Depicts(c, s, img);
    DepictedRecs(c, s, img);
    assert bs == PrintRecs(CURRENT, recs);
    hide Depicts, Written, Enumeration, Le, LeAll, PrintRecs, EntryField;
    Regroup(PrintHeader(CURRENT, img, |ids|), Le(EntryField(s.entry), 8), bs, Le(|ids|, 8), LeAll(ids, 8));
  }

  lemma Regroup<T>(h: seq<T>, e: seq<T>, b: seq<T>, f: seq<T>, t: seq<T>)
    ensures (h + (e + (b + f))) + t == (h + e) + (b + (f + t))
  {
    Assoc(b, f, t);
    Assoc(e, b + f, t);
    Assoc(h, e + (b + f), t);
    Assoc(h, e, b + (f + t));
  }

  /** Write the index out. It fails exactly when some field is too wide for the format, and otherwise the file shows
      the index, whatever order its dictionary and sets are enumerated in. */
  method Save(index: HNSWIndex, c: Codec) returns (r: Result<seq<Byte>, SaveError>)
    requires index.Valid()
    ensures r.Ok? <==> FitsFile(c, index.View())
    ensures r.Ok? ==> exists img :: Depicts(c, index.View(), img) && r.value == Print(CURRENT, img)
  {
    hide *;
    ghost var s := index.View();
    IndexReads(index);
    ChecksSuffice(c, s);
    var header := SaveHeader(index);
    if header.Err? {
      return Err(FieldTooWide);
    }
    var recs, shown := SaveNodes(index, c);
    if recs.Err? {
      return Err(FieldTooWide);
    }
    var ids := ListOf(index.deleted);
    var footer := Pack(|index.deleted|, 8);
    var body := PackIds(ids);
    TombstonesFit(c, s, ids);
    HeaderParts(s, |s.nodes|, |s.deleted|);
    Shown(c, s, shown, recs.value, ids);
    r := Ok(header.value + (recs.value + (footer.value + body.value)));
  }

  lemma IndexReads(index: HNSWIndex)
    requires index.Valid()
    ensures index.Filed() && Inv(index.View()) && index.View().nodes == index.Graph() && index.View().deleted == index.deleted
    ensures |index.nodes| == |index.View().nodes| && index.nodes.Keys == index.View().nodes.Keys
  {
    hide Inv;
    assert index.Graph().Keys == index.nodes.Keys;
  }

  lemma HeaderParts(s: Index, n: nat, m: nat)
    requires FitsHeader(s, n, m)
    ensures Fits(m, 8)
  {
  }

  // ---------- load ----------

  /** The neighbour lists of one node; an empty list leaves the set the node was created with. */
  method LoadEdges(node: Node, rest: seq<Byte>) returns (r: Result<seq<Byte>, LoadError>)
    modifies node
    ensures var e := LoadLayers(node.level + 1, 0, rest, old(node.neighbors));
            if r.Ok? then e == Ok((node.neighbors, r.value)) else e == Err(r.error)
  {
    hide Fixed, Take, Items;
    var fh := rest;
    for layer := 0 to node.level + 1
      invariant LoadLayers(node.level + 1, layer, fh, node.neighbors) == LoadLayers(node.level + 1, 0, rest, old(node.neighbors))
    {
      var numNb :- Fixed(fh, 4);
      fh := numNb.1;
      var block := Take(fh, numNb.0 * 8);
      EightIsItem();
      var ids :- Items(block.0, 8);
      if numNb.0 != 0 {
        node.neighbors := node.neighbors[layer := Members(ids)];
      }
      fh := block.1;
    }
    r := Ok(fh);
  }

  method LoadNode(c: Codec, version: nat, dim: nat, rest: seq<Byte>) returns (r: Result<(Node, seq<Byte>), LoadError>)
    ensures r.Err? ==> LoadRec(c, version, dim, rest) == Err(r.error)
    ensures r.Ok? ==> fresh(r.value.0) && LoadRec(c, version, dim, rest) == Ok((r.value.0.iid, r.value.0.View(), r.value.1))
  {
    hide LoadFields, LoadMeta, LoadLayers;
    var fields :- LoadFields(c, dim, rest);
    var f := fields.0;
    var meta :- LoadMeta(c, version, fields.1);
    var node := new Node(f.iid, f.vid, f.vec, f.level, meta.0);

    var tail :- LoadEdges(node, meta.1);
    r := Ok((node, tail));
  }

  /** File a loaded node, as `load` does: under its own id, its name, and past the id counter. */
  method FileNode(index: HNSWIndex, node: Node)
    requires index.Filed()
    modifies index
    ensures index.Filed() && index.nodes == old(index.nodes)[node.iid := node]
    ensures index.View() == File(old(index.View()), node.iid, node.View())
  {
    index.nodes := index.nodes[node.iid := node];
    index.idMap := index.idMap[node.vid := node.iid];
    index.nextId := Max(index.nextId, node.iid + 1);
    assert index.Graph() == old(index.Graph())[node.iid := node.View()];
  }

  method LoadNodes(c: Codec, version: nat, numNodes: nat, rest: seq<Byte>, index: HNSWIndex) returns (r: Result<seq<Byte>, LoadError>)
    requires index.Filed() && index.nodes == map[]
    modifies index
    ensures index.Filed() && fresh(index.nodes.Values)
    ensures var e := LoadRecs(c, version, numNodes, rest, old(index.View()));
            if r.Ok? then e == Ok((index.View(), r.value)) else e == Err(r.error)
  {
    hide LoadRec, File;
    var fh := rest;
    for k := 0 to numNodes
      invariant index.Filed() && fresh(index.nodes.Values)
      invariant LoadRecs(c, version, numNodes - k, fh, index.View()) == LoadRecs(c, version, numNodes, rest, old(index.View()))
    {
      ghost var s := index.View();
      var next := LoadNode(c, version, index.dim, fh);
      if next.Err? {
        return Err(next.error);
      }
      assert index.View() == s;
      var node := next.value.0;
      ghost var filed := index.nodes.Values;
      FileNode(index, node);
      assert index.nodes.Values <= filed + {node};
      fh := next.value.1;
    }
    r := Ok(fh);
  }

  /** Build an index from a byte sequence: the value the format assigns to it, or the same error. */
  method Load(c: Codec, bytes: seq<Byte>, metric: Metric) returns (r: Result<HNSWIndex, LoadError>)
    ensures r.Err? ==> Format.Load(c, bytes) == Err(r.error)
    ensures r.Ok? ==> fresh(r.value) && fresh(r.value.nodes.Values) && r.value.Filed() && r.value.metric == metric
    ensures r.Ok? ==> Format.Load(c, bytes) == Ok(r.value.View())
  {
    hide LoadHeader, Fixed, LoadRecs, Take, Items;
    var header :- LoadHeader(bytes);
    var h := header.0;
    var ep :- Fixed(header.1, 8);
    if h.dim < 1 || h.M < 2 || h.efc < h.M {
      return Err(BadParameters);
    }
    var index := new HNSWIndex(metric, h.dim, h.M, h.efc);
    index.maxLayer := h.maxLayer;
    index.entryPoint := EntryOf(ep.0);
    assert index.View() == EmptyIndex(h.dim, h.M, h.efc).(maxLayer := h.maxLayer, entry := EntryOf(ep.0));
    var fh :- LoadNodes(c, h.version, h.numNodes, ep.1, index);
    var count :- Fixed(fh, 8);
    if count.0 != h.numDeleted {
      return Err(CountMismatch);
    }
    EightIsItem();
    var ids :- Items(Take(count.1, count.0 * 8).0, 8);
    ghost var s := index.View();
    index.deleted := Members(ids);
    assert index.View() == s.(deleted := Members(ids));
    r := Ok(index);
  }

  /** Saving an index and loading the file gives a valid index holding all of it, up to empty metadata. */
  method SaveAndLoad(index: HNSWIndex, c: Codec) returns (r: Option<HNSWIndex>)
    requires index.Valid() && Faithful(c)
    ensures r.Some? <==> FitsFile(c, index.View())
    ensures r.Some? ==> fresh(r.value) && r.value.Valid() && r.value.metric == index.metric
    ensures r.Some? ==> r.value.View() == Restored(CURRENT, index.View())
  {
    hide *;
    ghost var s := index.View();
    IndexReads(index);
    var file := Save(index, c);
    if file.Err? {
      return None;
    }
    ghost var img :| Depicts(c, s, img) && file.value == Print(CURRENT, img);
    CurrentLoads(c, s, img);
    var loaded := Load(c, file.value, index.metric);
    ValidIf(loaded.value);
    r := Some(loaded.value);
  }

  lemma CurrentLoads(c: Codec, s: Index, img: Image)
    requires Faithful(c) && Inv(s) && FitsFile(c, s) && Depicts(c, s, img)
    ensures Format.Load(c, Print(CURRENT, img)) == Ok(Restored(CURRENT, s)) && Inv(Restored(CURRENT, s))
  {
    hide Faithful, Inv, FitsFile, Depicts, Print, Restored;
    assert Supported(CURRENT);
    RoundTrip(c, CURRENT, s, img);
    RestoredInv(CURRENT, s);
  }

  lemma ValidIf(index: HNSWIndex)
    requires index.Filed() && Inv(index.View())
    ensures index.Valid()
  {
    hide Inv;
  }
}
