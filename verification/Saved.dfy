/** Saving and loading: what is written for an index, and what comes back. */
module Saved {
  import opened Types
  import opened Ranking
  import opened Graph
  import opened Bytes
  import opened Format

  // ---------- what is written ----------

  /** `xs` enumerates `S`, in any order. */
  ghost predicate Enumeration<T(!new)>(xs: seq<T>, S: set<T>) {
    && (forall x :: x in S <==> x in xs)
    && forall i, j :: 0 <= i < j < |xs| ==> xs[i] != xs[j]
  }

  /** An absent or an empty record is written as nothing. */
  function MetaBytes(c: Codec, meta: Option<Meta>): seq<Byte> {
    if meta.None? || meta.value == map[] then [] else c.encodeMeta(meta.value)
  }

  ghost predicate DepictsNode(c: Codec, i: nat, v: Vertex, r: Rec) {
    && r.iid == i && r.level == v.level && r.vid == c.encodeId(v.vid) && r.vec == v.vec && r.meta == MetaBytes(c, v.meta)
    && |r.layers| == v.level + 1
    && forall l :: 0 <= l < |r.layers| ==> Enumeration(r.layers[l], v.Nbrs(l))
  }

  ghost predicate DepictsNodes(c: Codec, nodes: Nodes, recs: seq<Rec>) {
    forall k :: 0 <= k < |recs| ==> recs[k].iid in nodes && DepictsNode(c, recs[k].iid, nodes[recs[k].iid], recs[k])
  }

  function Iids(recs: seq<Rec>): seq<nat> { seq(|recs|, k requires 0 <= k < |recs| => recs[k].iid) }

  /** `img` shows `s`, every set listed in some order. */
  ghost predicate Depicts(c: Codec, s: Index, img: Image) {
    && img.dim == s.dim && img.M == s.M && img.efc == s.efc && img.maxLayer == s.maxLayer && img.entry == s.entry
    && DepictsNodes(c, s.nodes, img.recs)
    && Enumeration(Iids(img.recs), s.nodes.Keys)
    && Enumeration(img.deleted, s.deleted)
  }

  predicate FitsNode(c: Codec, i: nat, v: Vertex) {
    && Fits(i, 8) && Fits(v.level, 4) && Fits(|c.encodeId(v.vid)|, 2) && Fits(|MetaBytes(c, v.meta)|, 4)
    && forall l :: 0 <= l <= v.level ==> Fits(|v.Nbrs(l)|, 4)
  }

  /** Every field of `s` fits the width the format gives it; the entry point is signed. */
  ghost predicate FitsFile(c: Codec, s: Index) {
    && Fits(s.dim, 4) && Fits(s.M, 4) && Fits(s.efc, 4) && Fits(s.maxLayer, 4)
    && Fits(|s.nodes|, 8) && Fits(|s.deleted|, 8)
    && (s.entry.Some? ==> 2 * s.entry.value < Pow256(8))
    && forall i :: i in s.nodes ==> FitsNode(c, i, s.nodes[i])
  }

  // ---------- what comes back ----------

  /** Version 1 has no metadata; version 2 does not tell an empty record from none. */
  function Kept(version: nat, meta: Option<Meta>): Option<Meta> {
    if version < 2 || meta == Some(map[]) then None else meta
  }

  function KeptVertex(version: nat, v: Vertex): Vertex { v.(meta := Kept(version, v.meta)) }

  function Restored(version: nat, s: Index): Index {
    s.(nodes := map i | i in s.nodes :: KeptVertex(version, s.nodes[i]))
  }

  // ---------- one record ----------

  lemma EnumerationSize<T(!new)>(xs: seq<T>, S: set<T>)
    requires Enumeration(xs, S)
    ensures |xs| == |S|
    decreases |xs|
  {
    if xs == [] {
      assert S == {};
    } else {
      var rest, last := xs[..|xs| - 1], xs[|xs| - 1];
      assert xs == rest + [last];
      assert Enumeration(rest, S - {last});
      EnumerationSize(rest, S - {last});
    }
  }

  lemma EnumerationMembers(xs: seq<nat>, S: set<nat>)
    requires Enumeration(xs, S)
    ensures Members(xs) == S
  {
  }

  lemma Assoc<T>(a: seq<T>, b: seq<T>, c: seq<T>)
    ensures (a + b) + c == a + (b + c)
  {
  }

  lemma FieldsThen(iid: nat, level: nat, vid: seq<Byte>, vec: Vec, tail: seq<Byte>)
    ensures PrintFields(iid, level, vid, vec) + tail == Le(iid, 8) + (Le(level, 4) + (Le(|vid|, 2) + (vid + (LeAll(vec, 4) + tail))))
  {
    hide Le, LeAll;
    Assoc(vid, LeAll(vec, 4), tail);
    Assoc(Le(|vid|, 2), vid + LeAll(vec, 4), tail);
    Assoc(Le(level, 4), Le(|vid|, 2) + (vid + LeAll(vec, 4)), tail);
    Assoc(Le(iid, 8), Le(level, 4) + (Le(|vid|, 2) + (vid + LeAll(vec, 4))), tail);
  }

  /** The fixed part of a record reads back, whatever follows it. */
  lemma FieldsBack(c: Codec, iid: nat, level: nat, vid: string, vec: Vec, tail: seq<Byte>)
    requires Faithful(c) && Fits(iid, 8) && Fits(level, 4) && Fits(|c.encodeId(vid)|, 2)
    ensures LoadFields(c, |vec|, PrintFields(iid, level, c.encodeId(vid), vec) + tail) == Ok((Fields(iid, level, vid, vec), tail))
  {
    FourBytes();
    assert AllFit(vec, 4);
    assert ItemSize(4) && c.decodeId(c.encodeId(vid)) == Some(vid);
    hide Fixed, Take, Items, Le, LeAll, Fits, Pow256, AllFit, Faithful, PrintFields;
    var bs := c.encodeId(vid);
    var t4 := LeAll(vec, 4) + tail;
    var t3 := bs + t4;
    var t2 := Le(|bs|, 2) + t3;
    var t1 := Le(level, 4) + t2;
    FieldsThen(iid, level, bs, vec, tail);
    FixedLe(iid, 8, t1);
    FixedLe(level, 4, t2);
    FixedLe(|bs|, 2, t3);
    TakeAll(bs, t4);
    ItemsLeAll(vec, 4, tail);
  }

  lemma MetaBack(c: Codec, version: nat, meta: Option<Meta>, tail: seq<Byte>)
    requires Faithful(c) && Fits(|MetaBytes(c, meta)|, 4)
    ensures LoadMeta(c, version, PrintMeta(version, MetaBytes(c, meta)) + tail) == Ok((Kept(version, meta), tail))
  {
    if version >= 2 {
      var bs := MetaBytes(c, meta);
      assert PrintMeta(version, bs) + tail == Le(|bs|, 4) + (bs + tail);
      FixedLe(|bs|, 4, bs + tail);
      TakeAll(bs, tail);
    } else {
      assert PrintMeta(version, MetaBytes(c, meta)) + tail == tail;
    }
  }

  lemma LayersThen(layers: seq<seq<nat>>, l: nat, tail: seq<Byte>)
    requires l < |layers|
    ensures PrintLayers(layers[l..]) + tail == Le(|layers[l]|, 4) + (LeAll(layers[l], 8) + (PrintLayers(layers[l + 1..]) + tail))
  {
    hide Le, LeAll;
    var ids, rest := layers[l], PrintLayers(layers[l + 1..]);
    assert layers[l..][0] == ids && layers[l..][1..] == layers[l + 1..];
    Assoc(Le(|ids|, 4), LeAll(ids, 8), rest + tail);
    Assoc(Le(|ids|, 4) + LeAll(ids, 8), rest, tail);
  }

  /** `nbrs` has the first `l` layers of `v`, the others still empty. */
  ghost predicate UpTo(v: Vertex, l: nat, nbrs: map<nat, set<nat>>) {
    forall k: nat :: (k in nbrs <==> k <= v.level) && (k in nbrs ==> nbrs[k] == if k < l then v.Nbrs(k) else {})
  }

  lemma OneMoreLayer(v: Vertex, l: nat, nbrs: map<nat, set<nat>>, ids: seq<nat>)
    requires l <= v.level && UpTo(v, l, nbrs) && Enumeration(ids, v.Nbrs(l))
    ensures UpTo(v, l + 1, if |ids| == 0 then nbrs else nbrs[l := Members(ids)])
  {
    EnumerationMembers(ids, v.Nbrs(l));
    if |ids| == 0 {
      assert v.Nbrs(l) == {};
    }
  }

  lemma AllLayers(v: Vertex, nbrs: map<nat, set<nat>>)
    requires v.Shaped() && UpTo(v, v.level + 1, nbrs)
    ensures nbrs == v.nbrs
  {
    assert nbrs.Keys == v.nbrs.Keys;
  }

  /** A list of neighbours that can be written. */
  ghost predicate Listed(v: Vertex, l: nat, ids: seq<nat>) {
    Enumeration(ids, v.Nbrs(l)) && Fits(|ids|, 4) && AllFit(ids, 8)
  }

  lemma {:induction false} LayersBack(layers: seq<seq<nat>>, l: nat, nbrs: map<nat, set<nat>>, v: Vertex, tail: seq<Byte>)
    requires l <= |layers| == v.level + 1 && v.Shaped() && UpTo(v, l, nbrs)
    requires forall k :: 0 <= k < |layers| ==> Listed(v, k, layers[k])
    ensures LoadLayers(|layers|, l, PrintLayers(layers[l..]) + tail, nbrs) == Ok((v.nbrs, tail))
    decreases |layers| - l
  {
    if l == |layers| {
      assert PrintLayers(layers[l..]) + tail == tail;
      AllLayers(v, nbrs);
    } else {
      var ids, t1 := layers[l], PrintLayers(layers[l + 1..]) + tail;
      assert Listed(v, l, ids) && ItemSize(8);
      OneMoreLayer(v, l, nbrs, ids);
      hide Fixed, Take, Items, Le, LeAll, Fits, Pow256, AllFit, UpTo, Enumeration, PrintLayers, Members, Vertex.Shaped;
      LayersThen(layers, l, tail);
      FixedLe(|ids|, 4, LeAll(ids, 8) + t1);
      ItemsLeAll(ids, 8, t1);
      LayersBack(layers, l + 1, if |ids| == 0 then nbrs else nbrs[l := Members(ids)], v, tail);
    }
  }

  /** One node record reads back. */
  lemma RecBack(c: Codec, version: nat, i: nat, v: Vertex, r: Rec, tail: seq<Byte>)
    requires Faithful(c) && DepictsNode(c, i, v, r) && FitsNode(c, i, v) && v.Shaped()
    requires forall k :: 0 <= k < |r.layers| ==> AllFit(r.layers[k], 8)
    ensures LoadRec(c, version, |v.vec|, PrintRec(version, r) + tail) == Ok((i, KeptVertex(version, v), tail))
  {
    hide LoadFields, LoadMeta, PrintFields, PrintMeta, LoadLayers, PrintLayers;
    var t2 := PrintLayers(r.layers) + tail;
    var t1 := PrintMeta(version, r.meta) + t2;
    assert PrintRec(version, r) + tail == PrintFields(r.iid, r.level, r.vid, r.vec) + t1;
    FieldsBack(c, i, v.level, v.vid, v.vec, t1);
    MetaBack(c, version, v.meta, t2);
    forall k | 0 <= k < |r.layers| ensures Listed(v, k, r.layers[k]) {
      EnumerationSize(r.layers[k], v.Nbrs(k));
    }
    var empty := NoEdges(v.level);
    assert UpTo(v, 0, empty);
    assert r.layers[0..] == r.layers;
    LayersBack(r.layers, 0, empty, v, tail);
  }

  // ---------- all records ----------

  /** `t` has the nodes `ids` of `s`, as version `version` keeps them. */
  ghost predicate Restoring(version: nat, s: Index, ids: set<nat>, t: Index) {
    && t.dim == s.dim && t.M == s.M && t.efc == s.efc && t.entry == s.entry && t.maxLayer == s.maxLayer && t.deleted == {}
    && t.nodes.Keys == ids <= s.nodes.Keys
    && (forall i :: i in ids ==> t.nodes[i] == KeptVertex(version, s.nodes[i]) && i < t.nextId)
    && (forall v :: v in t.idMap <==> v in s.idMap && s.idMap[v] in ids)
    && (forall v :: v in t.idMap ==> t.idMap[v] == s.idMap[v])
    && (t.nextId > 0 ==> t.nextId - 1 in ids)
  }

  lemma FileOne(version: nat, s: Index, ids: set<nat>, t: Index, i: nat)
    requires IdsOk(s) && Restoring(version, s, ids, t) && i in s.nodes
    ensures Restoring(version, s, ids + {i}, File(t, i, KeptVertex(version, s.nodes[i])))
  {
    var t' := File(t, i, KeptVertex(version, s.nodes[i]));
    assert t'.nodes.Keys == ids + {i};
    assert t'.nextId == Max(t.nextId, i + 1);
    assert s.idMap[s.nodes[i].vid] == i;
  }

  lemma FiledAll(version: nat, s: Index, t: Index)
    requires IdsOk(s) && Restoring(version, s, s.nodes.Keys, t)
    ensures t.(deleted := s.deleted) == Restored(version, s)
  {
    var r := Restored(version, s);
    assert t.nodes == r.nodes;
    assert t.idMap.Keys == s.idMap.Keys;
    assert t.idMap == s.idMap;
    assert s.nextId > 0 ==> s.nextId - 1 in s.nodes;
  }

  /** The record `r` can be written and read back as node `i` of `s`. */
  ghost predicate Sound(c: Codec, s: Index, r: Rec) {
    && r.iid in s.nodes && DepictsNode(c, r.iid, s.nodes[r.iid], r) && FitsNode(c, r.iid, s.nodes[r.iid])
    && s.nodes[r.iid].Shaped() && |s.nodes[r.iid].vec| == s.dim
    && forall k :: 0 <= k < |r.layers| ==> AllFit(r.layers[k], 8)
  }

  lemma SoundKnown(c: Codec, s: Index, r: Rec)
    requires Sound(c, s, r)
    ensures r.iid in s.nodes
  {
    hide DepictsNode, FitsNode;
  }

  lemma RecsThen(version: nat, recs: seq<Rec>, k: nat, tail: seq<Byte>)
    requires k < |recs|
    ensures PrintRecs(version, recs[k..]) + tail == PrintRec(version, recs[k]) + (PrintRecs(version, recs[k + 1..]) + tail)
  {
    hide PrintRec;
    assert recs[k..][0] == recs[k] && recs[k..][1..] == recs[k + 1..];
    Assoc(PrintRec(version, recs[k]), PrintRecs(version, recs[k + 1..]), tail);
  }

  function IdsFrom(recs: seq<Rec>, k: nat): set<nat> { set j | k <= j < |recs| :: recs[j].iid }

  /** The head of the remaining records reads back and is filed. */
  lemma NextBack(c: Codec, version: nat, s: Index, recs: seq<Rec>, k: nat, n: nat, ids: set<nat>, t: Index, tail: seq<Byte>)
    requires Faithful(c) && IdsOk(s) && k < |recs| && Restoring(version, s, ids, t) && Sound(c, s, recs[k])
    ensures var next := File(t, recs[k].iid, KeptVertex(version, s.nodes[recs[k].iid]));
            && Restoring(version, s, ids + {recs[k].iid}, next)
            && LoadRecs(c, version, n + 1, PrintRecs(version, recs[k..]) + tail, t)
                 == LoadRecs(c, version, n, PrintRecs(version, recs[k + 1..]) + tail, next)
  {
    var r := recs[k];
    var v, rest := s.nodes[r.iid], PrintRecs(version, recs[k + 1..]) + tail;
    FileOne(version, s, ids, t, r.iid);
    RecsThen(version, recs, k, tail);
    assert t.dim == |v.vec|;
    hide LoadRec, PrintRec, PrintRecs, File, Restoring, IdsOk, DepictsNode, FitsNode, Faithful;
    RecBack(c, version, r.iid, v, r, rest);
  }

  lemma NoneBack(c: Codec, version: nat, recs: seq<Rec>, t: Index, tail: seq<Byte>)
    ensures LoadRecs(c, version, 0, PrintRecs(version, recs[|recs|..]) + tail, t) == Ok((t, tail))
    ensures IdsFrom(recs, |recs|) == {}
  {
    assert PrintRecs(version, recs[|recs|..]) + tail == tail;
  }

  lemma IdsFromNext(recs: seq<Rec>, k: nat, ids: set<nat>)
    requires k < |recs|
    ensures ids + IdsFrom(recs, k) == (ids + {recs[k].iid}) + IdsFrom(recs, k + 1)
  {
  }

  lemma {:induction false} RecsBack(c: Codec, version: nat, s: Index, recs: seq<Rec>, k: nat, ids: set<nat>, t: Index, tail: seq<Byte>)
      returns (t': Index)
    requires Faithful(c) && IdsOk(s) && k <= |recs| && Restoring(version, s, ids, t)
    requires forall j :: 0 <= j < |recs| ==> Sound(c, s, recs[j])
    ensures LoadRecs(c, version, |recs| - k, PrintRecs(version, recs[k..]) + tail, t) == Ok((t', tail))
    ensures Restoring(version, s, ids + IdsFrom(recs, k), t')
    decreases |recs| - k
  {
    hide *;
    if k == |recs| {
      NoneBack(c, version, recs, t, tail);
      assert ids + IdsFrom(recs, k) == ids;
      t' := t;
    } else {
      IdsFromNext(recs, k, ids);
      SoundKnown(c, s, recs[k]);
      NextBack(c, version, s, recs, k, |recs| - k - 1, ids, t, tail);
      var next := File(t, recs[k].iid, KeptVertex(version, s.nodes[recs[k].iid]));
      t' := RecsBack(c, version, s, recs, k + 1, ids + {recs[k].iid}, next, tail);
    }
  }

  // ---------- a whole file ----------

  lemma HeaderThen(version: nat, i: Image, n: nat, tail: seq<Byte>)
    ensures PrintHeader(version, i, n) + tail ==
      MAGIC + (Le(version, 2) + (Le(i.dim, 4) + (Le(i.M, 4) + (Le(i.efc, 4) + (Le(i.maxLayer, 4) + (Le(|i.recs|, 8) + (Le(n, 8) + tail)))))))
  {
    hide Le;
    var p7 := Le(|i.recs|, 8) + Le(n, 8);
    Assoc(Le(|i.recs|, 8), Le(n, 8), tail);
    Assoc(Le(i.maxLayer, 4), p7, tail);
    Assoc(Le(i.efc, 4), Le(i.maxLayer, 4) + p7, tail);
    Assoc(Le(i.M, 4), Le(i.efc, 4) + (Le(i.maxLayer, 4) + p7), tail);
    Assoc(Le(i.dim, 4), Le(i.M, 4) + (Le(i.efc, 4) + (Le(i.maxLayer, 4) + p7)), tail);
    Assoc(Le(version, 2), Le(i.dim, 4) + (Le(i.M, 4) + (Le(i.efc, 4) + (Le(i.maxLayer, 4) + p7))), tail);
    Assoc(MAGIC, Le(version, 2) + (Le(i.dim, 4) + (Le(i.M, 4) + (Le(i.efc, 4) + (Le(i.maxLayer, 4) + p7)))), tail);
  }

  ghost predicate HeaderFits(i: Image, n: nat) {
    && Fits(i.dim, 4) && Fits(i.M, 4) && Fits(i.efc, 4) && Fits(i.maxLayer, 4) && Fits(|i.recs|, 8) && Fits(n, 8)
    && (i.entry.Some? ==> 2 * i.entry.value < Pow256(8))
  }

  lemma SmallFits(version: nat)
    requires Supported(version)
    ensures Fits(version, 2)
  {
    assert Pow256(1) == 256;
  }

  lemma HeaderBack(version: nat, i: Image, n: nat, tail: seq<Byte>)
    requires Supported(version) && HeaderFits(i, n)
    ensures LoadHeader(PrintHeader(version, i, n) + tail) == Ok((Header(version, i.dim, i.M, i.efc, i.maxLayer, |i.recs|, n), tail))
  {
    SmallFits(version);
    HeaderThen(version, i, n, tail);
    assert |PrintHeader(version, i, n)| == 42;
    hide Fixed, Take, Le, Fits, PrintHeader, Pow256;
    var t7 := Le(n, 8) + tail;
    var t6 := Le(|i.recs|, 8) + t7;
    var t5 := Le(i.maxLayer, 4) + t6;
    var t4 := Le(i.efc, 4) + t5;
    var t3 := Le(i.M, 4) + t4;
    var t2 := Le(i.dim, 4) + t3;
    var t1 := Le(version, 2) + t2;
    TakeAll(MAGIC, t1);
    FixedLe(version, 2, t2);
    FixedLe(i.dim, 4, t3);
    FixedLe(i.M, 4, t4);
    FixedLe(i.efc, 4, t5);
    FixedLe(i.maxLayer, 4, t6);
    FixedLe(|i.recs|, 8, t7);
    FixedLe(n, 8, tail);
  }

  lemma EntryBack(entry: Option<nat>, tail: seq<Byte>)
    requires entry.Some? ==> 2 * entry.value < Pow256(8)
    ensures Fixed(Le(EntryField(entry), 8) + tail, 8) == Ok((EntryField(entry), tail)) && EntryOf(EntryField(entry)) == entry
  {
    assert Pow256(8) == 256 * Pow256(7);
    FixedLe(EntryField(entry), 8, tail);
  }

  lemma ShellRestores(version: nat, s: Index)
    ensures Restoring(version, s, {}, EmptyIndex(s.dim, s.M, s.efc).(maxLayer := s.maxLayer, entry := s.entry))
  {
  }

  /** Every record of a picture of a sound index is sound. */
  lemma AllSound(c: Codec, s: Index, img: Image, k: nat)
    requires Inv(s) && FitsFile(c, s) && Depicts(c, s, img) && k < |img.recs|
    ensures Sound(c, s, img.recs[k])
  {
    hide NoDeadEnds, EntryOk, DegreesOk, Fits, MetaBytes, FitsNode;
    var r := img.recs[k];
    var v := s.nodes[r.iid];
    forall l, j | 0 <= l < |r.layers| && 0 <= j < |r.layers[l]| ensures Fits(r.layers[l][j], 8) {
      var x := r.layers[l][j];
      assert x in r.layers[l];
      assert Edge(s.nodes, r.iid, l, x);
      assert OnLayer(s.nodes, x, l);
      IdFits(c, s, x);
    }
  }

  lemma IdFits(c: Codec, s: Index, i: nat)
    requires FitsFile(c, s) && i in s.nodes
    ensures Fits(i, 8)
  {
    assert FitsNode(c, i, s.nodes[i]);
  }

  lemma DepictedRecs(c: Codec, s: Index, img: Image)
    requires Depicts(c, s, img)
    ensures IdsFrom(img.recs, 0) == s.nodes.Keys && |img.recs| == |s.nodes| && |img.deleted| == |s.deleted|
    ensures img.dim == s.dim && img.M == s.M && img.efc == s.efc && img.maxLayer == s.maxLayer && img.entry == s.entry
    ensures Members(img.deleted) == s.deleted
  {
    EnumerationSize(Iids(img.recs), s.nodes.Keys);
    EnumerationSize(img.deleted, s.deleted);
    forall i ensures i in IdsFrom(img.recs, 0) <==> i in Iids(img.recs) {
      if i in Iids(img.recs) {
        var k :| 0 <= k < |Iids(img.recs)| && Iids(img.recs)[k] == i;
        assert img.recs[k].iid == i;
      }
      if i in IdsFrom(img.recs, 0) {
        var k :| 0 <= k < |img.recs| && img.recs[k].iid == i;
        assert Iids(img.recs)[k] == i;
      }
    }
  }

  lemma BodyThen(version: nat, i: Image, header: nat, footer: nat, tail: seq<Byte>)
    ensures PrintBody(version, i, header, footer) + tail ==
      PrintHeader(version, i, header) + (Le(EntryField(i.entry), 8) + (PrintRecs(version, i.recs[0..]) + (Le(footer, 8) + tail)))
  {
    hide PrintHeader, Le, PrintRecs, EntryField;
    var e, rs := Le(EntryField(i.entry), 8), PrintRecs(version, i.recs);
    assert i.recs[0..] == i.recs;
    Assoc(rs, Le(footer, 8), tail);
    Assoc(e, rs + Le(footer, 8), tail);
    Assoc(PrintHeader(version, i, header), e + (rs + Le(footer, 8)), tail);
  }

  lemma BodyFits(c: Codec, s: Index, img: Image, n: nat)
    requires Inv(s) && FitsFile(c, s) && Depicts(c, s, img) && Fits(n, 8)
    ensures ShapeOk(s) && IdsOk(s) && HeaderFits(img, n)
  {
    DepictedRecs(c, s, img);
  }

  /** The body of a file reads back, whatever follows it, and only if its two counts agree. */
  lemma BodyBack(c: Codec, version: nat, s: Index, img: Image, header: nat, footer: nat, tail: seq<Byte>) returns (t: Index)
    requires Faithful(c) && Supported(version) && Inv(s) && FitsFile(c, s) && Depicts(c, s, img) && Fits(header, 8) && Fits(footer, 8)
    ensures LoadBody(c, PrintBody(version, img, header, footer) + tail)
         == if footer == header then Ok((t, footer, tail)) else Err(CountMismatch)
    ensures Restoring(version, s, s.nodes.Keys, t)
  {
    hide *;
    BodyFits(c, s, img, header);
    DepictedRecs(c, s, img);
    ShapeParts(s);
    var rest := Le(footer, 8) + tail;
    t := BodyRecs(c, version, s, img, rest);
    BodyThen(version, img, header, footer, tail);
    BodyHeader(c, version, s, img, header, PrintRecs(version, img.recs[0..]) + rest);
    FixedLe(footer, 8, tail);
    BodySteps(c, PrintBody(version, img, header, footer) + tail, Header(version, img.dim, img.M, img.efc, img.maxLayer, |img.recs|, header),
      Le(EntryField(img.entry), 8) + (PrintRecs(version, img.recs[0..]) + rest), EntryField(img.entry),
      PrintRecs(version, img.recs[0..]) + rest, t, rest, footer, tail);
  }

  lemma BodyRecs(c: Codec, version: nat, s: Index, img: Image, rest: seq<Byte>) returns (t: Index)
    requires Faithful(c) && Inv(s) && FitsFile(c, s) && Depicts(c, s, img)
    ensures LoadRecs(c, version, |img.recs|, PrintRecs(version, img.recs[0..]) + rest,
              EmptyIndex(s.dim, s.M, s.efc).(maxLayer := s.maxLayer, entry := s.entry)) == Ok((t, rest))
    ensures Restoring(version, s, s.nodes.Keys, t)
  {
    hide *;
    forall k | 0 <= k < |img.recs| ensures Sound(c, s, img.recs[k]) { AllSound(c, s, img, k); }
    IdsPart(s);
    DepictedRecs(c, s, img);
    ShellRestores(version, s);
    t := RecsBack(c, version, s, img.recs, 0, {}, EmptyIndex(s.dim, s.M, s.efc).(maxLayer := s.maxLayer, entry := s.entry), rest);
    assert {} + IdsFrom(img.recs, 0) == s.nodes.Keys;
  }

  lemma IdsPart(s: Index)
    requires Inv(s)
    ensures IdsOk(s)
  {
  }

  lemma BodyHeader(c: Codec, version: nat, s: Index, img: Image, header: nat, recs: seq<Byte>)
    requires Supported(version) && HeaderFits(img, header)
    ensures LoadHeader(PrintHeader(version, img, header) + (Le(EntryField(img.entry), 8) + recs))
      == Ok((Header(version, img.dim, img.M, img.efc, img.maxLayer, |img.recs|, header), Le(EntryField(img.entry), 8) + recs))
    ensures Fixed(Le(EntryField(img.entry), 8) + recs, 8) == Ok((EntryField(img.entry), recs)) && EntryOf(EntryField(img.entry)) == img.entry
  {
    hide *;
    HeaderBack(version, img, header, Le(EntryField(img.entry), 8) + recs);
    HeaderSays(img, header);
    EntryBack(img.entry, recs);
  }

  lemma HeaderSays(i: Image, n: nat)
    requires HeaderFits(i, n)
    ensures i.entry.Some? ==> 2 * i.entry.value < Pow256(8)
  {
  }

  lemma ShapeParts(s: Index)
    requires ShapeOk(s)
    ensures 1 <= s.dim && 2 <= s.M <= s.efc
  {
  }

  /** The stages of `LoadBody`, one after the other. */
  lemma BodySteps(c: Codec, bs: seq<Byte>, h: Header, r1: seq<Byte>, field: nat, r2: seq<Byte>, t: Index, r3: seq<Byte>, n: nat, r4: seq<Byte>)
    requires LoadHeader(bs) == Ok((h, r1)) && Fixed(r1, 8) == Ok((field, r2)) && 1 <= h.dim && 2 <= h.M <= h.efc
    requires LoadRecs(c, h.version, h.numNodes, r2, EmptyIndex(h.dim, h.M, h.efc).(maxLayer := h.maxLayer, entry := EntryOf(field))) == Ok((t, r3))
    requires Fixed(r3, 8) == Ok((n, r4))
    ensures LoadBody(c, bs) == if n == h.numDeleted then Ok((t, n, r4)) else Err(CountMismatch)
  {
    hide LoadHeader, Fixed, LoadRecs, EmptyIndex, EntryOf;
  }

  /** A saved index loads back: every node, edge, id, tombstone and counter, and its metadata as far as the version
      keeps it. Sets may be written in any order. */
  lemma RoundTrip(c: Codec, version: nat, s: Index, img: Image)
    requires Faithful(c) && Supported(version) && Inv(s) && FitsFile(c, s) && Depicts(c, s, img)
    ensures Load(c, Print(version, img)) == Ok(Restored(version, s))
  {
    DeletedFit(c, s, img);
    assert IdsOk(s) && Fits(|s.deleted|, 8);
    hide *;
    DepictedRecs(c, s, img);
    var n, tail := |img.deleted|, LeAll(img.deleted, 8);
    var t := BodyBack(c, version, s, img, n, n, tail);
    EightIsItem();
    ItemsLeAll(img.deleted, 8, []);
    PrintParts(version, img);
    LoadSteps(c, Print(version, img), t, n, tail, img.deleted);
    FiledAll(version, s, t);
  }

  lemma EightIsItem()
    ensures ItemSize(8)
  {
  }

  lemma PrintParts(version: nat, img: Image)
    ensures Print(version, img) == PrintBody(version, img, |img.deleted|, |img.deleted|) + LeAll(img.deleted, 8)
    ensures LeAll(img.deleted, 8) + [] == LeAll(img.deleted, 8)
  {
  }

  lemma DeletedFit(c: Codec, s: Index, img: Image)
    requires FitsFile(c, s) && Inv(s) && Depicts(c, s, img)
    ensures AllFit(img.deleted, 8)
  {
    hide Fits, FitsFile, DepictsNodes, EdgesOk, DegreesOk, NoDeadEnds, EntryOk, ShapeOk;
    forall i | 0 <= i < |img.deleted| ensures Fits(img.deleted[i], 8) {
      assert img.deleted[i] in s.deleted;
      IdFits(c, s, img.deleted[i]);
    }
  }

  lemma LoadSteps(c: Codec, bs: seq<Byte>, t: Index, n: nat, r: seq<Byte>, ids: seq<nat>)
    requires LoadBody(c, bs) == Ok((t, n, r)) && ItemSize(8) && Items(Take(r, n * 8).0, 8) == Ok(ids)
    ensures Load(c, bs) == Ok(t.(deleted := Members(ids)))
  {
    hide LoadBody, Items, Take;
  }

  /** A file whose header and footer disagree on the number of tombstones never loads, whatever follows. */
  lemma CountsMustAgree(c: Codec, version: nat, s: Index, img: Image, header: nat, footer: nat, tail: seq<Byte>)
    requires Faithful(c) && Supported(version) && Inv(s) && FitsFile(c, s) && Depicts(c, s, img) && Fits(header, 8) && Fits(footer, 8)
    requires header != footer
    ensures Load(c, PrintBody(version, img, header, footer) + tail) == Err(CountMismatch)
  {
    hide LoadBody, Inv, FitsFile, Depicts, Faithful, PrintBody, Fits;
    var t := BodyBack(c, version, s, img, header, footer, tail);
  }
}
