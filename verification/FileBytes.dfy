/** The file byte by byte: which number stands where, for the printer and for the parser. */
module FileBytes {
  import opened Types
  import opened Graph
  import opened Bytes
  import opened Format
  import opened Saved

  // ---------- little-endian numbers ----------

  function U16(bs: seq<Byte>, at: nat): nat
    requires at + 2 <= |bs|
  {
    bs[at] as nat + 256 * bs[at + 1] as nat
  }

  function U32(bs: seq<Byte>, at: nat): nat
    requires at + 4 <= |bs|
  {
    bs[at] as nat + 256 * bs[at + 1] as nat + 65536 * bs[at + 2] as nat + 16777216 * bs[at + 3] as nat
  }

  function U64(bs: seq<Byte>, at: nat): nat
    requires at + 8 <= |bs|
  {
    U32(bs, at) + 0x1_0000_0000 * U32(bs, at + 4)
  }

  lemma FromLeTwo(bs: seq<Byte>)
    requires |bs| == 2
    ensures FromLe(bs) == U16(bs, 0)
  {
    assert bs[1..][1..] == [];
  }

  lemma FromLeFour(bs: seq<Byte>)
    requires |bs| >= 4
    ensures FromLe(bs) == U32(bs, 0) + 0x1_0000_0000 * FromLe(bs[4..])
    ensures |bs| == 4 ==> FromLe(bs) == U32(bs, 0)
  {
    assert bs[1..][1..] == bs[2..] && bs[2..][1..] == bs[3..] && bs[3..][1..] == bs[4..];
    assert FromLe(bs) == bs[0] as nat + 256 * FromLe(bs[1..]);
    assert FromLe(bs[1..]) == bs[1] as nat + 256 * FromLe(bs[2..]);
    assert FromLe(bs[2..]) == bs[2] as nat + 256 * FromLe(bs[3..]);
    assert FromLe(bs[3..]) == bs[3] as nat + 256 * FromLe(bs[4..]);
  }

  lemma FromLeEight(bs: seq<Byte>)
    requires |bs| == 8
    ensures FromLe(bs) == U64(bs, 0)
  {
    hide FromLe;
    FromLeFour(bs);
    FromLeFour(bs[4..]);
  }

  lemma Powers()
    ensures Pow256(2) == 0x1_0000 && Pow256(4) == 0x1_0000_0000 && Pow256(8) == 0x1_0000_0000_0000_0000
  {
    FourBytes();
    assert Pow256(1) == 256 && Pow256(2) == 256 * Pow256(1);
    assert Pow256(5) == 256 * Pow256(4) && Pow256(6) == 256 * Pow256(5) && Pow256(7) == 256 * Pow256(6) && Pow256(8) == 256 * Pow256(7);
  }

  /** A field read at its place is the number that was written there. */
  lemma FieldAt(bs: seq<Byte>, at: nat, n: nat, w: nat)
    requires (w == 2 || w == 4 || w == 8) && at + w <= |bs| && bs[at..at + w] == Le(n, w) && Fits(n, w)
    ensures w == 2 ==> U16(bs, at) == n
    ensures w == 4 ==> U32(bs, at) == n
    ensures w == 8 ==> U64(bs, at) == n
  {
    hide Le, Fits;
    var f := bs[at..at + w];
    FromLeLe(n, w);
    if w == 2 { FromLeTwo(f); } else if w == 4 { FromLeFour(f); } else { FromLeEight(f); }
  }

  // ---------- the header ----------

  /** The letters VFIDX, then 0, 1, 0. */
  const MAGIC_BYTES: seq<Byte> := ['V' as int, 'F' as int, 'I' as int, 'D' as int, 'X' as int, 0, 1, 0]

  lemma Cut(bs: seq<Byte>, at: nat, a: seq<Byte>, b: seq<Byte>)
    requires at <= |bs| && bs[at..] == a + b
    ensures at + |a| <= |bs| && bs[at..at + |a|] == a && bs[at + |a|..] == b
  {
    assert bs[at..][..|a|] == a && bs[at..][|a|..] == b;
  }

  lemma HeaderSlices(version: nat, img: Image, n: nat, tail: seq<Byte>)
    ensures var bs := PrintHeader(version, img, n) + tail;
            && |bs| == 42 + |tail| && bs[..8] == MAGIC && bs[8..10] == Le(version, 2) && bs[10..14] == Le(img.dim, 4)
            && bs[14..18] == Le(img.M, 4) && bs[18..22] == Le(img.efc, 4) && bs[22..26] == Le(img.maxLayer, 4)
            && bs[26..34] == Le(|img.recs|, 8) && bs[34..42] == Le(n, 8) && bs[42..] == tail
  {
    hide Le, PrintHeader;
    HeaderThen(version, img, n, tail);
    var bs := PrintHeader(version, img, n) + tail;
    var t7 := Le(n, 8) + tail;
    var t6 := Le(|img.recs|, 8) + t7;
    var t5 := Le(img.maxLayer, 4) + t6;
    var t4 := Le(img.efc, 4) + t5;
    var t3 := Le(img.M, 4) + t4;
    var t2 := Le(img.dim, 4) + t3;
    var t1 := Le(version, 2) + t2;
    assert bs[0..] == bs;
    Cut(bs, 0, MAGIC, t1);
    Cut(bs, 8, Le(version, 2), t2);
    Cut(bs, 10, Le(img.dim, 4), t3);
    Cut(bs, 14, Le(img.M, 4), t4);
    Cut(bs, 18, Le(img.efc, 4), t5);
    Cut(bs, 22, Le(img.maxLayer, 4), t6);
    Cut(bs, 26, Le(|img.recs|, 8), t7);
    Cut(bs, 34, Le(n, 8), tail);
  }

  lemma HeaderNumbers(version: nat, img: Image, n: nat, rest: seq<Byte>)
    requires Supported(version) && HeaderFits(img, n)
    ensures var bs := PrintHeader(version, img, n) + (Le(EntryField(img.entry), 8) + rest);
            && |bs| >= 50 && bs[..8] == MAGIC_BYTES
            && U16(bs, 8) == version && U32(bs, 10) == img.dim && U32(bs, 14) == img.M && U32(bs, 18) == img.efc && U32(bs, 22) == img.maxLayer
            && U64(bs, 26) == |img.recs| && U64(bs, 34) == n && U64(bs, 42) == EntryField(img.entry)
  {
    SmallFits(version);
    EntryFits(img, n);
    hide Le, PrintHeader, U16, U32, U64, Fits, EntryField;
    var tail := Le(EntryField(img.entry), 8) + rest;
    var bs := PrintHeader(version, img, n) + tail;
    HeaderSlices(version, img, n, tail);
    assert bs[42..50] == bs[42..][..8];
    FieldAt(bs, 8, version, 2);
    FieldAt(bs, 10, img.dim, 4);
    FieldAt(bs, 14, img.M, 4);
    FieldAt(bs, 18, img.efc, 4);
    FieldAt(bs, 22, img.maxLayer, 4);
    FieldAt(bs, 26, |img.recs|, 8);
    FieldAt(bs, 34, n, 8);
    FieldAt(bs, 42, EntryField(img.entry), 8);
  }

  lemma EntryFits(img: Image, n: nat)
    requires HeaderFits(img, n)
    ensures Fits(EntryField(img.entry), 8)
  {
    Powers();
  }

  /** An absent entry point is eight bytes of 255. */
  lemma EntryNumber(entry: Option<nat>)
    ensures EntryField(entry) == if entry.Some? then entry.value else 0xFFFF_FFFF_FFFF_FFFF
  {
    Powers();
  }

  /** The fixed part of every saved file. */
  lemma HeaderLayout(c: Codec, version: nat, s: Index, img: Image)
    requires Supported(version) && Inv(s) && FitsFile(c, s) && Depicts(c, s, img)
    ensures var bs := Print(version, img);
            && |bs| >= 50 && bs[..8] == MAGIC_BYTES
            && U16(bs, 8) == version && U32(bs, 10) == s.dim && U32(bs, 14) == s.M && U32(bs, 18) == s.efc && U32(bs, 22) == s.maxLayer
            && U64(bs, 26) == |s.nodes| && U64(bs, 34) == |s.deleted|
            && U64(bs, 42) == if s.entry.Some? then s.entry.value else 0xFFFF_FFFF_FFFF_FFFF
  {
    hide *;
    var n := |img.deleted|;
    DepictedRecs(c, s, img);
    TombstonesFit(c, s);
    BodyFits(c, s, img, n);
    EntryNumber(img.entry);
    PrintParts(version, img);
    BodyThen(version, img, n, n, LeAll(img.deleted, 8));
    HeaderNumbers(version, img, n, PrintRecs(version, img.recs[0..]) + (Le(n, 8) + LeAll(img.deleted, 8)));
  }

  lemma TombstonesFit(c: Codec, s: Index)
    requires FitsFile(c, s)
    ensures Fits(|s.deleted|, 8)
  {
    hide Fits;
  }

  lemma TailSlices(version: nat, img: Image, n: nat)
    requires n == |img.deleted|
    ensures var bs, at := Print(version, img), 50 + |PrintRecs(version, img.recs)|;
            && |bs| == at + 8 + 8 * n && bs[50..at] == PrintRecs(version, img.recs)
            && bs[at..at + 8] == Le(n, 8) && bs[at + 8..] == LeAll(img.deleted, 8)
  {
    hide PrintHeader, PrintRecs, Le, LeAll;
    var bs, recs := Print(version, img), PrintRecs(version, img.recs);
    var last := Le(n, 8) + LeAll(img.deleted, 8);
    var tail := Le(EntryField(img.entry), 8) + (recs + last);
    BodyThen(version, img, n, n, LeAll(img.deleted, 8));
    assert img.recs[0..] == img.recs;
    assert bs == PrintHeader(version, img, n) + tail;
    hide Print;
    HeaderSlices(version, img, n, tail);
    var head := PrintHeader(version, img, n) + Le(EntryField(img.entry), 8);
    assert |head| == 50 && bs == head + (recs + last);
  }

  lemma BlockNumbers(bs: seq<Byte>, at: nat, ids: seq<nat>)
    requires AllFit(ids, 8) && at <= |bs| && bs[at..] == LeAll(ids, 8)
    ensures |bs| == at + 8 * |ids| && forall j :: 0 <= j < |ids| ==> U64(bs, at + 8 * j) == ids[j]
  {
    hide Le, LeAll, Fits, U64;
    EightIsItem();
    forall j | 0 <= j < |ids| ensures U64(bs, at + 8 * j) == ids[j] {
      ItemAt(ids, 8, j);
      assert bs[at..][j * 8..j * 8 + 8] == bs[at + 8 * j..at + 8 + 8 * j];
      FieldAt(bs, at + 8 * j, ids[j], 8);
    }
  }

  /** What follows the first 50 bytes: the records, the tombstone count, and one number for each tombstone. */
  lemma TailLayout(c: Codec, version: nat, s: Index, img: Image)
    requires Inv(s) && FitsFile(c, s) && Depicts(c, s, img)
    ensures var bs, recs, n := Print(version, img), PrintRecs(version, img.recs), |s.deleted|;
            && |bs| == 50 + |recs| + 8 + 8 * n && |img.deleted| == n
            && bs[50..50 + |recs|] == recs && U64(bs, 50 + |recs|) == n
            && forall j :: 0 <= j < n ==> U64(bs, 50 + |recs| + 8 + 8 * j) == img.deleted[j]
  {
    hide *;
    var bs, n, at := Print(version, img), |img.deleted|, 50 + |PrintRecs(version, img.recs)|;
    DepictedRecs(c, s, img);
    DeletedFit(c, s, img);
    TombstonesFit(c, s);
    TailSlices(version, img, n);
    FieldAt(bs, at, n, 8);
    BlockNumbers(bs, at + 8, img.deleted);
  }

  /** What `save` writes is version 2. */
  lemma SavesVersionTwo(c: Codec, s: Index, img: Image)
    requires Inv(s) && FitsFile(c, s) && Depicts(c, s, img)
    ensures |Print(CURRENT, img)| >= 50 && U16(Print(CURRENT, img), 8) == 2
  {
    hide Inv, FitsFile, Depicts, Print;
    HeaderLayout(c, CURRENT, s, img);
  }

  /** What `load` refuses on the first 50 bytes of any input, in the order it checks. */
  lemma LoadRefuses(c: Codec, bs: seq<Byte>)
    ensures |bs| < 42 ==> Load(c, bs) == Err(Truncated)
    ensures |bs| >= 42 && bs[..8] != MAGIC_BYTES ==> Load(c, bs) == Err(BadMagic)
    ensures |bs| >= 42 && bs[..8] == MAGIC_BYTES && U16(bs, 8) != 1 && U16(bs, 8) != 2 ==> Load(c, bs) == Err(BadVersion)
    ensures 42 <= |bs| < 50 && bs[..8] == MAGIC_BYTES && (U16(bs, 8) == 1 || U16(bs, 8) == 2) ==> Load(c, bs) == Err(Truncated)
    ensures |bs| >= 50 && bs[..8] == MAGIC_BYTES && (U16(bs, 8) == 1 || U16(bs, 8) == 2) ==>
              (U32(bs, 10) < 1 || U32(bs, 14) < 2 || U32(bs, 18) < U32(bs, 14) ==> Load(c, bs) == Err(BadParameters))
  {
    if |bs| >= 42 {
      HeaderReads(bs);
      hide LoadHeader, FromLe, LoadRecs, Items, Take;
    }
  }

  /** Otherwise what loads has the parameters, top layer and entry point that stand there. */
  lemma LoadHeaderLayout(c: Codec, bs: seq<Byte>)
    requires Load(c, bs).Ok?
    ensures var s := Load(c, bs).value;
            && |bs| >= 50 && s.dim == U32(bs, 10) && s.M == U32(bs, 14) && s.efc == U32(bs, 18) && s.maxLayer == U32(bs, 22)
            && s.entry == if U64(bs, 42) == 0xFFFF_FFFF_FFFF_FFFF then None else Some(U64(bs, 42))
  {
    hide Load, LoadBody, LoadHeader, FromLe, Pow256, U16, U32, U64, EntryOf;
    LoadKeepsBody(c, bs);
    ShellStays(c, bs);
    HeaderLong(bs);
    HeaderReads(bs);
    assert bs[42..][..8] == bs[42..50];
    FromLeEight(bs[42..50]);
    EntryReads(bs);
  }

  lemma EntryReads(bs: seq<Byte>)
    requires |bs| >= 50
    ensures EntryOf(U64(bs, 42)) == if U64(bs, 42) == 0xFFFF_FFFF_FFFF_FFFF then None else Some(U64(bs, 42))
    ensures U64(bs[42..50], 0) == U64(bs, 42)
  {
    Powers();
  }

  lemma LoadKeepsBody(c: Codec, bs: seq<Byte>)
    requires Load(c, bs).Ok?
    ensures LoadBody(c, bs).Ok? && LoadHeader(bs).Ok? && exists ids :: Load(c, bs).value == LoadBody(c, bs).value.0.(deleted := ids)
  {
    hide LoadHeader, LoadRecs, Fixed, Items, Take;
  }

  lemma HeaderLong(bs: seq<Byte>)
    requires LoadHeader(bs).Ok?
    ensures |bs| >= 42
  {
  }

  lemma HeaderReads(bs: seq<Byte>)
    requires |bs| >= 42
    ensures LoadHeader(bs) ==
      if bs[..8] != MAGIC then Err(BadMagic) else if !Supported(U16(bs, 8)) then Err(BadVersion) else
      Ok((Header(U16(bs, 8), U32(bs, 10), U32(bs, 14), U32(bs, 18), U32(bs, 22), U64(bs, 26), U64(bs, 34)), bs[42..]))
  {
    hide FromLe;
    var r0, r1, r2, r3, r4, r5, r6 := bs[8..], bs[10..], bs[14..], bs[18..], bs[22..], bs[26..], bs[34..];
    assert r0[..2] == bs[8..10] && r0[2..] == r1 && r1[..4] == bs[10..14] && r1[4..] == r2 && r2[..4] == bs[14..18] && r2[4..] == r3;
    assert r3[..4] == bs[18..22] && r3[4..] == r4 && r4[..4] == bs[22..26] && r4[4..] == r5;
    assert r5[..8] == bs[26..34] && r5[8..] == r6 && r6[..8] == bs[34..42] && r6[8..] == bs[42..];
    FromLeTwo(bs[8..10]);
    FromLeFour(bs[10..14]);
    FromLeFour(bs[14..18]);
    FromLeFour(bs[18..22]);
    FromLeFour(bs[22..26]);
    FromLeEight(bs[26..34]);
    FromLeEight(bs[34..42]);
  }

  /** Filing records changes none of the header's values. */
  lemma {:induction false} RecsStay(c: Codec, version: nat, n: nat, rest: seq<Byte>, s: Index)
    requires LoadRecs(c, version, n, rest, s).Ok?
    ensures var t := LoadRecs(c, version, n, rest, s).value.0;
            t.dim == s.dim && t.M == s.M && t.efc == s.efc && t.maxLayer == s.maxLayer && t.entry == s.entry
  {
    hide LoadRec;
    if n > 0 {
      var r := LoadRec(c, version, s.dim, rest);
      RecsStay(c, version, n - 1, r.value.2, File(s, r.value.0, r.value.1));
    }
  }

  lemma ShellStays(c: Codec, bs: seq<Byte>)
    requires LoadHeader(bs).Ok? && LoadBody(c, bs).Ok?
    ensures var h, s := LoadHeader(bs).value.0, LoadBody(c, bs).value.0;
            && |LoadHeader(bs).value.1| >= 8
            && s.dim == h.dim && s.M == h.M && s.efc == h.efc && s.maxLayer == h.maxLayer
            && s.entry == EntryOf(FromLe(LoadHeader(bs).value.1[..8]))
  {
    hide LoadHeader, FromLe, LoadRecs;
    var h := LoadHeader(bs).value.0;
    var field := FromLe(LoadHeader(bs).value.1[..8]);
    RecsStay(c, h.version, h.numNodes, LoadHeader(bs).value.1[8..],
      EmptyIndex(h.dim, h.M, h.efc).(maxLayer := h.maxLayer, entry := EntryOf(field)));
  }

  // ---------- one record ----------

  lemma VecFits(vec: Vec, j: nat)
    requires j < |vec|
    ensures Fits(vec[j], 4)
  {
    FourBytes();
  }

  lemma FieldsSlices(iid: nat, level: nat, vid: seq<Byte>, vec: Vec)
    ensures var bs := PrintFields(iid, level, vid, vec);
            && |bs| == 14 + |vid| + 4 * |vec| && bs[0..8] == Le(iid, 8) && bs[8..12] == Le(level, 4) && bs[12..14] == Le(|vid|, 2)
            && bs[14..14 + |vid|] == vid && bs[14 + |vid|..] == LeAll(vec, 4)
  {
    hide Le, LeAll;
    var bs := PrintFields(iid, level, vid, vec);
    var head := Le(iid, 8) + (Le(level, 4) + Le(|vid|, 2));
    assert |head| == 14 && head[0..8] == Le(iid, 8) && head[8..12] == Le(level, 4) && head[12..14] == Le(|vid|, 2);
    assert bs == head + (vid + LeAll(vec, 4));
    hide PrintFields;
  }

  /** The part of a record before the metadata. */
  lemma FieldsLayout(iid: nat, level: nat, vid: seq<Byte>, vec: Vec)
    requires Fits(iid, 8) && Fits(level, 4) && Fits(|vid|, 2)
    ensures var bs := PrintFields(iid, level, vid, vec);
            && |bs| == 14 + |vid| + 4 * |vec| && U64(bs, 0) == iid && U32(bs, 8) == level && U16(bs, 12) == |vid|
            && bs[14..14 + |vid|] == vid && forall j :: 0 <= j < |vec| ==> U32(bs, 14 + |vid| + 4 * j) == vec[j]
  {
    FieldsSlices(iid, level, vid, vec);
    hide Le, LeAll, Fits, PrintFields, U16, U32, U64;
    var bs, at := PrintFields(iid, level, vid, vec), 14 + |vid|;
    FieldAt(bs, 0, iid, 8);
    FieldAt(bs, 8, level, 4);
    FieldAt(bs, 12, |vid|, 2);
    forall j | 0 <= j < |vec| ensures U32(bs, at + 4 * j) == vec[j] {
      FourIsItem();
      ItemAt(vec, 4, j);
      assert bs[at..][j * 4..j * 4 + 4] == bs[at + 4 * j..at + 4 * j + 4];
      VecFits(vec, j);
      FieldAt(bs, at + 4 * j, vec[j], 4);
    }
  }

  lemma FourIsItem()
    ensures ItemSize(4)
  {
  }

  /** The items of a block stand one after the other. */
  lemma {:induction false} ItemAt(ns: seq<nat>, w: nat, j: nat)
    requires ItemSize(w) && j < |ns|
    ensures |LeAll(ns, w)| == |ns| * w && j * w + w <= |ns| * w && LeAll(ns, w)[j * w..j * w + w] == Le(ns[j], w)
  {
    hide Le;
    var n := |ns| - 1;
    Below(j, n, w);
    Below(n, n, w);
    if j < n {
      ItemAt(ns[..n], w, j);
    }
  }

  lemma Below(j: nat, n: nat, w: nat)
    requires ItemSize(w) && j <= n
    ensures j * w + w <= (n + 1) * w && (j < n ==> j * w + w <= n * w) && (j == n ==> j * w + w == (n + 1) * w)
  {
    if w == 4 {
      assert j * 4 + 4 <= (n + 1) * 4;
    } else {
      assert j * 8 + 8 <= (n + 1) * 8;
    }
  }

  /** One layer of a record: a count, then the ids. */
  lemma LayerLayout(ids: seq<nat>)
    requires Fits(|ids|, 4) && AllFit(ids, 8)
    ensures var bs := PrintLayer(ids);
            |bs| == 4 + 8 * |ids| && U32(bs, 0) == |ids| && forall j :: 0 <= j < |ids| ==> U64(bs, 4 + 8 * j) == ids[j]
  {
    hide Le, LeAll, Fits, U32, U64;
    var bs := PrintLayer(ids);
    assert bs[0..4] == Le(|ids|, 4) && bs[4..] == LeAll(ids, 8);
    FieldAt(bs, 0, |ids|, 4);
    BlockNumbers(bs, 4, ids);
  }

  /** A version-1 record goes from the vector straight to the layers; a version-2 record has a length and a blob between. */
  lemma RecordLayout(r: Rec)
    ensures PrintRec(1, r) == PrintFields(r.iid, r.level, r.vid, r.vec) + PrintLayers(r.layers)
    ensures PrintRec(2, r) == PrintFields(r.iid, r.level, r.vid, r.vec) + (Le(|r.meta|, 4) + r.meta) + PrintLayers(r.layers)
  {
    hide PrintFields, PrintLayers, Le;
    var f, m, ls := PrintFields(r.iid, r.level, r.vid, r.vec), Le(|r.meta|, 4) + r.meta, PrintLayers(r.layers);
    Assoc(f, m, ls);
    assert [] + ls == ls;
  }

  /** The neighbour lists of a node, in the order written. */
  ghost predicate Lists(v: Vertex, layers: seq<seq<nat>>) {
    |layers| == v.level + 1 && v.Shaped() && forall l :: 0 <= l < |layers| ==> Listed(v, l, layers[l])
  }

  lemma LayersLoad(v: Vertex, layers: seq<seq<nat>>, tail: seq<Byte>)
    requires Lists(v, layers)
    ensures LoadLayers(v.level + 1, 0, PrintLayers(layers) + tail, NoEdges(v.level)) == Ok((v.nbrs, tail))
  {
    hide Listed, LoadLayers, PrintLayers;
    assert UpTo(v, 0, NoEdges(v.level));
    assert layers[0..] == layers;
    LayersBack(layers, 0, NoEdges(v.level), v, tail);
  }

  /** A version-1 record, which has no metadata, loads as the node without any. */
  lemma RecordOneLoads(c: Codec, i: nat, v: Vertex, layers: seq<seq<nat>>, tail: seq<Byte>)
    requires Faithful(c) && Fits(i, 8) && Fits(v.level, 4) && Fits(|c.encodeId(v.vid)|, 2) && Lists(v, layers)
    ensures LoadRec(c, 1, |v.vec|, PrintFields(i, v.level, c.encodeId(v.vid), v.vec) + (PrintLayers(layers) + tail))
         == Ok((i, v.(meta := None), tail))
  {
    hide LoadFields, PrintFields, LoadLayers, PrintLayers, Fits, Lists, NoEdges, Faithful;
    FieldsBack(c, i, v.level, v.vid, v.vec, PrintLayers(layers) + tail);
    LayersLoad(v, layers, tail);
  }

  /** A version-2 record loads with what its blob encodes; no blob is no metadata, and one that does not decode is refused. */
  lemma RecordTwoLoads(c: Codec, i: nat, v: Vertex, blob: seq<Byte>, layers: seq<seq<nat>>, tail: seq<Byte>)
    requires Faithful(c) && Fits(i, 8) && Fits(v.level, 4) && Fits(|c.encodeId(v.vid)|, 2) && Fits(|blob|, 4) && Lists(v, layers)
    ensures LoadRec(c, 2, |v.vec|, PrintFields(i, v.level, c.encodeId(v.vid), v.vec) + (Le(|blob|, 4) + (blob + (PrintLayers(layers) + tail))))
         == if blob == [] then Ok((i, v.(meta := None), tail))
            else if c.decodeMeta(blob).None? then Err(BadText) else Ok((i, v.(meta := c.decodeMeta(blob)), tail))
  {
    hide LoadFields, PrintFields, LoadLayers, PrintLayers, Fits, Lists, NoEdges, Faithful, Le, Fixed;
    var t2 := PrintLayers(layers) + tail;
    FieldsBack(c, i, v.level, v.vid, v.vec, Le(|blob|, 4) + (blob + t2));
    FixedLe(|blob|, 4, blob + t2);
    TakeAll(blob, t2);
    assert blob == [] ==> blob + t2 == t2;
    LayersLoad(v, layers, tail);
  }

  // ---------- what a saved file brings back ----------

  /** Loading a saved file restores each node: its name, vector, level and neighbours, and under version 2 its metadata
      unless that was empty; under version 1 no node has any. */
  lemma NodeComesBack(c: Codec, version: nat, s: Index, img: Image, i: nat)
    requires Faithful(c) && (version == 1 || version == 2) && Inv(s) && FitsFile(c, s) && Depicts(c, s, img) && i in s.nodes
    ensures var r := Load(c, Print(version, img));
            && r.Ok? && i in r.value.nodes
            && r.value.nodes[i].(meta := None) == s.nodes[i].(meta := None)
            && r.value.nodes[i].meta == match s.nodes[i].meta
                 case None => None
                 case Some(m) => if version == 2 && m != map[] then Some(m) else None
  {
    hide Inv, FitsFile, Depicts, Faithful, Print, Load;
    RoundTrip(c, version, s, img);
  }

  /** Which indexes can be written. */
  lemma FitsInNumbers(c: Codec, s: Index)
    ensures FitsFile(c, s) <==>
      && s.dim < 0x1_0000_0000 && s.M < 0x1_0000_0000 && s.efc < 0x1_0000_0000 && s.maxLayer < 0x1_0000_0000
      && |s.nodes| < 0x1_0000_0000_0000_0000 && |s.deleted| < 0x1_0000_0000_0000_0000
      && (s.entry.Some? ==> s.entry.value < 0x8000_0000_0000_0000)
      && forall i :: i in s.nodes ==> NodeInNumbers(c, i, s.nodes[i])
  {
    Powers();
    hide Pow256, MetaBytes;
    forall i | i in s.nodes ensures FitsNode(c, i, s.nodes[i]) <==> NodeInNumbers(c, i, s.nodes[i]) {
      NodeFitsInNumbers(c, i, s.nodes[i]);
    }
    hide FitsNode, NodeInNumbers;
  }

  ghost predicate NodeInNumbers(c: Codec, i: nat, v: Vertex) {
    && i < 0x1_0000_0000_0000_0000 && v.level < 0x1_0000_0000 && |c.encodeId(v.vid)| < 0x1_0000
    && (v.meta.Some? && v.meta.value != map[] ==> |c.encodeMeta(v.meta.value)| < 0x1_0000_0000)
    && forall l: nat :: l <= v.level ==> |v.Nbrs(l)| < 0x1_0000_0000
  }

  lemma NodeFitsInNumbers(c: Codec, i: nat, v: Vertex)
    ensures FitsNode(c, i, v) <==> NodeInNumbers(c, i, v)
  {
    Powers();
    hide Pow256;
    if FitsNode(c, i, v) {
      forall l: nat | l <= v.level ensures |v.Nbrs(l)| < 0x1_0000_0000 {
        assert Fits(|v.Nbrs(l)|, 4);
      }
    }
  }
}
