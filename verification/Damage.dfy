/** Truncated files: exactly which of them still load, and as what. */
module Damage {
  import opened Types
  import opened Graph
  import opened Bytes
  import opened Format
  import opened Saved

  // ---------- a parse that stops short of the end is not changed by more input ----------

  lemma MoreFields(c: Codec, dim: nat, p: seq<Byte>, x: seq<Byte>)
    requires LoadFields(c, dim, p).Ok? && LoadFields(c, dim, p).value.1 != []
    ensures p != []
    ensures LoadFields(c, dim, p + x) == Ok((LoadFields(c, dim, p).value.0, LoadFields(c, dim, p).value.1 + x))
  {
    hide Fixed, Take, Floats;
    FixedReads(p, 8);
    FixedMore(p, 8, x);
    var r1 := Fixed(p, 8).value.1;
    FixedMore(r1, 4, x);
    var r2 := Fixed(r1, 4).value.1;
    FixedMore(r2, 2, x);
    var (n, r3) := Fixed(r2, 2).value;
    var r4 := Take(r3, n).1;
    TakeMore(r4, dim * 4, x);
    TakeMore(r3, n, x);
  }

  lemma FixedReads(p: seq<Byte>, w: nat)
    requires Fixed(p, w).Ok? && w > 0
    ensures p != []
  {
  }

  lemma MoreMeta(c: Codec, version: nat, p: seq<Byte>, x: seq<Byte>)
    requires LoadMeta(c, version, p).Ok? && LoadMeta(c, version, p).value.1 != []
    ensures p != []
    ensures LoadMeta(c, version, p + x) == Ok((LoadMeta(c, version, p).value.0, LoadMeta(c, version, p).value.1 + x))
  {
    if version >= 2 {
      hide Fixed, Take;
      FixedReads(p, 4);
      FixedMore(p, 4, x);
      var (n, r1) := Fixed(p, 4).value;
      if n != 0 {
        TakeMore(r1, n, x);
      }
    }
  }

  lemma {:induction false} MoreLayers(count: nat, l: nat, p: seq<Byte>, nbrs: map<nat, set<nat>>, x: seq<Byte>)
    requires l <= count && LoadLayers(count, l, p, nbrs).Ok? && LoadLayers(count, l, p, nbrs).value.1 != []
    ensures p != []
    ensures LoadLayers(count, l, p + x, nbrs) == Ok((LoadLayers(count, l, p, nbrs).value.0, LoadLayers(count, l, p, nbrs).value.1 + x))
    decreases count - l
  {
    if l < count {
      hide Fixed, Take, Items, Members;
      FixedReads(p, 4);
      FixedMore(p, 4, x);
      var (n, r1) := Fixed(p, 4).value;
      var (bs, r2) := Take(r1, n * 8);
      MoreLayers(count, l + 1, r2, if n == 0 then nbrs else nbrs[l := Members(Items(bs, 8).value)], x);
      TakeMore(r1, n * 8, x);
    }
  }

  lemma MoreRec(c: Codec, version: nat, dim: nat, p: seq<Byte>, x: seq<Byte>)
    requires LoadRec(c, version, dim, p).Ok? && LoadRec(c, version, dim, p).value.2 != []
    ensures p != []
    ensures var r := LoadRec(c, version, dim, p).value; LoadRec(c, version, dim, p + x) == Ok((r.0, r.1, r.2 + x))
  {
    hide LoadFields, LoadMeta, LoadLayers, NoEdges;
    var (f, r1) := LoadFields(c, dim, p).value;
    var (meta, r2) := LoadMeta(c, version, r1).value;
    MoreLayers(f.level + 1, 0, r2, NoEdges(f.level), x);
    MoreMeta(c, version, r1, x);
    MoreFields(c, dim, p, x);
  }

  lemma {:induction false} MoreRecs(c: Codec, version: nat, n: nat, p: seq<Byte>, s: Index, t: Index, rest: seq<Byte>, x: seq<Byte>)
    requires LoadRecs(c, version, n, p, s) == Ok((t, rest)) && rest != []
    ensures p != [] && LoadRecs(c, version, n, p + x, s) == Ok((t, rest + x))
    decreases n
  {
    hide *;
    if n == 0 {
      NoRecs(c, version, p, s);
      NoRecs(c, version, p + x, s);
    } else {
      var iid, v, r := FirstRec(c, version, n, p, s);
      MoreRecs(c, version, n - 1, r, File(s, iid, v), t, rest, x);
      MoreRec(c, version, s.dim, p, x);
      RecsStep(c, version, n, p + x, s, iid, v, r + x);
    }
  }

  lemma NoRecs(c: Codec, version: nat, p: seq<Byte>, s: Index)
    ensures LoadRecs(c, version, 0, p, s) == Ok((s, p))
  {
  }

  lemma FirstRec(c: Codec, version: nat, n: nat, p: seq<Byte>, s: Index) returns (iid: nat, v: Vertex, r: seq<Byte>)
    requires n > 0 && LoadRecs(c, version, n, p, s).Ok?
    ensures LoadRec(c, version, s.dim, p) == Ok((iid, v, r))
    ensures LoadRecs(c, version, n, p, s) == LoadRecs(c, version, n - 1, r, File(s, iid, v))
  {
    hide LoadRec, File;
    var (i, w, rest) := LoadRec(c, version, s.dim, p).value;
    iid, v, r := i, w, rest;
  }

  lemma RecsStep(c: Codec, version: nat, n: nat, p: seq<Byte>, s: Index, iid: nat, v: Vertex, r: seq<Byte>)
    requires n > 0 && LoadRec(c, version, s.dim, p) == Ok((iid, v, r))
    ensures LoadRecs(c, version, n, p, s) == LoadRecs(c, version, n - 1, r, File(s, iid, v))
  {
    hide LoadRec, File;
  }

  lemma MoreHeader(p: seq<Byte>, x: seq<Byte>)
    requires LoadHeader(p).Ok?
    ensures LoadHeader(p + x) == Ok((LoadHeader(p).value.0, LoadHeader(p).value.1 + x))
  {
    assert |p| >= 42;
    assert Take(p, 8).1 != [];
    hide Fixed, Take;
    TakeMore(p, 8, x);
    var r0 := Take(p, 8).1;
    FixedMore(r0, 2, x);
    var r1 := Fixed(r0, 2).value.1;
    FixedMore(r1, 4, x);
    var r2 := Fixed(r1, 4).value.1;
    FixedMore(r2, 4, x);
    var r3 := Fixed(r2, 4).value.1;
    FixedMore(r3, 4, x);
    var r4 := Fixed(r3, 4).value.1;
    FixedMore(r4, 4, x);
    var r5 := Fixed(r4, 4).value.1;
    FixedMore(r5, 8, x);
    FixedMore(Fixed(r5, 8).value.1, 8, x);
  }

  /** Once a body has parsed, what follows it does not change how it parsed. */
  lemma MoreBody(c: Codec, p: seq<Byte>, x: seq<Byte>)
    requires LoadBody(c, p).Ok?
    ensures var b := LoadBody(c, p).value; LoadBody(c, p + x) == Ok((b.0, b.1, b.2 + x))
  {
    hide LoadHeader, LoadRecs, Fixed, EmptyIndex, EntryOf;
    MoreHeader(p, x);
    var (h, r1) := LoadHeader(p).value;
    FixedMore(r1, 8, x);
    var (field, r2) := Fixed(r1, 8).value;
    var shell := EmptyIndex(h.dim, h.M, h.efc).(maxLayer := h.maxLayer, entry := EntryOf(field));
    var (s, r3) := LoadRecs(c, h.version, h.numNodes, r2, shell).value;
    FixedReads(r3, 8);
    FixedMore(r3, 8, x);
    MoreRecs(c, h.version, h.numNodes, r2, shell, s, r3, x);
  }

  // ---------- the tombstone list ----------

  lemma {:induction false} LeAllPrefix(ns: seq<nat>, m: nat)
    requires m <= |ns|
    ensures m * 8 <= |LeAll(ns, 8)| && LeAll(ns[..m], 8) == LeAll(ns, 8)[..m * 8]
  {
    if m == |ns| {
      assert ns[..m] == ns;
    } else {
      LeAllPrefix(ns[..|ns| - 1], m);
      assert ns[..|ns| - 1][..m] == ns[..m];
    }
  }

  /** What a cut tombstone list reads as: whole ids only. */
  lemma CutIds(ids: seq<nat>, q: seq<Byte>, x: seq<Byte>)
    requires AllFit(ids, 8) && q + x == LeAll(ids, 8)
    ensures |x| <= 8 * |ids|
    ensures Items(q, 8) == if |x| % 8 == 0 then Ok(ids[..|ids| - |x| / 8]) else Err(BadBuffer)
  {
    hide LeAll, FromLeAll, Fits, Pow256;
    assert |q| == 8 * |ids| - |x|;
    if |x| % 8 == 0 {
      var m := |ids| - |x| / 8;
      LeAllPrefix(ids, m);
      assert q == LeAll(ids[..m], 8);
      FromLeAllLeAll(ids[..m], 8);
    } else {
      assert |q| % 8 != 0;
    }
  }

  // ---------- the whole file ----------

  /** A saved file with its last `|x|` bytes missing loads if and only if the cut falls inside the tombstone list,
      between two ids. It then loads without complaint, and the tombstones cut off are live again. */
  lemma TruncatedLoadsIff(c: Codec, version: nat, s: Index, img: Image, p: seq<Byte>, x: seq<Byte>)
    requires Faithful(c) && Supported(version) && Inv(s) && FitsFile(c, s) && Depicts(c, s, img) && p + x == Print(version, img)
    ensures Load(c, p).Ok? <==> |x| <= 8 * |img.deleted| && |x| % 8 == 0
    ensures |x| <= 8 * |img.deleted| && |x| % 8 == 0 ==>
              Load(c, p) == Ok(Restored(version, s).(deleted := Members(img.deleted[..|img.deleted| - |x| / 8])))
  {
    hide *;
    PrintParts(version, img);
    TombstoneFacts(c, s, img);
    var n, ids := |img.deleted|, LeAll(img.deleted, 8);
    if |x| <= 8 * n {
      CutInside(c, version, s, img, p, x);
    } else {
      CutOutside(c, version, s, img, p, x);
    }
  }

  lemma TombstoneFacts(c: Codec, s: Index, img: Image)
    requires Inv(s) && FitsFile(c, s) && Depicts(c, s, img)
    ensures AllFit(img.deleted, 8) && IdsOk(s) && Fits(|img.deleted|, 8) && |LeAll(img.deleted, 8)| == 8 * |img.deleted| && ItemSize(8)
  {
    DeletedFit(c, s, img);
    DepictedRecs(c, s, img);
  }

  lemma CutInside(c: Codec, version: nat, s: Index, img: Image, p: seq<Byte>, x: seq<Byte>)
    requires Faithful(c) && Supported(version) && Inv(s) && FitsFile(c, s) && Depicts(c, s, img) && |x| <= 8 * |img.deleted|
    requires p + x == PrintBody(version, img, |img.deleted|, |img.deleted|) + LeAll(img.deleted, 8)
    ensures Load(c, p).Ok? <==> |x| % 8 == 0
    ensures |x| % 8 == 0 ==> Load(c, p) == Ok(Restored(version, s).(deleted := Members(img.deleted[..|img.deleted| - |x| / 8])))
  {
    hide *;
    TombstoneFacts(c, s, img);
    var n, body := |img.deleted|, PrintBody(version, img, |img.deleted|, |img.deleted|);
    CutAt(body, LeAll(img.deleted, 8), p, x);
    var q := p[|body|..];
    var t := BodyBack(c, version, s, img, n, n, q);
    CutIds(img.deleted, q, x);
    CutLoad(c, p, t, n, q, img.deleted, x);
    FiledAll(version, s, t);
  }

  lemma CutOutside(c: Codec, version: nat, s: Index, img: Image, p: seq<Byte>, x: seq<Byte>)
    requires Faithful(c) && Supported(version) && Inv(s) && FitsFile(c, s) && Depicts(c, s, img) && |x| > 8 * |img.deleted|
    requires p + x == PrintBody(version, img, |img.deleted|, |img.deleted|) + LeAll(img.deleted, 8)
    ensures !Load(c, p).Ok?
  {
    hide *;
    TombstoneFacts(c, s, img);
    var n, ids := |img.deleted|, LeAll(img.deleted, 8);
    var t := BodyBack(c, version, s, img, n, n, ids);
    LeftOver(c, p, x, t, n, ids);
    NoBody(c, p);
  }

  lemma LeftOver(c: Codec, p: seq<Byte>, x: seq<Byte>, t: Index, n: nat, rest: seq<Byte>)
    requires LoadBody(c, p + x) == Ok((t, n, rest))
    ensures LoadBody(c, p).Ok? ==> |x| <= |rest|
  {
    hide LoadBody;
    if LoadBody(c, p).Ok? {
      MoreBody(c, p, x);
    }
  }

  lemma CutAt(body: seq<Byte>, ids: seq<Byte>, p: seq<Byte>, x: seq<Byte>)
    requires p + x == body + ids && |x| <= |ids|
    ensures |body| <= |p| && p == body + p[|body|..] && p[|body|..] + x == ids
  {
    assert (p + x)[..|body|] == body && (p + x)[|body|..] == ids;
    assert p[..|body|] == body;
  }

  lemma NoBody(c: Codec, p: seq<Byte>)
    requires !LoadBody(c, p).Ok?
    ensures !Load(c, p).Ok?
  {
    hide LoadBody;
  }

  lemma CutLoad(c: Codec, p: seq<Byte>, t: Index, n: nat, q: seq<Byte>, ids: seq<nat>, x: seq<Byte>)
    requires LoadBody(c, p) == Ok((t, n, q)) && |ids| == n && |q| <= 8 * n && |x| <= 8 * n && ItemSize(8)
    requires Items(q, 8) == if |x| % 8 == 0 then Ok(ids[..n - |x| / 8]) else Err(BadBuffer)
    ensures Load(c, p).Ok? <==> |x| % 8 == 0
    ensures |x| % 8 == 0 ==> Load(c, p) == Ok(t.(deleted := Members(ids[..n - |x| / 8])))
  {
    hide LoadBody, Items;
    assert Take(q, n * 8).0 == q;
  }
}
