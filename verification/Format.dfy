/** The index file format: a printer and a parser over byte sequences, for both readable versions. */
module Format {
  import opened Types
  import opened Ranking
  import opened Graph
  import opened Bytes

  /** Text and metadata encodings (UTF-8 and JSON in the program). */
  datatype Codec = Codec(encodeId: string -> seq<Byte>, decodeId: seq<Byte> -> Option<string>,
                         encodeMeta: Meta -> seq<Byte>, decodeMeta: seq<Byte> -> Option<Meta>)

  /** The encodings can be undone, and an encoded record is never empty. */
  ghost predicate Faithful(c: Codec) {
    && (forall v :: c.decodeId(c.encodeId(v)) == Some(v))
    && forall m :: c.decodeMeta(c.encodeMeta(m)) == Some(m) && c.encodeMeta(m) != []
  }

  /** "VFIDX", 0, 1, 0 */
  const MAGIC: seq<Byte> := [0x56, 0x46, 0x49, 0x44, 0x58, 0, 1, 0]

  const CURRENT: nat := 2

  predicate Supported(version: nat) { version == 1 || version == 2 }

  // ---------- the contents of a file ----------

  /** One node, its sets listed in the order they are written. */
  datatype Rec = Rec(iid: nat, level: nat, vid: seq<Byte>, vec: Vec, meta: seq<Byte>, layers: seq<seq<nat>>)

  datatype Image = Image(dim: nat, M: nat, efc: nat, maxLayer: nat, entry: Option<nat>, recs: seq<Rec>, deleted: seq<nat>)

  // ---------- printing ----------

  function PrintLayer(ids: seq<nat>): seq<Byte> { Le(|ids|, 4) + LeAll(ids, 8) }

  function PrintLayers(layers: seq<seq<nat>>): seq<Byte> {
    if layers == [] then [] else PrintLayer(layers[0]) + PrintLayers(layers[1..])
  }

  function PrintMeta(version: nat, meta: seq<Byte>): seq<Byte> {
    if version >= 2 then Le(|meta|, 4) + meta else []
  }

  function PrintFields(iid: nat, level: nat, vid: seq<Byte>, vec: Vec): seq<Byte> {
    Le(iid, 8) + (Le(level, 4) + (Le(|vid|, 2) + (vid + LeAll(vec, 4))))
  }

  function PrintRec(version: nat, r: Rec): seq<Byte> {
    PrintFields(r.iid, r.level, r.vid, r.vec) + (PrintMeta(version, r.meta) + PrintLayers(r.layers))
  }

  function PrintRecs(version: nat, recs: seq<Rec>): seq<Byte> {
    if recs == [] then [] else PrintRec(version, recs[0]) + PrintRecs(version, recs[1..])
  }

  /** -1 stands for an empty index, in two's complement. */
  function EntryField(entry: Option<nat>): nat {
    if entry.Some? then entry.value else Pow256(8) - 1
  }

  function PrintHeader(version: nat, i: Image, numDeleted: nat): seq<Byte> {
    MAGIC + (Le(version, 2) + (Le(i.dim, 4) + (Le(i.M, 4) + (Le(i.efc, 4) + (Le(i.maxLayer, 4) + (Le(|i.recs|, 8) + Le(numDeleted, 8)))))))
  }

  /** Everything up to the tombstone ids, with the tombstone count as header and footer state it. */
  function PrintBody(version: nat, i: Image, header: nat, footer: nat): seq<Byte> {
    PrintHeader(version, i, header) + (Le(EntryField(i.entry), 8) + (PrintRecs(version, i.recs) + Le(footer, 8)))
  }

  function Print(version: nat, i: Image): seq<Byte> {
    PrintBody(version, i, |i.deleted|, |i.deleted|) + LeAll(i.deleted, 8)
  }

  // ---------- parsing ----------

  function Floats(bs: seq<Byte>): Result<Vec, LoadError> {
    var ns :- Items(bs, 4);
    FourBytes();
    Ok(ns)
  }

  lemma FourBytes()
    ensures Pow256(4) == 0x1_0000_0000
  {
    assert Pow256(1) == 256;
    assert Pow256(2) == 65536;
    assert Pow256(3) == 256 * 65536;
  }

  function LoadMeta(c: Codec, version: nat, rest: seq<Byte>): Result<(Option<Meta>, seq<Byte>), LoadError> {
    if version < 2 then Ok((None, rest)) else
    var (n, r1) :- Fixed(rest, 4);
    if n == 0 then Ok((None, r1)) else
    var (bs, r2) := Take(r1, n);
    var m := c.decodeMeta(bs);
    if m.None? then Err(BadText) else Ok((m, r2))
  }

  /** Layers `l` to `count`-1; a layer with no entries keeps the empty set it starts with. */
  function LoadLayers(count: nat, l: nat, rest: seq<Byte>, nbrs: map<nat, set<nat>>): Result<(map<nat, set<nat>>, seq<Byte>), LoadError>
    requires l <= count
    decreases count - l
  {
    if l == count then Ok((nbrs, rest)) else
    var (n, r1) :- Fixed(rest, 4);
    var (bs, r2) := Take(r1, n * 8);
    var ids :- Items(bs, 8);
    LoadLayers(count, l + 1, r2, if n == 0 then nbrs else nbrs[l := Members(ids)])
  }

  function Members(ids: seq<nat>): set<nat> { set x | x in ids }

  datatype Fields = Fields(iid: nat, level: nat, vid: string, vec: Vec)

  function LoadFields(c: Codec, dim: nat, rest: seq<Byte>): Result<(Fields, seq<Byte>), LoadError> {
    var (iid, r1) :- Fixed(rest, 8);
    var (level, r2) :- Fixed(r1, 4);
    var (n, r3) :- Fixed(r2, 2);
    var (idBytes, r4) := Take(r3, n);
    var vid := c.decodeId(idBytes);
    if vid.None? then Err(BadText) else
    var (vecBytes, r5) := Take(r4, dim * 4);
    var vec :- Floats(vecBytes);
    Ok((Fields(iid, level, vid.value, vec), r5))
  }

  function NoEdges(level: nat): map<nat, set<nat>> { map l | l in Layers(level) :: {} }

  function LoadRec(c: Codec, version: nat, dim: nat, rest: seq<Byte>): Result<(nat, Vertex, seq<Byte>), LoadError> {
    var (f, r1) :- LoadFields(c, dim, rest);
    var (meta, r2) :- LoadMeta(c, version, r1);
    var (nbrs, r3) :- LoadLayers(f.level + 1, 0, r2, NoEdges(f.level));
    Ok((f.iid, Vertex(f.vid, f.vec, f.level, meta, nbrs), r3))
  }

  function File(s: Index, iid: nat, v: Vertex): Index {
    s.(nodes := s.nodes[iid := v], idMap := s.idMap[v.vid := iid], nextId := Max(s.nextId, iid + 1))
  }

  function LoadRecs(c: Codec, version: nat, n: nat, rest: seq<Byte>, s: Index): Result<(Index, seq<Byte>), LoadError>
    decreases n
  {
    if n == 0 then Ok((s, rest)) else
    var (iid, v, r) :- LoadRec(c, version, s.dim, rest);
    LoadRecs(c, version, n - 1, r, File(s, iid, v))
  }

  datatype Header = Header(version: nat, dim: nat, M: nat, efc: nat, maxLayer: nat, numNodes: nat, numDeleted: nat)

  /** The fixed-width header is read whole before anything in it is checked. */
  function LoadHeader(bs: seq<Byte>): Result<(Header, seq<Byte>), LoadError> {
    if |bs| < 42 then Err(Truncated) else
    var (magic, r0) := Take(bs, 8);
    var (version, r1) :- Fixed(r0, 2);
    var (dim, r2) :- Fixed(r1, 4);
    var (m, r3) :- Fixed(r2, 4);
    var (efc, r4) :- Fixed(r3, 4);
    var (maxLayer, r5) :- Fixed(r4, 4);
    var (numNodes, r6) :- Fixed(r5, 8);
    var (numDeleted, r7) :- Fixed(r6, 8);
    if magic != MAGIC then Err(BadMagic) else
    if !Supported(version) then Err(BadVersion) else
    Ok((Header(version, dim, m, efc, maxLayer, numNodes, numDeleted), r7))
  }

  /** An entry field other than -1 that is negative as a signed number names no node; it is kept as an absent id. */
  function EntryOf(field: nat): Option<nat> {
    if field == Pow256(8) - 1 then None else Some(field)
  }

  /** Header, entry point, node records and the footer's count, which must match the header's. */
  function LoadBody(c: Codec, bs: seq<Byte>): Result<(Index, nat, seq<Byte>), LoadError> {
    var (h, r1) :- LoadHeader(bs);
    var (field, r2) :- Fixed(r1, 8);
    if h.dim < 1 || h.M < 2 || h.efc < h.M then Err(BadParameters) else
    var shell := EmptyIndex(h.dim, h.M, h.efc).(maxLayer := h.maxLayer, entry := EntryOf(field));
    var (s, r3) :- LoadRecs(c, h.version, h.numNodes, r2, shell);
    var (n, r4) :- Fixed(r3, 8);
    if n != h.numDeleted then Err(CountMismatch) else Ok((s, n, r4))
  }

  function Load(c: Codec, bs: seq<Byte>): Result<Index, LoadError> {
    var (s, n, r) :- LoadBody(c, bs);
    var ids :- Items(Take(r, n * 8).0, 8);
    Ok(s.(deleted := Members(ids)))
  }
}
