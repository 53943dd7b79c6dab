/** The Android sparse image: runs of blocks, their bytes, and a reader for them. */
module SparseFormat {
  import opened Bytes
  import opened Wrappers

  const BLOCK: nat := 4096
  const MAX_RAW: nat := 16384
  const SPARSE_MAGIC: nat := 0xED26FF3A

  datatype Kind = Raw | Fill | DontCare

  /** A run of `count` blocks; only a raw run carries bytes. */
  datatype Chunk = Chunk(kind: Kind, count: nat, raw: Bytes)

  predicate ChunkOk(c: Chunk) {
    c.count > 0 && |c.raw| == (if c.kind == Raw then c.count * BLOCK else 0)
  }

  // ----- what a run stands for -----

  /** The blocks of a run: contents, or nothing at all for a don't-care run. */
  function Expand(c: Chunk): (bs: seq<Option<Bytes>>)
    requires ChunkOk(c)
    ensures |bs| == c.count
  {
    match c.kind
    case Raw => seq(c.count, i requires 0 <= i < c.count => Some(c.raw[i * BLOCK..(i + 1) * BLOCK]))
    case Fill => seq(c.count, _ => Some(Zeros(BLOCK)))
    case DontCare => seq(c.count, _ => None)
  }

  predicate ChunksOk(cs: seq<Chunk>) {
    forall i :: 0 <= i < |cs| ==> ChunkOk(cs[i])
  }

  function ExpandAll(cs: seq<Chunk>): seq<Option<Bytes>>
    requires ChunksOk(cs)
  {
    if cs == [] then [] else ExpandAll(cs[..|cs| - 1]) + Expand(cs[|cs| - 1])
  }

  /** The blocks covered by the runs of one kind. */
  function Blocks(cs: seq<Chunk>, k: Kind): nat {
    if cs == [] then 0
    else Blocks(cs[..|cs| - 1], k) + if cs[|cs| - 1].kind == k then cs[|cs| - 1].count else 0
  }

  lemma {:induction false} BlocksAddUp(cs: seq<Chunk>)
    requires ChunksOk(cs)
    ensures Blocks(cs, Raw) + Blocks(cs, Fill) + Blocks(cs, DontCare) == |ExpandAll(cs)|
  {
    if cs != [] {
      BlocksAddUp(cs[..|cs| - 1]);
    }
  }

  // ----- bytes -----

  function TypeCode(k: Kind): nat {
    match k case Raw => 0xCAC1 case Fill => 0xCAC2 case DontCare => 0xCAC3
  }

  function Body(c: Chunk): Bytes {
    if c.kind == Fill then Zeros(4) else c.raw
  }

  /** `<HHII`: type, zero, blocks, total size in bytes; then the body. */
  function EncodeChunk(c: Chunk): Bytes {
    LE(TypeCode(c.kind), 2) + LE(0, 2) + LE(c.count, 4) + LE(12 + |Body(c)|, 4) + Body(c)
  }

  function EncodeAll(cs: seq<Chunk>): Bytes {
    if cs == [] then [] else EncodeAll(cs[..|cs| - 1]) + EncodeChunk(cs[|cs| - 1])
  }

  /** `<IHHHHIIII`. */
  function Header(blocks: nat, chunks: nat): (h: Bytes)
    ensures |h| == 28
  {
    FixedHeader() + LE(blocks, 4) + LE(chunks, 4) + LE(0, 4)
  }

  /** Magic, version 1.0, header sizes 28 and 12, block size. */
  function FixedHeader(): (h: Bytes)
    ensures |h| == 16
  {
    LE(SPARSE_MAGIC, 4) + LE(1, 2) + LE(0, 2) + LE(28, 2) + LE(12, 2) + LE(BLOCK, 4)
  }

  // ----- a reader that trusts only the size fields -----

  datatype Parsed = Parsed(chunk: Chunk, rest: Bytes)

  /** Takes one chunk off the front, as long as its size field says. */
  function ReadChunk(b: Bytes): Option<Parsed> {
    if |b| < 12 then None
    else
      var code, count, size := FromLE(b[..2]), FromLE(b[4..8]), FromLE(b[8..12]);
      if size < 12 || size > |b| || count == 0 then None
      else if code == 0xCAC1 && size == 12 + count * BLOCK then Some(Parsed(Chunk(Raw, count, b[12..size]), b[size..]))
      else if code == 0xCAC2 && size == 16 && b[12..16] == Zeros(4) then Some(Parsed(Chunk(Fill, count, []), b[16..]))
      else if code == 0xCAC3 && size == 12 then Some(Parsed(Chunk(DontCare, count, []), b[12..]))
      else None
  }

  /** Reads exactly `n` chunks and nothing after them. */
  function ReadChunks(b: Bytes, n: nat): Option<seq<Chunk>> {
    if n == 0 then (if b == [] then Some([]) else None)
    else
      var p := ReadChunk(b);
      if p.None? then None
      else
        var r := ReadChunks(p.value.rest, n - 1);
        if r.None? then None else Some([p.value.chunk] + r.value)
  }

  predicate ChunkFits(c: Chunk) {
    ChunkOk(c) && c.count < 0x1_0000_0000 && (c.kind == Raw ==> c.count <= MAX_RAW)
  }

  lemma EncodedParts(c: Chunk, rest: Bytes)
    ensures var b := EncodeChunk(c) + rest;
            && |b| == 12 + |Body(c)| + |rest|
            && b[..2] == LE(TypeCode(c.kind), 2) && b[4..8] == LE(c.count, 4) && b[8..12] == LE(12 + |Body(c)|, 4)
            && b[12..12 + |Body(c)|] == Body(c) && b[12 + |Body(c)|..] == rest
  {
  }

  /** Every chunk's size field is its encoded length: the reader takes off exactly what was written. */
  lemma ChunkRoundTrip(c: Chunk, rest: Bytes)
    requires ChunkFits(c)
    ensures ReadChunk(EncodeChunk(c) + rest) == Some(Parsed(c, rest))
  {
    hide EncodeChunk;
    EncodedParts(c, rest);
    Pow256Values();
    LERoundTrip(TypeCode(c.kind), 2);
    LERoundTrip(c.count, 4);
    LERoundTrip(12 + |Body(c)|, 4);
  }

  lemma {:induction false} EncodeAllFront(cs: seq<Chunk>)
    requires cs != []
    ensures EncodeAll(cs) == EncodeChunk(cs[0]) + EncodeAll(cs[1..])
  {
    hide EncodeChunk;
    if |cs| > 1 {
      EncodeAllFront(cs[..|cs| - 1]);
      assert cs[..|cs| - 1][1..] == cs[1..][..|cs| - 2];
    } else {
      assert cs[..0] == [] && cs[1..] == [];
    }
  }

  lemma {:induction false} ChunksRoundTrip(cs: seq<Chunk>)
    requires forall i :: 0 <= i < |cs| ==> ChunkFits(cs[i])
    ensures ReadChunks(EncodeAll(cs), |cs|) == Some(cs)
  {
    hide EncodeChunk, ReadChunk, ChunkFits;
    if cs != [] {
      EncodeAllFront(cs);
      ChunkRoundTrip(cs[0], EncodeAll(cs[1..]));
      ChunksRoundTrip(cs[1..]);
      assert cs == [cs[0]] + cs[1..];
    }
  }

  /** The whole image: header geometry, then exactly the announced chunks. */
  function ReadImage(b: Bytes): Option<(nat, seq<Chunk>)> {
    if |b| < 28 || b[..16] != FixedHeader() || b[24..28] != Zeros(4) then None
    else
      var r := ReadChunks(b[28..], FromLE(b[20..24]));
      if r.None? then None else Some((FromLE(b[16..20]), r.value))
  }

  lemma HeaderParts(blocks: nat, chunks: nat, rest: Bytes)
    ensures var b := Header(blocks, chunks) + rest;
            && b[..16] == FixedHeader() && b[16..20] == LE(blocks, 4) && b[20..24] == LE(chunks, 4)
            && b[24..28] == Zeros(4) && b[28..] == rest
  {
    hide FixedHeader, LE;
    LEZero(4);
  }

  lemma ImageRoundTrip(blocks: nat, cs: seq<Chunk>)
    requires blocks < 0x1_0000_0000 && |cs| < 0x1_0000_0000 && forall i :: 0 <= i < |cs| ==> ChunkFits(cs[i])
    ensures ReadImage(Header(blocks, |cs|) + EncodeAll(cs)) == Some((blocks, cs))
  {
    hide Header, ReadChunks, ChunkFits;
    HeaderParts(blocks, |cs|, EncodeAll(cs));
    Pow256Values();
    LERoundTrip(blocks, 4);
    LERoundTrip(|cs|, 4);
    ChunksRoundTrip(cs);
  }
}
