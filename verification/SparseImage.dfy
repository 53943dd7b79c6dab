/** Converting a raw HFS+ volume to a sparse image under its allocation bitmap. */
module SparseImage {
  import opened Bytes
  import opened SparseFormat
  import opened SparseEncode
  import opened Wrappers

  // ----- the writer's mutable state -----

  class Writer {
    var out: Bytes
    var chunks: nat
    var rawBlocks: nat
    var fillBlocks: nat
    var freeBlocks: nat
    var kind: Option<Kind>
    var count: nat
    var rawBuf: Bytes
    ghost var done: seq<Chunk>

    /** The abstract state: finished runs and the run being collected. */
    ghost function View(): State
      reads this
    {
      State(done, if kind.None? then None else Some(Chunk(kind.value, count, rawBuf)))
    }

    ghost predicate Valid()
      reads this
    {
      && Written(out, chunks, rawBlocks, fillBlocks, freeBlocks, done)
      && (kind.None? <==> count == 0) && (kind != Some(Raw) ==> rawBuf == [])
    }

    constructor ()
      ensures Valid() && View() == State([], None)
    {
      out := Zeros(28);
      chunks, rawBlocks, fillBlocks, freeBlocks, count := 0, 0, 0, 0, 0;
      kind, rawBuf, done := None, [], [];
      new;
      assert Zeros(28) + EncodeAll([]) == Zeros(28);
    }

    /** Writes the open run out, if there is one. */
    method FlushCurrent()
      requires Valid()
      modifies this
      ensures Valid() && View() == Flush(old(View()))
      ensures kind.None? && rawBuf == []
    {
      if kind.None? || count == 0 {
        return;
      }
      hide EncodeChunk, Written;
      ghost var c := Chunk(kind.value, count, rawBuf);
      var bytes := CurrentBytes(kind.value, count, rawBuf);
      WrittenChunk(out, chunks, rawBlocks, fillBlocks, freeBlocks, done, c);
      if kind == Some(Raw) {
        rawBlocks, rawBuf := rawBlocks + count, [];
      } else if kind == Some(Fill) {
        fillBlocks := fillBlocks + count;
      } else {
        freeBlocks := freeBlocks + count;
      }
      out, chunks, kind, count, done := out + bytes, chunks + 1, None, 0, done + [c];
    }

    method AddFree(n: nat)
      requires Valid() && n > 0
      modifies this
      ensures Valid() && View() == Extend(old(View()), DontCare, n, [])
    {
      hide Written;
      if kind != Some(DontCare) {
        FlushCurrent();
        kind := Some(DontCare);
      }
      assert rawBuf + [] == rawBuf && View().open.value.raw == rawBuf;
      count := count + n;
    }

    method AddZero()
      requires Valid()
      modifies this
      ensures Valid() && View() == Step(old(View()), Zero)
    {
      hide Written;
      if kind != Some(Fill) {
        FlushCurrent();
        kind := Some(Fill);
      }
      assert rawBuf + [] == rawBuf && View().open.value.raw == rawBuf;
      count := count + 1;
    }

    method AddBlock(block: Bytes)
      requires Valid()
      modifies this
      ensures Valid() && View() == Step(old(View()), Data(block))
    {
      hide Written;
      if kind != Some(Raw) || count >= MAX_RAW {
        FlushCurrent();
        kind := Some(Raw);
      }
      assert rawBuf == [] ==> rawBuf + block == block;
      rawBuf := rawBuf + block;
      count := count + 1;
    }
  }

  /** `<HHII`. */
  function ChunkHeader(code: nat, count: nat, size: nat): Bytes {
    LE(code, 2) + LE(0, 2) + LE(count, 4) + LE(size, 4)
  }

  /** The bytes written for the open run. */
  method CurrentBytes(kind: Kind, count: nat, raw: Bytes) returns (bytes: Bytes)
    requires kind != Raw ==> raw == []
    ensures bytes == EncodeChunk(Chunk(kind, count, raw))
  {
    match kind
    case Raw =>
      bytes := ChunkHeader(0xCAC1, count, 12 + |raw|) + raw;
    case Fill =>
      LEZero(4);
      bytes := ChunkHeader(0xCAC2, count, 16) + LE(0, 4);
    case DontCare =>
      bytes := ChunkHeader(0xCAC3, count, 12);
  }

  /** The output and the counters are those of the finished runs. */
  ghost predicate Written(out: Bytes, chunks: nat, raw: nat, fill: nat, free: nat, done: seq<Chunk>) {
    && out == Zeros(28) + EncodeAll(done) && chunks == |done|
    && raw == Blocks(done, Raw) && fill == Blocks(done, Fill) && free == Blocks(done, DontCare)
  }

  lemma WrittenChunk(out: Bytes, chunks: nat, raw: nat, fill: nat, free: nat, done: seq<Chunk>, c: Chunk)
    requires Written(out, chunks, raw, fill, free, done)
    ensures Written(out + EncodeChunk(c), chunks + 1, if c.kind == Raw then raw + c.count else raw,
                    if c.kind == Fill then fill + c.count else fill,
                    if c.kind == DontCare then free + c.count else free, done + [c])
  {
    hide EncodeChunk;
    assert (done + [c])[..|done|] == done;
  }

  // ----- blocks and their allocation bits -----

  function Pow2(k: nat): (r: nat)
    ensures r > 0
  {
    if k == 0 then 1 else 2 * Pow2(k - 1)
  }

  predicate Covers(bitmap: Bytes, n: nat) {
    n <= 8 * |bitmap|
  }

  /** `(bitmap[b >> 3] >> (7 - (b & 7))) & 1`. */
  predicate Allocated(bitmap: Bytes, b: nat)
    requires b / 8 < |bitmap|
  {
    bitmap[b / 8] / Pow2(7 - b % 8) % 2 == 1
  }

  function BlockAt(img: Bytes, b: nat): Bytes
    requires (b + 1) * BLOCK <= |img|
  {
    img[b * BLOCK..(b + 1) * BLOCK]
  }

  function ItemAt(img: Bytes, bitmap: Bytes, b: nat): Item
    requires (b + 1) * BLOCK <= |img| && b / 8 < |bitmap|
  {
    if !Allocated(bitmap, b) then Free
    else if BlockAt(img, b) == Zeros(BLOCK) then Zero
    else Data(BlockAt(img, b))
  }

  /** The first `n` blocks of the volume as the encoder sees them. */
  function Items(img: Bytes, bitmap: Bytes, n: nat): (items: seq<Item>)
    requires n * BLOCK <= |img| && Covers(bitmap, n)
    ensures |items| == n && ItemsOk(items)
  {
    seq(n, b requires 0 <= b < n => ItemAt(img, bitmap, b))
  }

  lemma ItemsSnoc(img: Bytes, bitmap: Bytes, n: nat)
    requires (n + 1) * BLOCK <= |img| && Covers(bitmap, n + 1)
    ensures Items(img, bitmap, n + 1) == Items(img, bitmap, n) + [ItemAt(img, bitmap, n)]
    ensures Fold(Items(img, bitmap, n + 1)) == Step(Fold(Items(img, bitmap, n)), ItemAt(img, bitmap, n))
  {
    hide ItemAt;
    var a, b := Items(img, bitmap, n + 1), Items(img, bitmap, n);
    assert a[..n] == b && a == b + [ItemAt(img, bitmap, n)];
  }

  lemma ZeroDiv(k: nat)
    ensures 0 / Pow2(k) == 0
  {
  }

  /** A batch whose bitmap bytes are all zero is a batch of free blocks. */
  lemma FreeBatch(img: Bytes, bitmap: Bytes, n: nat, m: nat)
    requires n % 8 == 0 && m % 8 == 0 && (n + m) * BLOCK <= |img| && n + m <= 8 * |bitmap|
    requires bitmap[n / 8..(n + m) / 8] == Zeros(m / 8)
    ensures Items(img, bitmap, n + m) == Items(img, bitmap, n) + Frees(m)
  {
    var a := Items(img, bitmap, n + m);
    forall b | n <= b < n + m ensures a[b] == Free {
      assert bitmap[n / 8..(n + m) / 8][b / 8 - n / 8] == 0;
      ZeroDiv(7 - b % 8);
    }
    forall b | 0 <= b < n + m ensures a[b] == (Items(img, bitmap, n) + Frees(m))[b] {
    }
  }

  lemma BlockInBatch(img: Bytes, start: nat, n: nat, i: nat)
    requires (start + n) * BLOCK <= |img| && i < n
    ensures (i + 1) * BLOCK <= n * BLOCK
    ensures img[start * BLOCK..(start + n) * BLOCK][i * BLOCK..(i + 1) * BLOCK] == BlockAt(img, start + i)
  {
    SliceSlice(img, start * BLOCK, (start + n) * BLOCK, i * BLOCK, (i + 1) * BLOCK);
  }

  /** The blocks of one batch, one at a time; a bitmap that ends too soon is an error. */
  method EncodeBatch(w: Writer, img: Bytes, bitmap: Bytes, start: nat, n: nat, buf: Bytes) returns (ok: bool)
    requires w.Valid() && (start + n) * BLOCK <= |img| && Covers(bitmap, start)
    requires buf == img[start * BLOCK..(start + n) * BLOCK]
    requires w.View() == Fold(Items(img, bitmap, start))
    modifies w
    ensures ok <==> Covers(bitmap, start + n)
    ensures ok ==> w.Valid() && w.View() == Fold(Items(img, bitmap, start + n))
  {
    hide Fold, Allocated, Step, Items, Zeros, BlockAt;
    for i := 0 to n
      invariant w.Valid() && Covers(bitmap, start + i) && w.View() == Fold(Items(img, bitmap, start + i))
    {
      var b := start + i;
      if b / 8 >= |bitmap| {
        return false;
      }
      ItemsSnoc(img, bitmap, b);
      if !Allocated(bitmap, b) {
        FreeIsStep(w.View());
        w.AddFree(1);
      } else {
        BlockInBatch(img, start, n, i);
        var block := buf[i * BLOCK..(i + 1) * BLOCK];
        if block == Zeros(BLOCK) {
          w.AddZero();
        } else {
          w.AddBlock(block);
        }
      }
    }
    return true;
  }

  lemma FreeIsStep(s: State)
    ensures Extend(s, DontCare, 1, []) == Step(s, Free)
  {
  }

  const BATCH: nat := 4096

  /** All blocks, batch by batch: a batch with no allocated block is skipped without reading it. */
  method EncodeBlocks(w: Writer, img: Bytes, bitmap: Bytes, total: nat) returns (ok: bool)
    requires w.Valid() && w.View() == State([], None) && total * BLOCK == |img|
    modifies w
    ensures ok <==> Covers(bitmap, total)
    ensures ok ==> w.Valid() && w.View() == Fold(Items(img, bitmap, total))
  {
    hide Fold, Step, Items, Extend, ItemAt;
    var blk, pos := 0, 0;
    NoItems(img, bitmap);
    while blk < total
      invariant blk <= total && pos == blk * BLOCK && Covers(bitmap, blk)
      invariant w.Valid() && w.View() == Fold(Items(img, bitmap, blk))
    {
      var n := if BATCH < total - blk then BATCH else total - blk;
      assert (blk + n) * BLOCK <= |img|;
      var skip := false;
      if blk % 8 == 0 && n % 8 == 0 {
        var s, e := blk / 8, (blk + n) / 8;
        skip := e <= |bitmap| && bitmap[s..e] == Zeros(e - s);
      }
      if skip {
        pos := (blk + n) * BLOCK;
        FreeBatch(img, bitmap, blk, n);
        BatchIsFold(Items(img, bitmap, blk), n);
        w.AddFree(n);
      } else {
        var good := EncodeBatch(w, img, bitmap, blk, n, img[pos..pos + n * BLOCK]);
        if !good {
          return false;
        }
        pos := pos + n * BLOCK;
      }
      blk := blk + n;
    }
    return true;
  }

  lemma NoItems(img: Bytes, bitmap: Bytes)
    ensures Fold(Items(img, bitmap, 0)) == State([], None)
  {
  }

  // ----- the allocation file -----

  function BE32At(b: Bytes, o: nat): nat {
    FromBE(ReadAt(b, o, 4))
  }

  /** The bytes of the extents from `i` on, up to the first empty one. */
  function AllocationBytes(img: Bytes, vh: Bytes, unit: nat, i: nat): Bytes
    decreases 8 - i
  {
    if i >= 8 || BE32At(vh, 132 + i * 8) == 0 then []
    else
      ReadAt(img, BE32At(vh, 128 + i * 8) * unit, BE32At(vh, 132 + i * 8) * unit) + AllocationBytes(img, vh, unit, i + 1)
  }

  function Prefix(b: Bytes, n: nat): Bytes {
    if n <= |b| then b[..n] else b
  }

  function VolumeHeader(img: Bytes): Bytes {
    ReadAt(img, 1024, 512)
  }

  /** The allocation bitmap: the longer of its logical size and what the volume needs. */
  function Bitmap(img: Bytes): Bytes {
    var vh := VolumeHeader(img);
    var size, needed := FromBE(ReadAt(vh, 112, 8)), (|img| / BLOCK + 7) / 8;
    Prefix(AllocationBytes(img, vh, BLOCK, 0), if size > needed then size else needed)
  }

  method ReadBitmap(img: Bytes, vh: Bytes, total: nat) returns (bitmap: Bytes)
    requires vh == VolumeHeader(img) && total == |img| / BLOCK
    ensures bitmap == Bitmap(img)
  {
    hide BE32At, ReadAt, FromBE;
    var size := FromBE(ReadAt(vh, 112, 8));
    bitmap := [];
    var i := 0;
    while i < 8 && BE32At(vh, 132 + i * 8) != 0
      invariant 0 <= i <= 8
      invariant bitmap + AllocationBytes(img, vh, BLOCK, i) == AllocationBytes(img, vh, BLOCK, 0)
    {
      var start, count := BE32At(vh, 128 + i * 8), BE32At(vh, 132 + i * 8);
      bitmap := bitmap + ReadAt(img, start * BLOCK, count * BLOCK);
      i := i + 1;
    }
    var needed := (total + 7) / 8;
    var n := if size > needed then size else needed;
    bitmap := Prefix(bitmap, n);
  }

  // ----- the conversion -----

  predicate SignatureOk(vh: Bytes) {
    |vh| >= 2 && (vh[..2] == [72, 88] || vh[..2] == [72, 43])
  }

  /** Whole blocks, an HFS+ signature, a bitmap that covers every block, and a count that fits its field. */
  predicate Convertible(img: Bytes) {
    && |img| % BLOCK == 0 && SignatureOk(VolumeHeader(img))
    && Covers(Bitmap(img), |img| / BLOCK) && |img| / BLOCK < 0x1_0000_0000
  }

  function VolumeItems(img: Bytes): seq<Item>
    requires Convertible(img)
  {
    Items(img, Bitmap(img), |img| / BLOCK)
  }

  datatype Result = Failed | Converted(image: Bytes, raw: nat, fill: nat, free: nat)

  lemma FinishedImage(out: Bytes, done: seq<Chunk>, total: nat)
    requires out == Zeros(28) + EncodeAll(done)
    ensures Splice(out, 0, Header(total, |done|)) == Header(total, |done|) + EncodeAll(done)
  {
    hide EncodeAll, Header;
  }

  /**
   * The conversion: it fails exactly on volumes that are not convertible. Its image reads back as the runs
   * of the plain one-block-at-a-time encoder, and its three counters add up to the volume's blocks.
   */
  method Convert(img: Bytes) returns (r: Result)
    ensures r.Converted? <==> Convertible(img)
    ensures r.Converted? ==> ReadImage(r.image) == Some((|img| / BLOCK, Encode(VolumeItems(img))))
    ensures r.Converted? ==> r.raw + r.fill + r.free == |img| / BLOCK
    ensures r.Converted? ==>
      var cs := Encode(VolumeItems(img));
      r.raw == Blocks(cs, Raw) && r.fill == Blocks(cs, Fill) && r.free == Blocks(cs, DontCare)
  {
    hide Items, Fold, Bitmap, ReadImage, Header, EncodeAll, Blocks, ItemsOk;
    if |img| % BLOCK != 0 {
      return Failed;
    }
    var total := |img| / BLOCK;
    var vh := VolumeHeader(img);
    if !SignatureOk(vh) {
      return Failed;
    }
    var bitmap := ReadBitmap(img, vh, total);
    var w := new Writer();
    var ok := EncodeBlocks(w, img, bitmap, total);
    if !ok {
      return Failed;
    }
    w.FlushCurrent();
    if total >= 0x1_0000_0000 {
      return Failed;
    }
    var items := Items(img, bitmap, total);
    EncodeCorrect(items);
    EncodeFits(items);
    assert w.done == Encode(items);
    BlocksAddUp(w.done);
    ImageRoundTrip(total, w.done);
    FinishedImage(w.out, w.done, total);
    return Converted(Splice(w.out, 0, Header(total, w.chunks)), w.rawBlocks, w.fillBlocks, w.freeBlocks);
  }

  /** The image's runs hold every allocated block exactly and say nothing of the others. */
  lemma AllocatedBlocksPreserved(img: Bytes, b: nat)
    requires Convertible(img) && b < |img| / BLOCK
    ensures var cs := Encode(VolumeItems(img));
            && ChunksOk(cs) && Maximal(cs) && |ExpandAll(cs)| == |img| / BLOCK
            && ExpandAll(cs)[b] == if Allocated(Bitmap(img), b) then Some(BlockAt(img, b)) else None
  {
    hide Bitmap, Encode, Allocated, SignatureOk, Maximal, ChunksOk;
    EncodeCorrect(VolumeItems(img));
    assert VolumeItems(img)[b] == ItemAt(img, Bitmap(img), b);
  }
}
