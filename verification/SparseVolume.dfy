/** What the conversion keeps of an HFS+ volume, in the volume's own allocation blocks. */
module SparseVolume {
  import opened Arithmetic
  import opened Bytes
  import opened Wrappers
  import opened SparseFormat
  import opened SparseEncode
  import opened SparseImage

  /** The allocation block size the volume header states; the tool prints it and works in blocks of 4096 bytes. */
  function VolumeBlockSize(img: Bytes): nat {
    BE32At(VolumeHeader(img), 40)
  }

  function VolumeBlocks(img: Bytes): nat {
    BE32At(VolumeHeader(img), 44)
  }

  /** The volume's own allocation bitmap: its extents counted in the volume's own blocks, cut to its logical size. */
  function OwnBitmap(img: Bytes): Bytes {
    Prefix(AllocationBytes(img, VolumeHeader(img), VolumeBlockSize(img), 0), FromBE(ReadAt(VolumeHeader(img), 112, 8)))
  }

  /** The volume has a block `b` and marks it allocated. */
  predicate OwnAllocated(img: Bytes, b: nat) {
    b < VolumeBlocks(img) && b / 8 < |OwnBitmap(img)| && Allocated(OwnBitmap(img), b)
  }

  /** Byte `p` of the volume lies in its allocation block `b`. */
  predicate InBlock(img: Bytes, b: nat, p: nat) {
    b * VolumeBlockSize(img) <= p < (b + 1) * VolumeBlockSize(img) && p < |img|
  }

  lemma RunsExpand(img: Bytes)
    requires Convertible(img)
    ensures ChunksOk(Encode(VolumeItems(img)))
  {
    hide Bitmap, Encode, Allocated, SignatureOk, Maximal, ChunksOk;
    EncodeCorrect(VolumeItems(img));
  }

  /** What a reader of the converted image finds, block by block. */
  function ConvertedBlocks(img: Bytes): seq<Option<Bytes>>
    requires Convertible(img)
  {
    RunsExpand(img);
    ExpandAll(Encode(VolumeItems(img)))
  }

  /** The converted image holds the block with byte `p`. */
  predicate ByteKept(img: Bytes, p: nat)
    requires Convertible(img)
  {
    var blocks := ConvertedBlocks(img);
    p / BLOCK < |blocks| && (p / BLOCK + 1) * BLOCK <= |img| && blocks[p / BLOCK] == Some(BlockAt(img, p / BLOCK))
  }

  /** Every byte of every allocated block of the volume is kept. */
  ghost predicate KeepsVolume(img: Bytes)
    requires Convertible(img)
  {
    forall b, p :: OwnAllocated(img, b) && InBlock(img, b, p) ==> ByteKept(img, p)
  }

  lemma SameBit(a: Bytes, n: nat, b: nat)
    requires b / 8 < n && b / 8 < |a|
    ensures b / 8 < |Prefix(a, n)| && Allocated(Prefix(a, n), b) == Allocated(a, b)
  {
  }

  /** In blocks of 4096 bytes the tool's bitmap is the volume's. */
  lemma OwnIsRead(img: Bytes, b: nat)
    requires Convertible(img) && VolumeBlockSize(img) == BLOCK && b < |img| / BLOCK && OwnAllocated(img, b)
    ensures b / 8 < |Bitmap(img)| && Allocated(Bitmap(img), b)
  {
    hide AllocationBytes, Allocated, Prefix, BE32At, SignatureOk, ReadAt, FromBE;
    var vh := VolumeHeader(img);
    var size, needed := FromBE(ReadAt(vh, 112, 8)), (|img| / BLOCK + 7) / 8;
    var a := AllocationBytes(img, vh, BLOCK, 0);
    CutSize(a, size);
    SameBit(a, size, b);
    SameBit(a, if size > needed then size else needed, b);
  }

  lemma CutSize(a: Bytes, n: nat)
    ensures |Prefix(a, n)| <= n && |Prefix(a, n)| <= |a|
  {
  }

  lemma KeptAt4096(img: Bytes, b: nat, p: nat)
    requires Convertible(img) && VolumeBlockSize(img) == BLOCK && OwnAllocated(img, b) && InBlock(img, b, p)
    ensures ByteKept(img, p)
  {
    hide OwnAllocated, Bitmap, Allocated, Encode, VolumeItems, ExpandAll, VolumeBlockSize, SignatureOk, ChunksOk;
    assert p / BLOCK == b;
    assert b < |img| / BLOCK;
    OwnIsRead(img, b);
    AllocatedBlocksPreserved(img, b);
  }

  /** The bitmap the tool reads marks the 4096-byte block with byte `p`. */
  predicate Marked(img: Bytes, p: nat) {
    p / BLOCK / 8 < |Bitmap(img)| && Allocated(Bitmap(img), p / BLOCK)
  }

  lemma KeptIffMarked(img: Bytes, p: nat)
    requires Convertible(img) && p < |img|
    ensures ByteKept(img, p) <==> Marked(img, p)
  {
    hide Bitmap, Allocated, Encode, VolumeItems, ExpandAll, SignatureOk, ChunksOk;
    assert p / BLOCK < |img| / BLOCK;
    AllocatedBlocksPreserved(img, p / BLOCK);
  }

  /** A volume of any block size is kept if and only if the tool's bitmap marks what the volume's own marks. */
  lemma KeepsIff(img: Bytes)
    requires Convertible(img)
    ensures KeepsVolume(img) <==> forall b, p :: OwnAllocated(img, b) && InBlock(img, b, p) ==> Marked(img, p)
  {
    hide Convertible, OwnAllocated, ByteKept, Marked, VolumeBlockSize;
    forall b, p | OwnAllocated(img, b) && InBlock(img, b, p) ensures ByteKept(img, p) <==> Marked(img, p) {
      KeptIffMarked(img, p);
    }
  }

  // ----- a volume with another block size -----

  /** A volume header: block size, total blocks, and a bitmap of `bytes` bytes in `count` blocks from block 3. */
  function HeaderWith(size: nat, total: nat, bytes: nat, count: nat): (h: Bytes)
    ensures |h| == 512
  {
    [72, 43] + Zeros(38) + (BE(size, 4) + BE(total, 4)) + Zeros(64) + (BE(bytes, 8) + Zeros(8)) +
    (BE(3, 4) + BE(count, 4) + Zeros(376))
  }

  /** How many 4096-byte blocks the volume below has. */
  function LosingBlocks(size: nat): nat {
    size / 1024 + 4
  }

  /** How many of its own. */
  function LosingTotal(size: nat): nat
    requires size > 0
  {
    LosingBlocks(size) * BLOCK / size
  }

  /** One bitmap block if that is enough for the tool as well; else an extent up to the end of the volume. */
  function LosingCount(size: nat): nat {
    if LosingBlocks(size) <= 8 * BLOCK then 1 else LosingBlocks(size)
  }

  lemma LosingFits(size: nat)
    requires 512 <= size < 0x1_0000_0000
    ensures 4 <= LosingTotal(size) < 37 && 4 * size <= LosingBlocks(size) * BLOCK
  {
    var len := LosingBlocks(size) * BLOCK;
    assert 4 * size <= len < 37 * size;
    DivLess(len, size, 37);
    DivSplit(len, size);
    if LosingTotal(size) < 4 {
      MulNext(LosingTotal(size), 4, size);
    }
  }

  function LosingHeader(size: nat): (h: Bytes)
    requires size > 0
    ensures |h| == 512
  {
    HeaderWith(size, LosingTotal(size), (LosingTotal(size) + 7) / 8, LosingCount(size))
  }

  /** A volume with block size `size` whose own bitmap marks its first block allocated. */
  function LosingVolume(size: nat): (img: Bytes)
    requires size >= 512
    ensures |img| == LosingBlocks(size) * BLOCK
  {
    var zeros := Zeros(LosingBlocks(size) * BLOCK);
    Splice(Splice(zeros, 1024, LosingHeader(size)), 3 * size, [0x80])
  }

  lemma HeaderWithFields(size: nat, total: nat, bytes: nat, count: nat)
    requires size < Pow256(4) && total < Pow256(4) && bytes < Pow256(8) && count < Pow256(4)
    ensures var h := HeaderWith(size, total, bytes, count);
            && SignatureOk(h) && BE32At(h, 40) == size && BE32At(h, 44) == total && FromBE(ReadAt(h, 112, 8)) == bytes
            && BE32At(h, 128) == 3 && BE32At(h, 132) == count && BE32At(h, 140) == 0
  {
    hide BE, FromBE, Pow256;
    var h := HeaderWith(size, total, bytes, count);
    Pow256Values();
    assert h[..2] == [72, 43];
    assert ReadAt(h, 40, 4) == BE(size, 4) && ReadAt(h, 44, 4) == BE(total, 4) && ReadAt(h, 112, 8) == BE(bytes, 8);
    assert ReadAt(h, 128, 4) == BE(3, 4) && ReadAt(h, 132, 4) == BE(count, 4) && ReadAt(h, 140, 4) == Zeros(4);
    BERoundTrip(size, 4);
    BERoundTrip(total, 4);
    BERoundTrip(bytes, 8);
    BERoundTrip(3, 4);
    BERoundTrip(count, 4);
    ZerosAreZero(4);
  }

  lemma {:induction false} ZerosAreZero(n: nat)
    ensures FromBE(Zeros(n)) == 0
  {
    if n > 0 {
      ZerosAreZero(n - 1);
      assert Zeros(n)[..n - 1] == Zeros(n - 1);
    }
  }

  lemma LosingBytes(size: nat)
    requires 512 <= size < 0x1_0000_0000 && size != BLOCK
    ensures var img := LosingVolume(size);
            && VolumeHeader(img) == LosingHeader(size)
            && 3 * size < |img| && img[3 * size] == 0x80 && 3 * BLOCK < |img| && img[3 * BLOCK] == 0
  {
    hide LosingHeader, Splice;
    LosingFits(size);
    var img, h := LosingVolume(size), LosingHeader(size);
    var zeros := Zeros(LosingBlocks(size) * BLOCK);
    var one := Splice(zeros, 1024, h);
    assert img[3 * size..3 * size + 1][0] == 0x80;
    assert one[1024..1024 + |h|] == h;
    forall i | 0 <= i < 512 ensures img[1024 + i] == h[i] {
      assert one[1024..1024 + |h|][i] == h[i];
    }
    assert ReadAt(img, 1024, 512) == h;
  }

  lemma LosingFields(size: nat)
    requires 512 <= size < 0x1_0000_0000 && size != BLOCK
    ensures var vh := VolumeHeader(LosingVolume(size));
            && SignatureOk(vh) && BE32At(vh, 40) == size && BE32At(vh, 44) == LosingTotal(size)
            && FromBE(ReadAt(vh, 112, 8)) == (LosingTotal(size) + 7) / 8
            && BE32At(vh, 128) == 3 && BE32At(vh, 132) == LosingCount(size) && BE32At(vh, 140) == 0
  {
    hide LosingVolume, HeaderWith, ReadAt, BE32At, FromBE, SignatureOk, VolumeHeader, Pow256, LosingTotal;
    LosingBytes(size);
    Pow256Values();
    LosingFits(size);
    HeaderWithFields(size, LosingTotal(size), (LosingTotal(size) + 7) / 8, LosingCount(size));
  }

  lemma LosingBitmaps(size: nat)
    requires 512 <= size < 0x1_0000_0000 && size != BLOCK
    ensures var img := LosingVolume(size);
            && OwnBitmap(img) == Prefix(ReadAt(img, 3 * size, LosingCount(size) * size), (LosingTotal(size) + 7) / 8)
            && AllocationBytes(img, VolumeHeader(img), BLOCK, 0) == ReadAt(img, 3 * BLOCK, LosingCount(size) * BLOCK)
  {
    hide LosingVolume, ReadAt, BE32At, FromBE, AllocationBytes, VolumeHeader, Prefix, LosingTotal;
    var img, vh := LosingVolume(size), VolumeHeader(LosingVolume(size));
    LosingFields(size);
    OneExtent(img, vh, size);
    OneExtent(img, vh, BLOCK);
  }

  lemma LosingConverts(size: nat)
    requires 512 <= size < 0x1_0000_0000 && size != BLOCK
    ensures Convertible(LosingVolume(size))
  {
    hide LosingVolume, ReadAt, FromBE, SignatureOk, AllocationBytes, VolumeHeader, Bitmap, OwnBitmap, LosingTotal;
    LosingFields(size);
    LosingBitmaps(size);
    LosingCovers(size, LosingVolume(size));
  }

  lemma OneExtent(img: Bytes, vh: Bytes, unit: nat)
    requires BE32At(vh, 132) != 0 && BE32At(vh, 140) == 0
    ensures AllocationBytes(img, vh, unit, 0) == ReadAt(img, BE32At(vh, 128) * unit, BE32At(vh, 132) * unit)
  {
    hide BE32At, ReadAt;
    assert AllocationBytes(img, vh, unit, 1) == [];
    assert AllocationBytes(img, vh, unit, 0) ==
           ReadAt(img, BE32At(vh, 128) * unit, BE32At(vh, 132) * unit) + AllocationBytes(img, vh, unit, 1);
  }

  lemma LosingCovers(size: nat, img: Bytes)
    requires 512 <= size < 0x1_0000_0000 && |img| == LosingBlocks(size) * BLOCK
    requires AllocationBytes(img, VolumeHeader(img), BLOCK, 0) == ReadAt(img, 3 * BLOCK, LosingCount(size) * BLOCK)
    ensures Covers(Bitmap(img), |img| / BLOCK) && |img| / BLOCK < 0x1_0000_0000
  {
    hide AllocationBytes, FromBE, VolumeHeader;
    var n := LosingBlocks(size);
    var a := ReadAt(img, 3 * BLOCK, LosingCount(size) * BLOCK);
    assert n <= 8 * BLOCK ==> |a| == BLOCK;
    assert n > 8 * BLOCK ==> |a| == (n - 3) * BLOCK;
    assert |img| / BLOCK == n && (n + 7) / 8 <= |a|;
  }

  lemma FirstBit(a: Bytes)
    requires |a| > 0
    ensures a[0] == 0x80 ==> Allocated(a, 0)
    ensures a[0] == 0 ==> !Allocated(a, 0)
  {
    assert Pow2(7) == 2 * Pow2(6) && Pow2(6) == 2 * Pow2(5) && Pow2(5) == 2 * Pow2(4) && Pow2(4) == 2 * Pow2(3);
    assert Pow2(3) == 8;
  }

  /**
   * A volume that has a first block and marks it allocated, none of which is in the converted image, nor is the volume
   * header. For block sizes up to 16 MiB its bitmap lies inside the volume.
   */
  lemma LosesFirstBlock(size: nat)
    requires 512 <= size < 0x1_0000_0000 && size != BLOCK
    ensures var img := LosingVolume(size);
            && Convertible(img) && VolumeBlockSize(img) == size && VolumeBlocks(img) == |img| / size
            && OwnAllocated(img, 0) && InBlock(img, 0, 0) && !ByteKept(img, 0) && !ByteKept(img, 1024) && !KeepsVolume(img)
    ensures size <= 0x100_0000 ==>
              BE32At(VolumeHeader(LosingVolume(size)), 128) + BE32At(VolumeHeader(LosingVolume(size)), 132) <= LosingTotal(size)
  {
    hide LosingVolume, AllocationBytes, Allocated, Convertible, Encode, ExpandAll, VolumeItems, Bitmap, BE32At, LosingTotal;
    hide OwnAllocated, OwnBitmap, ReadAt, VolumeHeader, ChunksOk, FromBE, SignatureOk;
    var img := LosingVolume(size);
    LosingFits(size);
    LosingBytes(size);
    LosingFields(size);
    LosingBitmaps(size);
    LosingConverts(size);
    MulNext(0, LosingCount(size), size);
    OwnFirstBit(img, 3 * size, LosingCount(size) * size, (LosingTotal(size) + 7) / 8);
    ToolFirstBit(img, 3 * BLOCK, LosingCount(size) * BLOCK);
    AllocatedBlocksPreserved(img, 0);
    TotalIs(size, img);
  }

  lemma TotalIs(size: nat, img: Bytes)
    requires size >= 512 && |img| == LosingBlocks(size) * BLOCK
    ensures LosingTotal(size) == |img| / size
  {
  }

  lemma OwnFirstBit(img: Bytes, o: nat, n: nat, m: nat)
    requires OwnBitmap(img) == Prefix(ReadAt(img, o, n), m) && n > 0 && m > 0 && o < |img| && img[o] == 0x80
    requires VolumeBlocks(img) > 0
    ensures OwnAllocated(img, 0)
  {
    hide Allocated, OwnBitmap, ReadAt, VolumeBlocks;
    FirstByte(img, o, n);
    FirstBit(OwnBitmap(img));
  }

  lemma ToolFirstBit(img: Bytes, o: nat, n: nat)
    requires AllocationBytes(img, VolumeHeader(img), BLOCK, 0) == ReadAt(img, o, n)
    requires n > 0 && o < |img| && img[o] == 0 && |img| >= BLOCK
    ensures 0 < |Bitmap(img)| && !Allocated(Bitmap(img), 0)
  {
    hide AllocationBytes, Allocated, FromBE, ReadAt, VolumeHeader;
    FirstByte(img, o, n);
    FirstBit(Bitmap(img));
  }

  lemma FirstByte(b: Bytes, o: nat, n: nat)
    requires o < |b| && n > 0
    ensures |ReadAt(b, o, n)| > 0 && ReadAt(b, o, n)[0] == b[o]
  {
  }

  /**
   * The conversion keeps every allocated block of every convertible volume of a given block size
   * if and only if that size is 4096.
   */
  lemma KeepsExactlyAt4096(size: nat)
    requires 512 <= size < 0x1_0000_0000
    ensures (forall img :: Convertible(img) && VolumeBlockSize(img) == size ==> KeepsVolume(img)) <==> size == BLOCK
  {
    hide Convertible, OwnAllocated, InBlock, ByteKept, VolumeBlockSize, LosingVolume;
    if size == BLOCK {
      forall img, b, p | Convertible(img) && VolumeBlockSize(img) == size && OwnAllocated(img, b) && InBlock(img, b, p)
        ensures ByteKept(img, p)
      {
        KeptAt4096(img, b, p);
      }
    } else {
      LosesFirstBlock(size);
    }
  }
}
