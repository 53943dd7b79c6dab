/** The converter at the offsets of its formats: header bytes, bitmap extents, bits and counters. */
module SparseBytes {
  import opened Arithmetic
  import opened Bytes
  import opened SparseFormat
  import opened SparseEncode
  import opened SparseImage
  import opened Wrappers

  // ----- the header -----

  lemma LEBytes2(n: nat)
    requires n < 0x1_0000
    ensures LE(n, 2) == [n % 256, n / 256]
  {
    assert LE(n, 2) == [n % 256] + LE(n / 256, 1);
    assert LE(n / 256, 1) == [n / 256 % 256] + LE(n / 256 / 256, 0);
  }

  lemma LEBytes4(n: nat)
    requires n < 0x1_0000_0000
    ensures LE(n, 4) == [n % 256, n / 256 % 256, n / 0x1_0000 % 256, n / 0x100_0000]
  {
    assert LE(n, 4) == [n % 256] + LE(n / 256, 3);
    assert LE(n / 256, 3) == [n / 256 % 256] + LE(n / 0x1_0000, 2);
    LEBytes2(n / 0x1_0000);
  }

  /** The magic number, version 1.0, header sizes 28 and 12, and the block size 4096, byte for byte. */
  lemma HeaderIs()
    ensures FixedHeader() == [0x3A, 0xFF, 0x26, 0xED, 1, 0, 0, 0, 28, 0, 12, 0, 0, 16, 0, 0]
  {
    hide LE;
    LEBytes4(0xED26FF3A);
    LEBytes2(1);
    LEBytes2(0);
    LEBytes2(28);
    LEBytes2(12);
    LEBytes4(4096);
  }

  // ----- counters -----

  function KindOf(x: Item): Kind {
    match x case Free => DontCare case Zero => Fill case Data(_) => Raw
  }

  lemma BlocksSnoc(cs: seq<Chunk>, c: Chunk, k: Kind)
    ensures Blocks(cs + [c], k) == Blocks(cs, k) + if c.kind == k then c.count else 0
  {
    assert (cs + [c])[..|cs|] == cs;
  }

  lemma StepCounts(s: State, x: Item, k: Kind)
    ensures Blocks(Flush(Step(s, x)).done, k) == Blocks(Flush(s).done, k) + if KindOf(x) == k then 1 else 0
  {
    hide Blocks;
    var t := Step(s, x);
    BlocksSnoc(t.done, t.open.value, k);
    if s.open.Some? {
      BlocksSnoc(s.done, s.open.value, k);
    }
  }

  function Chosen(items: seq<Item>, k: Kind): set<nat> {
    set b: nat | 0 <= b < |items| && KindOf(items[b]) == k
  }

  /** The blocks written as runs of a kind are as many as the blocks of that kind: data, zero, or free. */
  lemma {:induction false} RunsCount(items: seq<Item>, k: Kind)
    ensures Blocks(Encode(items), k) == |Chosen(items, k)|
  {
    hide Step, Blocks, KindOf;
    if items == [] {
      NoBlocks(k);
      assert Chosen(items, k) == {};
    } else {
      var n := |items| - 1;
      RunsCount(items[..n], k);
      StepCounts(Fold(items[..n]), items[n], k);
      var last: set<nat> := if KindOf(items[n]) == k then {n} else {};
      assert Chosen(items, k) == Chosen(items[..n], k) + last;
    }
  }

  lemma NoBlocks(k: Kind)
    ensures Blocks(Encode([]), k) == 0
  {
  }

  /** The tool's three counters count the allocated blocks with data, the allocated zero blocks, and the free blocks. */
  lemma CountersMean(img: Bytes)
    requires Convertible(img)
    ensures var n, bitmap, cs := |img| / 4096, Bitmap(img), Encode(VolumeItems(img));
            && Blocks(cs, Raw) == |set b: nat | b < n && Marks(bitmap, b) && img[b * 4096..(b + 1) * 4096] != Zeros(4096)|
            && Blocks(cs, Fill) == |set b: nat | b < n && Marks(bitmap, b) && img[b * 4096..(b + 1) * 4096] == Zeros(4096)|
            && Blocks(cs, DontCare) == |set b: nat | b < n && !Marks(bitmap, b)|
  {
    hide Bitmap, Encode, Allocated, Blocks, SignatureOk;
    var n, bitmap, items := |img| / 4096, Bitmap(img), VolumeItems(img);
    RunsCount(items, Raw);
    RunsCount(items, Fill);
    RunsCount(items, DontCare);
    forall b: nat | b < n ensures items[b] == ItemAt(img, bitmap, b) && b / 8 < |bitmap| {
    }
    assert Chosen(items, Raw) == set b: nat | b < n && Marks(bitmap, b) && img[b * 4096..(b + 1) * 4096] != Zeros(4096);
    assert Chosen(items, Fill) == set b: nat | b < n && Marks(bitmap, b) && img[b * 4096..(b + 1) * 4096] == Zeros(4096);
    assert Chosen(items, DontCare) == set b: nat | b < n && !Marks(bitmap, b);
  }

  predicate Marks(bitmap: Bytes, b: nat) {
    b / 8 < |bitmap| && Allocated(bitmap, b)
  }

  // ----- the bitmap -----

  const WEIGHTS: seq<nat> := [128, 64, 32, 16, 8, 4, 2, 1]

  lemma {:induction false} WeightIs(i: nat)
    requires i < 8
    ensures Pow2(7 - i) == WEIGHTS[i]
  {
    PowersOfTwo();
  }

  /** The most significant bit of a byte is the first block: bit 7 - i of weight 2^(7 - i) is block i. */
  lemma BitIs(bitmap: Bytes, b: nat, high: nat, bit: nat, low: nat)
    requires b / 8 < |bitmap| && bit < 2 && low < WEIGHTS[b % 8]
    requires bitmap[b / 8] == (2 * high + bit) * WEIGHTS[b % 8] + low
    ensures Allocated(bitmap, b) <==> bit == 1
  {
    hide Pow2;
    var x: nat, w := bitmap[b / 8], WEIGHTS[b % 8];
    WeightIs(b % 8);
    DivSplit(x, w);
    DivModUnique(x / w, x % w, 2 * high + bit, low, w);
  }

  lemma PowersOfTwo()
    ensures Pow2(0) == 1 && Pow2(1) == 2 && Pow2(2) == 4 && Pow2(3) == 8
    ensures Pow2(4) == 16 && Pow2(5) == 32 && Pow2(6) == 64 && Pow2(7) == 128
  {
    assert Pow2(1) == 2 * Pow2(0) && Pow2(2) == 2 * Pow2(1) && Pow2(3) == 2 * Pow2(2) && Pow2(4) == 2 * Pow2(3);
    assert Pow2(5) == 2 * Pow2(4) && Pow2(6) == 2 * Pow2(5) && Pow2(7) == 2 * Pow2(6);
  }

  function Big(img: Bytes, o: nat, n: nat): nat {
    FromBE(ReadAt(img, o, n))
  }

  /** The volume's bitmap has `n` extents: the descriptors up to the first empty one, eight at most. */
  predicate HasExtents(img: Bytes, n: nat) {
    && n <= 8 && (forall k :: 0 <= k < n ==> Big(img, 1156 + 8 * k, 4) != 0)
    && (n < 8 ==> Big(img, 1156 + 8 * n, 4) == 0)
  }

  /** The bytes of the first `n` extents, one after the other, in blocks of 4096 bytes. */
  function Extents(img: Bytes, n: nat): Bytes {
    if n == 0 then []
    else Extents(img, n - 1) + ReadAt(img, Big(img, 1144 + 8 * n, 4) * 4096, Big(img, 1148 + 8 * n, 4) * 4096)
  }

  lemma HeaderField(img: Bytes, o: nat, n: nat)
    requires |img| >= 1536 && o + n <= 512
    ensures FromBE(ReadAt(VolumeHeader(img), o, n)) == Big(img, 1024 + o, n)
  {
    hide FromBE;
    var vh := VolumeHeader(img);
    assert vh == img[1024..1536];
    SliceSlice(img, 1024, 1536, o, o + n);
    assert ReadAt(vh, o, n) == vh[o..o + n] && ReadAt(img, 1024 + o, n) == img[1024 + o..1024 + o + n];
  }

  lemma {:induction false} ExtentsSplit(img: Bytes, n: nat, k: nat)
    requires |img| >= 1536 && HasExtents(img, n) && k <= n
    ensures Extents(img, k) + AllocationBytes(img, VolumeHeader(img), BLOCK, k) ==
            AllocationBytes(img, VolumeHeader(img), BLOCK, 0)
    decreases k
  {
    hide FromBE, ReadAt, VolumeHeader;
    if k > 0 {
      ExtentsSplit(img, n, k - 1);
      HeaderField(img, 120 + 8 * k, 4);
      HeaderField(img, 124 + 8 * k, 4);
      assert Big(img, 1156 + 8 * (k - 1), 4) != 0;
    }
  }

  /** The bitmap: its extents joined in order, cut to its logical size or to what the image needs, whichever is longer. */
  lemma BitmapIs(img: Bytes, n: nat)
    requires |img| >= 1536 && HasExtents(img, n)
    ensures Bitmap(img) ==
            var all, size, needed := Extents(img, n), Big(img, 1136, 8), (|img| / 4096 + 7) / 8;
            var cut := if size > needed then size else needed;
            if cut <= |all| then all[..cut] else all
  {
    hide FromBE, ReadAt, VolumeHeader, Extents;
    ExtentsSplit(img, n, n);
    HeaderField(img, 112, 8);
    if n < 8 {
      HeaderField(img, 132 + 8 * n, 4);
    }
    assert AllocationBytes(img, VolumeHeader(img), BLOCK, n) == [];
    assert Extents(img, n) + [] == Extents(img, n);
  }

  /** Descriptor `k` describes blocks of the image. */
  predicate ExtentInside(img: Bytes, k: nat) {
    (Big(img, 1152 + 8 * k, 4) + Big(img, 1156 + 8 * k, 4)) * 4096 <= |img|
  }

  lemma ExtentNext(img: Bytes, k: nat)
    requires ExtentInside(img, k)
    ensures var start, count := Big(img, 1152 + 8 * k, 4), Big(img, 1156 + 8 * k, 4);
            Extents(img, k + 1) == Extents(img, k) + img[start * 4096..(start + count) * 4096]
  {
    hide Big;
    var start, count := Big(img, 1152 + 8 * k, 4), Big(img, 1156 + 8 * k, 4);
    assert ReadAt(img, start * 4096, count * 4096) == img[start * 4096..(start + count) * 4096];
  }

  /** Byte `t` of extent `k` of a bitmap that lies in the image is that many bytes behind the earlier extents. */
  lemma {:induction false} ExtentByte(img: Bytes, n: nat, k: nat, t: nat)
    requires k < n && t < Big(img, 1156 + 8 * k, 4) * 4096
    requires forall j :: 0 <= j < n ==> ExtentInside(img, j)
    ensures |Extents(img, k)| + t < |Extents(img, n)|
    ensures Big(img, 1152 + 8 * k, 4) * 4096 + t < |img|
    ensures Extents(img, n)[|Extents(img, k)| + t] == img[Big(img, 1152 + 8 * k, 4) * 4096 + t]
    decreases n
  {
    hide Big, Extents;
    assert ExtentInside(img, n - 1);
    ExtentNext(img, n - 1);
    if k < n - 1 {
      ExtentByte(img, n - 1, k, t);
    }
  }

  /** Which images convert: whole blocks, an HFS+ signature at 1024, a bitmap bit for every block, a 32-bit count. */
  lemma ConvertibleIff(img: Bytes)
    ensures Convertible(img) <==>
            && |img| % 4096 == 0 && |img| >= 4096 && img[1024] == 72 && (img[1025] == 88 || img[1025] == 43)
            && |img| / 4096 <= 8 * |Bitmap(img)| && |img| / 4096 < 0x1_0000_0000
  {
    hide Bitmap;
    if |img| >= 4096 {
      var s := VolumeHeader(img)[..2];
      assert s == [img[1024], img[1025]];
      assert s == [72, 88] <==> s[0] == 72 && s[1] == 88;
      assert s == [72, 43] <==> s[0] == 72 && s[1] == 43;
    } else if |img| % 4096 == 0 {
      assert img == [];
    }
  }
}
