/** XZSFS at its literal offsets: the layout, the checksum, and what the host verifier accepts, on bytes alone. */
module XzsfsBytes {
  import opened Bytes
  import opened XzsfsFormat
  import opened XzsfsTree
  import opened XzsfsVerify

  // ----- layout -----

  lemma SuperblockOffsets()
    ensures Offset(SB_HEAD, 0) == 0 && Offset(SB_HEAD, 1) == 4 && Offset(SB_HEAD, 2) == 8 && Offset(SB_HEAD, 3) == 12
    ensures Offset(SB_HEAD, 4) == 16 && Offset(SB_HEAD, 5) == 24 && Offset(SB_HEAD, 6) == 28 && Offset(SB_HEAD, 7) == 32
    ensures Offset(SB_HEAD, 8) == 40 && Offset(SB_HEAD, 9) == 48 && Offset(SB_HEAD, 10) == 56 && Offset(SB_HEAD, 11) == 64
    ensures Offset(SB_HEAD, 12) == 72 && Offset(SB_HEAD, 13) == 80
  {
  }

  lemma RecordOffsets()
    ensures Offset(REC_WIDTHS, 0) == 0 && Offset(REC_WIDTHS, 1) == 4 && Offset(REC_WIDTHS, 2) == 8 && Offset(REC_WIDTHS, 3) == 12
    ensures Offset(REC_WIDTHS, 4) == 16 && Offset(REC_WIDTHS, 5) == 20 && Offset(REC_WIDTHS, 6) == 24 && Offset(REC_WIDTHS, 7) == 28
    ensures Offset(REC_WIDTHS, 8) == 32 && Offset(REC_WIDTHS, 9) == 40 && Offset(REC_WIDTHS, 10) == 48 && Offset(REC_WIDTHS, 11) == 56
    ensures Offset(REC_WIDTHS, 12) == 64
  {
  }

  lemma FieldRead(img: Bytes, a: nat, b: nat, i: nat, j: nat)
    requires a <= b <= |img| && i <= j <= b - a
    ensures FromLE(img[a..b][i..j]) == Int(img, a + i, j - i)
  {
    hide FromLE;
    SliceSlice(img, a, b, i, j);
    assert ReadAt(img, a + i, j - i) == img[a + i..a + j];
  }

  /** The superblock of an image is read from these offsets. */
  lemma SuperblockIs(img: Bytes)
    requires |img| >= 512
    ensures ParsedSuperblock(img) == Superblock(
              Int(img, 0, 4), Int(img, 4, 4), Int(img, 8, 4), Int(img, 12, 4), Int(img, 16, 8), Int(img, 24, 4), Int(img, 28, 4),
              Int(img, 32, 8), Int(img, 40, 8), Int(img, 48, 8), Int(img, 56, 8), Int(img, 64, 8), Int(img, 72, 8),
              Int(img, 80, 4), Int(img, 84, 4))
  {
    hide FromLE, Int;
    SuperblockOffsets();
    FieldRead(img, 0, 512, 0, 4);
    FieldRead(img, 0, 512, 4, 8);
    FieldRead(img, 0, 512, 8, 12);
    FieldRead(img, 0, 512, 12, 16);
    FieldRead(img, 0, 512, 16, 24);
    FieldRead(img, 0, 512, 24, 28);
    FieldRead(img, 0, 512, 28, 32);
    FieldRead(img, 0, 512, 32, 40);
    FieldRead(img, 0, 512, 40, 48);
    FieldRead(img, 0, 512, 48, 56);
    FieldRead(img, 0, 512, 56, 64);
    FieldRead(img, 0, 512, 64, 72);
    FieldRead(img, 0, 512, 72, 80);
    FieldRead(img, 0, 512, 80, 84);
    FieldRead(img, 0, 512, 84, 88);
    assert img[0..512] == img[..512];
  }

  /** Where record `i` of the object table lies. */
  function Row(i: nat): nat {
    512 + 64 * i
  }

  /** Record `i` of the object table is read from these offsets. */
  lemma RecordIs(img: Bytes, i: nat)
    requires Row(i) + 64 <= |img|
    ensures var o := Row(i);
            RecordAt(img, i) == Record(
              Int(img, o, 4), Int(img, o + 4, 4), Int(img, o + 8, 4), Int(img, o + 12, 4), Int(img, o + 16, 4), Int(img, o + 20, 4),
              Int(img, o + 24, 4), Int(img, o + 28, 4), Int(img, o + 32, 8), Int(img, o + 40, 8), Int(img, o + 48, 8),
              Int(img, o + 56, 8))
  {
    hide FromLE, Int;
    var o := Row(i);
    RecordOffsets();
    FieldRead(img, o, o + 64, 0, 4);
    FieldRead(img, o, o + 64, 4, 8);
    FieldRead(img, o, o + 64, 8, 12);
    FieldRead(img, o, o + 64, 12, 16);
    FieldRead(img, o, o + 64, 16, 20);
    FieldRead(img, o, o + 64, 20, 24);
    FieldRead(img, o, o + 64, 24, 28);
    FieldRead(img, o, o + 64, 28, 32);
    FieldRead(img, o, o + 64, 32, 40);
    FieldRead(img, o, o + 64, 40, 48);
    FieldRead(img, o, o + 64, 48, 56);
    FieldRead(img, o, o + 64, 56, 64);
  }

  // ----- the checksum -----

  /** A checksum that can be computed piece by piece, as `zlib.crc32` can. */
  ghost predicate Streams(crc: Crc) {
    forall a: Bytes, b: Bytes, s: u32 :: crc(b, crc(a, s)) == crc(a + b, s)
  }

  /** What the checksum covers: the superblock with four zeros for it, the object table, the string table. */
  function Covered(img: Bytes): Bytes
    requires |img| >= 512
  {
    img[..0x50] + [0, 0, 0, 0] + img[0x54..512] + ReadAt(img, Int(img, 32, 8), Int(img, 40, 8))
    + ReadAt(img, Int(img, 48, 8), Int(img, 56, 8))
  }

  lemma Cleared(img: Bytes)
    requires |img| >= 512
    ensures ClearCrc(img[..SECTOR]) == img[..0x50] + [0, 0, 0, 0] + img[0x54..512]
  {
    assert Zeros(4) == [0, 0, 0, 0];
    SliceSlice(img, 0, 512, 0x54, 512);
    assert img[..512][..0x50] == img[..0x50] && img[..512][0x54..] == img[0x54..512];
  }

  lemma Joined(crc: Crc, a: Bytes, b: Bytes, c: Bytes)
    requires Streams(crc)
    ensures MetadataCrc(crc, a, b, c) == crc(a + b + c, 0)
  {
    assert crc(b, crc(a, 0)) == crc(a + b, 0);
    assert crc(c, crc(a + b, 0)) == crc(a + b + c, 0);
  }

  lemma ReadAtInside(b: Bytes, o: nat, n: nat)
    requires o + n <= |b|
    ensures ReadAt(b, o, n) == b[o..o + n]
  {
  }

  /** The stored checksum of an image is that of the covered bytes. */
  lemma ChecksumIff(img: Bytes, crc: Crc)
    requires |img| >= 512 && SuperblockOk(ParsedSuperblock(img), |img|) && Streams(crc)
    ensures var sb := ParsedSuperblock(img);
            sb.crc == MetadataCrc(crc, ClearCrc(img[..SECTOR]), img[sb.tableOff..sb.tableOff + sb.tableSize],
                                  img[sb.stringOff..sb.stringOff + sb.stringSize])
            <==> Int(img, 0x50, 4) == crc(Covered(img), 0)
  {
    hide ParsedSuperblock, Int, ReadAt, ClearCrc, MetadataCrc, Streams;
    var sb := ParsedSuperblock(img);
    SuperblockIs(img);
    Cleared(img);
    ReadAtInside(img, sb.tableOff, sb.tableSize);
    ReadAtInside(img, sb.stringOff, sb.stringSize);
    Joined(crc, ClearCrc(img[..SECTOR]), img[sb.tableOff..sb.tableOff + sb.tableSize],
           img[sb.stringOff..sb.stringOff + sb.stringSize]);
  }

  // ----- the header -----

  /** The header of an image the verifier accepts, byte for byte. */
  predicate HeaderBytes(img: Bytes, crc: Crc) {
    && |img| >= 512 && |img| % 512 == 0
    && Int(img, 0, 4) == 0x5346535A && Int(img, 4, 4) == 1 && Int(img, 8, 4) == 512 && Int(img, 12, 4) == 512
    && Int(img, 16, 8) == |img| && Int(img, 24, 4) != 0 && Int(img, 28, 4) == 1
    && Int(img, 32, 8) == 512 && Int(img, 40, 8) == Int(img, 24, 4) * 64
    && 512 + Int(img, 40, 8) <= Int(img, 48, 8) && Int(img, 48, 8) % 512 == 0 && Int(img, 56, 8) % 512 == 0
    && Int(img, 48, 8) + Int(img, 56, 8) <= Int(img, 64, 8) && Int(img, 48, 8) + Int(img, 56, 8) <= |img|
    && Int(img, 64, 8) % 512 == 0 && Int(img, 64, 8) + Int(img, 72, 8) <= |img|
    && Int(img, 0x50, 4) == crc(Covered(img), 0)
  }

  lemma HeaderIff(img: Bytes, crc: Crc)
    requires Streams(crc)
    ensures HeaderOk(img, crc) <==> HeaderBytes(img, crc)
  {
    hide ParsedSuperblock, Int, ReadAt, ClearCrc, MetadataCrc, Streams, Covered;
    if |img| >= 512 {
      SuperblockIs(img);
      if SuperblockOk(ParsedSuperblock(img), |img|) {
        ChecksumIff(img, crc);
      }
    }
  }

  /** The stored checksum is that of superblock, object table and string table, its own four bytes read as zero. */
  ghost predicate Checksummed(img: Bytes, crc: Crc) {
    var t, ts, s, ss := Int(img, 32, 8), Int(img, 40, 8), Int(img, 48, 8), Int(img, 56, 8);
    && |img| >= 512 && t + ts <= |img| && s + ss <= |img|
    && FromLE(img[0x50..0x54]) == crc(img[..0x50] + [0, 0, 0, 0] + img[0x54..512] + img[t..t + ts] + img[s..s + ss], 0)
  }

  lemma ChecksumRead(img: Bytes, crc: Crc)
    requires HeaderBytes(img, crc)
    ensures Checksummed(img, crc)
  {
    hide FromLE;
    var t, ts, s, ss := Int(img, 32, 8), Int(img, 40, 8), Int(img, 48, 8), Int(img, 56, 8);
    ReadAtInside(img, t, ts);
    ReadAtInside(img, s, ss);
    ReadAtInside(img, 0x50, 4);
  }

  /** The verifier accepts no image with another checksum. */
  lemma AcceptedChecksum(img: Bytes, crc: Crc)
    requires Accepts(img, crc) && Streams(crc)
    ensures Checksummed(img, crc)
  {
    hide ParsedSuperblock, Int, ClearCrc, MetadataCrc, Streams, HeaderBytes, Checksummed, TableOk, GraphOk;
    HeaderIff(img, crc);
    ChecksumRead(img, crc);
  }

  // ----- the object table -----

  function Id(img: Bytes, i: nat): nat {
    Int(img, Row(i), 4)
  }

  function Parent(img: Bytes, i: nat): nat {
    Int(img, Row(i) + 4, 4)
  }

  function Kind(img: Bytes, i: nat): nat {
    Int(img, Row(i) + 8, 4)
  }

  function DataAt(img: Bytes, i: nat): nat {
    Int(img, Row(i) + 32, 8)
  }

  function DataSize(img: Bytes, i: nat): nat {
    Int(img, Row(i) + 40, 8)
  }

  /** The name of object `i`: so many bytes at its offset in the string table. */
  function NameBytes(img: Bytes, i: nat): Bytes {
    ReadAt(img, Int(img, 48, 8) + Int(img, Row(i) + 24, 4), Int(img, Row(i) + 28, 4))
  }

  /** The root has no name; every other name is non-empty ASCII without a slash and ends in a NUL inside the string table. */
  predicate Named(img: Bytes, i: nat) {
    var off, len, strs := Int(img, Row(i) + 24, 4), Int(img, Row(i) + 28, 4), Int(img, 48, 8);
    if Id(img, i) == 1 then off == 0 && len == 0 && Parent(img, i) == 1 && Kind(img, i) == 1
    else
      && len != 0 && off + len < Int(img, 56, 8) && strs + Int(img, 56, 8) <= |img| && img[strs + off + len] == 0
      && forall p :: strs + off <= p < strs + off + len ==> img[p] < 128 && img[p] != 47
  }

  /** Object `i` on its own: number, type, name and extent. */
  predicate RowOk(img: Bytes, i: nat) {
    && 1 <= Id(img, i) <= Int(img, 24, 4) && (Kind(img, i) == 1 || Kind(img, i) == 2) && Named(img, i)
    && if Kind(img, i) == 1 then DataAt(img, i) == 0 && DataSize(img, i) == 0
       else Int(img, 64, 8) <= DataAt(img, i) && DataAt(img, i) % 512 == 0 && DataAt(img, i) + DataSize(img, i) <= |img|
  }

  predicate TableBytes(img: Bytes) {
    && (forall i :: 0 <= i < Int(img, 24, 4) ==> RowOk(img, i))
    && (forall i, j :: 0 <= i < j < Int(img, 24, 4) ==> Id(img, i) != Id(img, j))
  }

  lemma NameShift(img: Bytes, s: nat, ss: nat, r: Record)
    requires s + ss <= |img|
    ensures NameOk(r, img[s..s + ss]) <==>
            && r.nameLen != 0 && r.nameOff + r.nameLen < ss && img[s + r.nameOff + r.nameLen] == 0
            && forall p :: s + r.nameOff <= p < s + r.nameOff + r.nameLen ==> img[p] < 128 && img[p] != 47
  {
    var strs := img[s..s + ss];
    if r.nameOff + r.nameLen < ss {
      assert forall q :: r.nameOff <= q < r.nameOff + r.nameLen ==> strs[q] == img[s + q];
      assert forall p :: s + r.nameOff <= p < s + r.nameOff + r.nameLen ==> img[p] == strs[p - s];
    }
  }

  lemma RowIff(img: Bytes, i: nat)
    requires |img| >= 512 && SuperblockOk(ParsedSuperblock(img), |img|) && i < Int(img, 24, 4)
    ensures Row(i) + 64 <= |img|
    ensures var sb := ParsedSuperblock(img); RecordOk(RecordAt(img, i), sb, Strings(img, sb), |img|) <==> RowOk(img, i)
  {
    hide ParsedSuperblock, Int, RecordAt, NameOk;
    SuperblockIs(img);
    RecordIs(img, i);
    NameShift(img, Int(img, 48, 8), Int(img, 56, 8), RecordAt(img, i));
  }

  lemma {:induction false} RecordsOkIff(rs: seq<Record>, sb: Superblock, strs: Bytes, len: nat, n: nat)
    requires n <= |rs|
    ensures RecordsOk(rs, sb, strs, len, n) <==> forall i :: 0 <= i < n ==> RecordOk(rs[i], sb, strs, len)
  {
    hide RecordOk;
    if n > 0 {
      RecordsOkIff(rs, sb, strs, len, n - 1);
    }
  }

  lemma TableIff(img: Bytes)
    requires |img| >= 512 && SuperblockOk(ParsedSuperblock(img), |img|)
    ensures var sb := ParsedSuperblock(img); TableOk(ImageRecords(img), sb, Strings(img, sb), |img|) <==> TableBytes(img)
  {
    hide ParsedSuperblock, Int, RecordAt, RecordOk, RowOk;
    var sb, rs := ParsedSuperblock(img), ImageRecords(img);
    SuperblockIs(img);
    RecordsOkIff(rs, sb, Strings(img, sb), |img|, |rs|);
    forall i | 0 <= i < |rs|
      ensures rs[i] == RecordAt(img, i) && rs[i].id == Id(img, i)
      ensures RecordOk(rs[i], sb, Strings(img, sb), |img|) <==> RowOk(img, i)
    {
      RowIff(img, i);
      RecordIs(img, i);
    }
  }

  // ----- the hierarchy -----

  /** A header and a table the verifier accepts. */
  predicate Tabled(img: Bytes) {
    |img| >= 512 && SuperblockOk(ParsedSuperblock(img), |img|) && TableBytes(img)
  }

  lemma RowObject(img: Bytes, i: nat)
    requires Tabled(img) && i < Int(img, 24, 4)
    ensures Row(i) + 64 <= |img|
    ensures var sb, r := ParsedSuperblock(img), RecordAt(img, i);
            r.id in ImageObjects(img) && ImageObjects(img)[r.id] == ObjectOf(r, Strings(img, sb))
  {
    hide ParsedSuperblock, Int, RecordAt, ObjectMap, TableOk, RecordOk, RowOk, ObjectOf;
    var sb, rs := ParsedSuperblock(img), ImageRecords(img);
    SuperblockIs(img);
    RowIff(img, i);
    DistinctRows(img);
    assert rs[i] == RecordAt(img, i);
    ObjectMapHas(rs, Strings(img, sb), |rs|, i);
  }

  lemma ObjectAt(img: Bytes, i: nat)
    requires Tabled(img) && i < Int(img, 24, 4)
    ensures var objs := ImageObjects(img);
            && Id(img, i) in objs
            && objs[Id(img, i)].rec.parent == Parent(img, i) && objs[Id(img, i)].rec.kind == Kind(img, i)
            && objs[Id(img, i)].rec.dataOff == DataAt(img, i) && objs[Id(img, i)].rec.dataLen == DataSize(img, i)
            && (Id(img, i) != 1 ==> objs[Id(img, i)].name == NameBytes(img, i))
  {
    hide ParsedSuperblock, Int, RecordAt, ReadAt, ImageObjects, TableBytes, SuperblockOk;
    RowObject(img, i);
    RecordIs(img, i);
    if Id(img, i) != 1 {
      RowName(img, i);
    }
  }

  lemma RowName(img: Bytes, i: nat)
    requires Tabled(img) && i < Int(img, 24, 4) && Id(img, i) != 1
    ensures Row(i) + 64 <= |img|
    ensures var sb, r := ParsedSuperblock(img), RecordAt(img, i);
            sb.stringOff + sb.stringSize <= |img| && ReadAt(Strings(img, sb), r.nameOff, r.nameLen) == NameBytes(img, i)
  {
    hide ParsedSuperblock, Int, RecordAt, ReadAt;
    SuperblockIs(img);
    RowIff(img, i);
    RecordIs(img, i);
    assert RowOk(img, i);
    NameRead(img, Int(img, 48, 8), Int(img, 56, 8), Int(img, Row(i) + 24, 4), Int(img, Row(i) + 28, 4));
  }

  lemma DistinctRows(img: Bytes)
    requires Tabled(img)
    ensures DistinctIds(ImageRecords(img), |ImageRecords(img)|)
  {
    hide ParsedSuperblock, Int, RecordAt, RecordsOk, SuperblockOk, TableBytes;
    TableIff(img);
  }

  lemma NameRead(img: Bytes, s: nat, ss: nat, off: nat, len: nat)
    requires s + ss <= |img| && off + len <= ss
    ensures ReadAt(img[s..s + ss], off, len) == ReadAt(img, s + off, len)
  {
    if off < ss {
      SliceSlice(img, s, s + ss, off, off + len);
    } else {
      assert len == 0;
    }
  }

  lemma ObjectFrom(img: Bytes, id: nat) returns (i: nat)
    requires Tabled(img) && id in ImageObjects(img)
    ensures i < Int(img, 24, 4) && Id(img, i) == id
  {
    hide ParsedSuperblock, Int, RecordAt, ObjectMap, TableBytes;
    var sb, rs := ParsedSuperblock(img), ImageRecords(img);
    SuperblockIs(img);
    i := ObjectMapFrom(rs, Strings(img, sb), |rs|, id);
    RecordIs(img, i);
    assert rs[i] == RecordAt(img, i);
  }

  lemma RootListed(img: Bytes)
    requires Tabled(img)
    ensures 1 in ImageObjects(img)
  {
    hide ParsedSuperblock, Int, RecordAt, ObjectMap, TableBytes, Records;
    var sb, rs := ParsedSuperblock(img), ImageRecords(img);
    TableIff(img);
    TableSound(rs, sb, Strings(img, sb), |img|);
  }

  /** Rows from an object up to the root, each the parent of the one before. */
  ghost predicate Upwards(img: Bytes, rows: seq<nat>) {
    && rows != [] && Id(img, rows[|rows| - 1]) == 1
    && (forall k :: 0 <= k < |rows| ==> rows[k] < Int(img, 24, 4))
    && (forall k :: 0 <= k < |rows| - 1 ==> Lies(img, rows[k], rows[k + 1]))
  }

  predicate Lies(img: Bytes, i: nat, j: nat) {
    Id(img, i) != 1 && Parent(img, i) == Id(img, j)
  }

  ghost predicate Rooted(img: Bytes, i: nat) {
    exists rows :: Upwards(img, rows) && rows[0] == i
  }

  lemma {:induction false} DepthIsUpwards(img: Bytes, i: nat, d: nat)
    requires Tabled(img) && i < Int(img, 24, 4) && AtDepth(ImageObjects(img), Id(img, i), d)
    ensures Rooted(img, i)
    decreases d
  {
    hide ImageObjects, Int, Tabled;
    if d == 0 {
      assert Upwards(img, [i]);
    } else {
      ObjectAt(img, i);
      RootListed(img);
      var j := ObjectFrom(img, Parent(img, i));
      DepthIsUpwards(img, j, d - 1);
      var rows :| Upwards(img, rows) && rows[0] == j;
      var more := [i] + rows;
      assert forall k :: 0 < k < |more| ==> more[k] == rows[k - 1];
      forall k | 0 <= k < |more| - 1 ensures Lies(img, more[k], more[k + 1]) {
        if k > 0 {
          assert Lies(img, rows[k - 1], rows[k]);
        }
      }
      assert Upwards(img, more) && more[0] == i;
    }
  }

  lemma {:induction false} UpwardsIsDepth(img: Bytes, rows: seq<nat>)
    requires Tabled(img) && Upwards(img, rows)
    ensures AtDepth(ImageObjects(img), Id(img, rows[0]), |rows| - 1)
    decreases |rows|
  {
    hide ImageObjects, Int, Tabled;
    if |rows| > 1 {
      var rest := rows[1..];
      assert Lies(img, rows[0], rows[1]);
      forall k | 0 <= k < |rest| - 1 ensures Lies(img, rest[k], rest[k + 1]) {
        assert Lies(img, rows[k + 1], rows[k + 2]);
      }
      UpwardsIsDepth(img, rest);
      ObjectAt(img, rows[0]);
    }
  }

  predicate HasDirectory(img: Bytes, i: nat) {
    exists j :: 0 <= j < Int(img, 24, 4) && Id(img, j) == Parent(img, i) && Kind(img, j) == 1
  }

  predicate SameEntry(img: Bytes, i: nat, j: nat) {
    Id(img, i) > 1 && Id(img, j) > 1 && Parent(img, i) == Parent(img, j) && NameBytes(img, i) == NameBytes(img, j)
  }

  /** Two non-empty files share a byte of the image. */
  predicate Overlap(img: Bytes, i: nat, j: nat) {
    && Kind(img, i) == 2 && Kind(img, j) == 2 && DataSize(img, i) > 0 && DataSize(img, j) > 0
    && DataAt(img, i) < DataAt(img, j) + DataSize(img, j) && DataAt(img, j) < DataAt(img, i) + DataSize(img, i)
  }

  /** Every object lies in a directory and below the root; no two share directory and name; no two files overlap. */
  ghost predicate GraphBytes(img: Bytes) {
    var n := Int(img, 24, 4);
    && (forall i :: 0 <= i < n ==> HasDirectory(img, i) && Rooted(img, i))
    && (forall i, j :: 0 <= i < n && 0 <= j < n && i != j ==> !SameEntry(img, i, j) && !Overlap(img, i, j))
  }

  lemma HierarchyIff(img: Bytes, i: nat)
    requires Tabled(img) && i < Int(img, 24, 4)
    ensures Id(img, i) in ImageObjects(img)
    ensures ParentOk(ImageObjects(img), Id(img, i)) <==> HasDirectory(img, i)
    ensures ReachesRoot(ImageObjects(img), Id(img, i)) <==> Rooted(img, i)
  {
    hide ImageObjects, Int, TableBytes, SuperblockOk, ParsedSuperblock;
    var objs := ImageObjects(img);
    ObjectAt(img, i);
    if ParentOk(objs, Id(img, i)) {
      var j := ObjectFrom(img, Parent(img, i));
      ObjectAt(img, j);
    }
    if HasDirectory(img, i) {
      var j :| 0 <= j < Int(img, 24, 4) && Id(img, j) == Parent(img, i) && Kind(img, j) == 1;
      ObjectAt(img, j);
    }
    if ReachesRoot(objs, Id(img, i)) {
      var d: nat :| AtDepth(objs, Id(img, i), d);
      DepthIsUpwards(img, i, d);
    }
    if Rooted(img, i) {
      var rows :| Upwards(img, rows) && rows[0] == i;
      UpwardsIsDepth(img, rows);
    }
  }

  lemma PairIff(img: Bytes, i: nat, j: nat)
    requires Tabled(img) && i < Int(img, 24, 4) && j < Int(img, 24, 4) && i != j
    ensures var objs, a, b := ImageObjects(img), Id(img, i), Id(img, j);
            && a in objs && b in objs && a != b
            && (SameEntry(img, i, j) <==> 1 < a && 1 < b && objs[a].rec.parent == objs[b].rec.parent && objs[a].name == objs[b].name)
            && (Overlap(img, i, j) <==> HasPayload(objs[a]) && HasPayload(objs[b]) && !Disjoint(objs[a], objs[b]))
  {
    hide ImageObjects, Int, NameBytes;
    ObjectAt(img, i);
    ObjectAt(img, j);
    assert Id(img, if i < j then i else j) != Id(img, if i < j then j else i);
  }

  lemma GraphIff(img: Bytes)
    requires Tabled(img)
    ensures GraphOk(ImageObjects(img)) <==> GraphBytes(img)
  {
    hide ImageObjects, Int, TableBytes, SuperblockOk, ParsedSuperblock, SameEntry, Overlap, HasDirectory, Rooted, ParentOk, ReachesRoot, HasPayload, Disjoint;
    var objs, n := ImageObjects(img), Int(img, 24, 4);
    forall i: nat | i < n ensures Id(img, i) in objs
      ensures ParentOk(objs, Id(img, i)) <==> HasDirectory(img, i)
      ensures ReachesRoot(objs, Id(img, i)) <==> Rooted(img, i)
    {
      HierarchyIff(img, i);
    }
    if GraphOk(objs) {
      forall i: nat, j: nat | i < n && j < n && i != j ensures !SameEntry(img, i, j) && !Overlap(img, i, j) {
        PairIff(img, i, j);
      }
    }
    if GraphBytes(img) {
      forall id | id in objs ensures ParentOk(objs, id) && ReachesRoot(objs, id) {
        var i := ObjectFrom(img, id);
      }
      forall a, b | a in objs && b in objs && a != b
        ensures 1 < a && 1 < b ==> objs[a].rec.parent != objs[b].rec.parent || objs[a].name != objs[b].name
        ensures HasPayload(objs[a]) && HasPayload(objs[b]) ==> Disjoint(objs[a], objs[b])
      {
        var i := ObjectFrom(img, a);
        var j := ObjectFrom(img, b);
        PairIff(img, i, j);
      }
    }
  }

  /** What the verifier accepts, on bytes: header with checksum, every object on its own, and the whole tree. */
  lemma AcceptsIff(img: Bytes, crc: Crc)
    requires Streams(crc)
    ensures Accepts(img, crc) <==> HeaderBytes(img, crc) && TableBytes(img) && GraphBytes(img)
  {
    hide ParsedSuperblock, Int, Streams, TableBytes, GraphBytes, ImageObjects, TableOk, GraphOk, HeaderBytes, ClearCrc,
         MetadataCrc, SuperblockOk, ImageRecords;
    HeaderIff(img, crc);
    if HeaderOk(img, crc) {
      TableIff(img);
      if TableBytes(img) {
        GraphIff(img);
      }
    }
  }
}
