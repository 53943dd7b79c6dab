/** The on-disk records of XZSFS version 1: the 512-byte superblock and the 64-byte object entry. */
module XzsfsFormat {
  import opened Bytes

  type u32 = x: int | 0 <= x < 0x1_0000_0000

  /** `zlib.crc32(data, start)`; every result holds for any function in its place. */
  type Crc = (Bytes, u32) -> u32

  const MAGIC: nat := 0x5346535A
  const VERSION: nat := 1
  const SECTOR: nat := 512
  const OBJECT_SIZE: nat := 64
  const TYPE_DIR: nat := 1
  const TYPE_REG: nat := 2
  const SLASH: byte := 47
  const CRC_OFFSET: nat := 0x50

  datatype Superblock = Superblock(
    magic: nat, version: nat, headerSize: nat, sectorSize: nat, imageSize: nat,
    objectCount: nat, rootId: nat, tableOff: nat, tableSize: nat, stringOff: nat,
    stringSize: nat, dataOff: nat, dataSize: nat, crc: nat, reserved: nat)

  datatype Record = Record(
    id: nat, parent: nat, kind: nat, mode: nat, uid: nat, gid: nat, nameOff: nat, nameLen: nat,
    dataOff: nat, dataLen: nat, reserved1: nat, reserved2: nat)

  // The widths of "<IIIIQIIQQQQQQ" (the superblock up to its checksum) and "<IIIIIIIIQQQQ".
  const SB_HEAD: seq<nat> := [4, 4, 4, 4, 8, 4, 4, 8, 8, 8, 8, 8, 8]
  const REC_WIDTHS: seq<nat> := [4, 4, 4, 4, 4, 4, 4, 4, 8, 8, 8, 8]

  lemma FormatWidths()
    ensures Offset(SB_HEAD, 13) == CRC_OFFSET
    ensures Offset(REC_WIDTHS, 12) == OBJECT_SIZE
  {
    assert Offset(SB_HEAD, 2) == 8 && Offset(REC_WIDTHS, 2) == 8;
    assert Offset(SB_HEAD, 4) == 16 && Offset(REC_WIDTHS, 4) == 16;
    assert Offset(SB_HEAD, 6) == 28 && Offset(REC_WIDTHS, 6) == 24;
    assert Offset(SB_HEAD, 8) == 40 && Offset(REC_WIDTHS, 8) == 32;
    assert Offset(SB_HEAD, 10) == 56 && Offset(REC_WIDTHS, 10) == 48;
    assert Offset(SB_HEAD, 12) == 72;
  }

  function HeadFields(sb: Superblock): seq<nat> {
    [sb.magic, sb.version, sb.headerSize, sb.sectorSize, sb.imageSize, sb.objectCount, sb.rootId,
     sb.tableOff, sb.tableSize, sb.stringOff, sb.stringSize, sb.dataOff, sb.dataSize]
  }

  lemma HeadFieldsInjective(a: Superblock, b: Superblock)
    requires HeadFields(a) == HeadFields(b)
    ensures a == b.(crc := a.crc, reserved := a.reserved)
  {
    var f, g := HeadFields(a), HeadFields(b);
    assert f[0] == g[0] && f[1] == g[1] && f[2] == g[2] && f[3] == g[3] && f[4] == g[4];
    assert f[5] == g[5] && f[6] == g[6] && f[7] == g[7] && f[8] == g[8];
    assert f[9] == g[9] && f[10] == g[10] && f[11] == g[11] && f[12] == g[12];
  }

  predicate SuperblockFits(sb: Superblock) {
    Fits(SB_HEAD, HeadFields(sb)) && sb.crc < Pow256(4) && sb.reserved < Pow256(4)
  }

  function Seal(head: Bytes, crc: nat, reserved: nat): (b: Bytes)
    ensures |b| == |head| + 432
  {
    head + LE(crc, 4) + LE(reserved, 4) + Zeros(424)
  }

  function PackSuperblock(sb: Superblock): (b: Bytes)
    ensures |b| == SECTOR
  {
    FormatWidths();
    Seal(Pack(SB_HEAD, HeadFields(sb), 13), sb.crc, sb.reserved)
  }

  function HeadField(b: Bytes, i: nat): nat
    requires |b| == SECTOR && i < 13
  {
    FormatWidths();
    OffsetMonotone(SB_HEAD, i + 1, 13);
    Field(SB_HEAD, b, i)
  }

  function UnpackSuperblock(b: Bytes): Superblock
    requires |b| == SECTOR
  {
    Superblock(HeadField(b, 0), HeadField(b, 1), HeadField(b, 2), HeadField(b, 3), HeadField(b, 4),
               HeadField(b, 5), HeadField(b, 6), HeadField(b, 7), HeadField(b, 8), HeadField(b, 9),
               HeadField(b, 10), HeadField(b, 11), HeadField(b, 12), FromLE(b[80..84]), FromLE(b[84..88]))
  }

  lemma SealParts(head: Bytes, crc: nat, reserved: nat)
    requires |head| == CRC_OFFSET
    ensures var b := Seal(head, crc, reserved);
            && b[80..84] == LE(crc, 4) && b[84..88] == LE(reserved, 4)
            && ClearCrc(b) == Seal(head, 0, reserved)
  {
    LEZero(4);
    var b := Seal(head, crc, reserved);
    assert b[84..] == LE(reserved, 4) + Zeros(424);
  }

  lemma HeadFieldPacked(sb: Superblock, i: nat)
    requires SuperblockFits(sb) && i < 13
    ensures HeadField(PackSuperblock(sb), i) == HeadFields(sb)[i]
  {
    var head := Pack(SB_HEAD, HeadFields(sb), 13);
    var rest := LE(sb.crc, 4) + LE(sb.reserved, 4) + Zeros(424);
    PackRoundTrip(SB_HEAD, HeadFields(sb), 13, i, rest);
    assert PackSuperblock(sb) == head + rest;
  }

  lemma PackedTail(sb: Superblock)
    ensures var b := PackSuperblock(sb); b[80..84] == LE(sb.crc, 4) && b[84..88] == LE(sb.reserved, 4)
  {
    hide Seal, Pack, LE;
    FormatWidths();
    SealParts(Pack(SB_HEAD, HeadFields(sb), 13), sb.crc, sb.reserved);
  }

  lemma SuperblockRoundTrip(sb: Superblock)
    requires SuperblockFits(sb)
    ensures UnpackSuperblock(PackSuperblock(sb)) == sb
  {
    hide PackSuperblock, HeadField, Fits, LE, FromLE, Pow256;
    var b := PackSuperblock(sb);
    forall i | 0 <= i < 13
      ensures HeadField(b, i) == HeadFields(sb)[i]
    {
      HeadFieldPacked(sb, i);
    }
    assert HeadFields(UnpackSuperblock(b)) == HeadFields(sb);
    HeadFieldsInjective(UnpackSuperblock(b), sb);
    PackedTail(sb);
    LERoundTrip(sb.crc, 4);
    LERoundTrip(sb.reserved, 4);
  }

  /** The superblock with its checksum field cleared, as both checksum computations see it. */
  function ClearCrc(b: Bytes): Bytes
    requires |b| == SECTOR
  {
    b[..CRC_OFFSET] + Zeros(4) + b[CRC_OFFSET + 4..]
  }

  lemma ClearCrcPacked(sb: Superblock)
    ensures ClearCrc(PackSuperblock(sb)) == PackSuperblock(sb.(crc := 0))
  {
    FormatWidths();
    SealParts(Pack(SB_HEAD, HeadFields(sb), 13), sb.crc, sb.reserved);
  }

  function RecordFields(r: Record): seq<nat> {
    [r.id, r.parent, r.kind, r.mode, r.uid, r.gid, r.nameOff, r.nameLen,
     r.dataOff, r.dataLen, r.reserved1, r.reserved2]
  }

  lemma RecordFieldsInjective(a: Record, b: Record)
    requires RecordFields(a) == RecordFields(b)
    ensures a == b
  {
    var f, g := RecordFields(a), RecordFields(b);
    assert f[0] == g[0] && f[1] == g[1] && f[2] == g[2] && f[3] == g[3] && f[4] == g[4] && f[5] == g[5];
    assert f[6] == g[6] && f[7] == g[7] && f[8] == g[8] && f[9] == g[9] && f[10] == g[10] && f[11] == g[11];
  }

  predicate RecordFits(r: Record) {
    Fits(REC_WIDTHS, RecordFields(r))
  }

  function PackRecord(r: Record): (b: Bytes)
    ensures |b| == OBJECT_SIZE
  {
    FormatWidths();
    Pack(REC_WIDTHS, RecordFields(r), 12)
  }

  function RecordField(b: Bytes, i: nat): nat
    requires |b| == OBJECT_SIZE && i < 12
  {
    FormatWidths();
    OffsetMonotone(REC_WIDTHS, i + 1, 12);
    Field(REC_WIDTHS, b, i)
  }

  function UnpackRecord(b: Bytes): Record
    requires |b| == OBJECT_SIZE
  {
    Record(RecordField(b, 0), RecordField(b, 1), RecordField(b, 2), RecordField(b, 3),
           RecordField(b, 4), RecordField(b, 5), RecordField(b, 6), RecordField(b, 7),
           RecordField(b, 8), RecordField(b, 9), RecordField(b, 10), RecordField(b, 11))
  }

  lemma RecordRoundTrip(r: Record)
    requires RecordFits(r)
    ensures UnpackRecord(PackRecord(r)) == r
  {
    var b := PackRecord(r);
    forall i | 0 <= i < 12
      ensures RecordField(b, i) == RecordFields(r)[i]
    {
      PackRoundTrip(REC_WIDTHS, RecordFields(r), 12, i, []);
      assert b + [] == b;
    }
    assert RecordFields(UnpackRecord(b)) == RecordFields(r);
    RecordFieldsInjective(UnpackRecord(b), r);
  }

  /** The checksum both tools store: superblock with a cleared field, object table, string table. */
  function MetadataCrc(crc: Crc, sbBytes: Bytes, table: Bytes, strings: Bytes): u32 {
    crc(strings, crc(table, crc(sbBytes, 0)))
  }

  /** Record `i` of the object table of an image. */
  function RecordAt(img: Bytes, i: nat): Record
    requires SECTOR + OBJECT_SIZE * (i + 1) <= |img|
  {
    UnpackRecord(img[SECTOR + OBJECT_SIZE * i..SECTOR + OBJECT_SIZE * (i + 1)])
  }

  function Records(img: Bytes, n: nat): (rs: seq<Record>)
    requires SECTOR + OBJECT_SIZE * n <= |img|
    ensures |rs| == n
  {
    seq(n, i requires 0 <= i < n => RecordAt(img, i))
  }
}
