/** What the builder writes and what the driver demands, at the literal offsets of the format. */
module XzsfsLayout {
  import opened Bytes
  import opened XzsfsFormat
  import opened XzsfsBytes
  import B = XzsfsBuild
  import K = XzsfsKernel
  import P = Paths
  import R = XzsfsRoundTrip
  import V = XzsfsVerify

  // ----- built images -----

  /** Every built image carries the checksum of its superblock and its two tables. */
  lemma BuiltChecksum(es: seq<B.Entry>, crc: Crc)
    requires B.Buildable(es) && Streams(crc)
    ensures B.ParentsFound(es) && Checksummed(B.ImageOf(es, crc), crc)
  {
    hide B.ImageOf, B.FieldsFit, B.NamesMatch, B.KeysUnique, Streams, V.HeaderOk, HeaderBytes, Checksummed;
    R.HeaderAccepted(es, crc);
    HeaderIff(B.ImageOf(es, crc), crc);
    ChecksumRead(B.ImageOf(es, crc), crc);
  }

  /** The number of object `i`, its type, its mode 0755 or 0644, root's ownership, and two zero words. */
  lemma BuiltRecord(es: seq<B.Entry>, crc: Crc, i: nat)
    requires B.Buildable(es) && i <= |es|
    ensures B.ParentsFound(es)
    ensures var img, o := B.ImageOf(es, crc), Row(i);
            var dir := i == 0 || es[i - 1].Dir?;
            && o + 64 <= |img|
            && Int(img, o, 4) == i + 1
            && Int(img, o + 8, 4) == (if dir then 1 else 2)
            && Int(img, o + 12, 4) == (if dir || es[i - 1].executable then 493 else 420)
            && Int(img, o + 16, 4) == 0 && Int(img, o + 20, 4) == 0
            && Int(img, o + 40, 8) == (if dir then 0 else |es[i - 1].payload|)
            && Int(img, o + 48, 8) == 0 && Int(img, o + 56, 8) == 0
  {
    hide B.ImageOf, B.FieldsFit, B.NamesMatch, B.KeysUnique, Int, B.ParentAt, B.NameOffset, B.DataOffset, B.NameAt, RecordAt;
    R.RecordBack(es, crc, i);
    RecordIs(B.ImageOf(es, crc), i);
  }

  /** The name of object `i` is the last component of its path, and its data the file's contents. */
  lemma BuiltContents(es: seq<B.Entry>, crc: Crc, i: nat)
    requires B.Buildable(es) && 0 < i <= |es|
    ensures B.ParentsFound(es)
    ensures var img := B.ImageOf(es, crc);
            && NameBytes(img, i) == P.Basename(es[i - 1].path)
            && (es[i - 1].File? ==> ReadAt(img, DataAt(img, i), DataSize(img, i)) == es[i - 1].payload)
  {
    hide B.ImageOf, B.FieldsFit, B.NamesMatch, B.KeysUnique, Int, ReadAt, RecordAt, B.ParentAt, B.StringTable, B.DataUpTo;
    var img := B.ImageOf(es, crc);
    R.RecordBack(es, crc, i);
    RecordIs(img, i);
    NameStored(es, crc, i);
    if es[i - 1].File? {
      R.PayloadBack(es, crc, i);
    }
  }

  lemma NameStored(es: seq<B.Entry>, crc: Crc, i: nat)
    requires B.Buildable(es) && 0 < i <= |es|
    ensures B.ParentsFound(es)
    ensures var img, r := B.ImageOf(es, crc), B.RecordFor(es, i);
            ReadAt(img, Int(img, 48, 8) + r.nameOff, r.nameLen) == B.NameAt(es, i)
  {
    hide B.ImageOf, B.FieldsFit, B.KeysUnique, Int, ReadAt, B.ParentAt, B.StringTable, B.DataUpTo, V.ParsedSuperblock, V.SuperblockOk;
    hide B.NameAt, B.NameOffset, B.ParentsFound, V.ImageRecords, R.RecordsAre, B.NamesMatch, B.ImageCrc;
    var img := B.ImageOf(es, crc);
    var sb := B.SuperblockFor(es, B.ImageCrc(es, crc));
    R.AcceptedParts(es, crc);
    SuperblockIs(img);
    R.NameRead(es, i);
    StringsInside(sb, |img|);
    NameRead(img, sb.stringOff, sb.stringSize, B.NameOffset(es, i), |B.NameAt(es, i)|);
  }

  lemma StringsInside(sb: Superblock, len: nat)
    requires V.SuperblockOk(sb, len)
    ensures sb.stringOff + sb.stringSize <= len
  {
  }

  lemma ParentStored(es: seq<B.Entry>, crc: Crc, i: nat)
    requires B.Buildable(es) && i <= |es|
    ensures B.ParentsFound(es) && B.ParentFound(es, i) && Row(i) + 64 <= |B.ImageOf(es, crc)|
    ensures Int(B.ImageOf(es, crc), Row(i) + 4, 4) == B.ParentAt(es, i)
  {
    hide B.ImageOf, B.FieldsFit, B.NamesMatch, B.KeysUnique, Int, RecordAt, B.ParentAt, B.NameOffset, B.DataOffset, B.NameAt;
    R.RecordBack(es, crc, i);
    RecordIs(B.ImageOf(es, crc), i);
  }

  lemma PathSplits(es: seq<B.Entry>, i: nat) returns (j: nat)
    requires B.Sorted(es) && R.WalkTree(es) && 0 < i <= |es|
    ensures j < i && (j == 0 || es[j - 1].Dir?) && B.ParentFound(es, i) && B.ParentAt(es, i) == j + 1
    ensures es[i - 1].path == (if j == 0 then [] else es[j - 1].path + [47]) + P.Basename(es[i - 1].path)
  {
    hide B.Sorted, R.WalkTree, B.ParentAt, B.ParentFound, P.Basename;
    j := R.ParentBefore(es, i);
    assert [] + P.Basename(es[i - 1].path) == P.Basename(es[i - 1].path);
  }

  /** The parent number of object `i` is that of the directory its path lies in. */
  lemma BuiltParent(es: seq<B.Entry>, crc: Crc, i: nat) returns (j: nat)
    requires B.Sorted(es) && R.WalkTree(es) && B.Buildable(es) && 0 < i <= |es|
    ensures B.ParentsFound(es) && j < i && (j == 0 || es[j - 1].Dir?)
    ensures Row(i) + 64 <= |B.ImageOf(es, crc)| && Int(B.ImageOf(es, crc), Row(i) + 4, 4) == j + 1
    ensures es[i - 1].path == (if j == 0 then [] else es[j - 1].path + [47]) + P.Basename(es[i - 1].path)
  {
    hide B.ImageOf, B.Buildable, Int, B.Sorted, R.WalkTree, B.ParentAt, B.ParentFound, B.ParentsFound, P.Basename;
    j := PathSplits(es, i);
    ParentStored(es, crc, i);
  }

  // ----- mounted devices -----

  /** The driver's superblock check; its sums wrap at 64 bits. */
  predicate DriverHeader(dev: Bytes) {
    && |dev| >= 512
    && Int(dev, 0, 4) == 0x5346535A && Int(dev, 4, 4) == 1 && Int(dev, 8, 4) == 512 && Int(dev, 12, 4) == 512
    && Int(dev, 16, 8) % 512 == 0 && Int(dev, 16, 8) >= 2048
    && 0 < Int(dev, 24, 4) <= 32 && Int(dev, 28, 4) == 1
    && Int(dev, 32, 8) == 512 && Int(dev, 40, 8) == Int(dev, 24, 4) * 64
    && 512 + Int(dev, 40, 8) <= Int(dev, 48, 8) && Int(dev, 48, 8) % 512 == 0
    && 0 < Int(dev, 56, 8) <= 2048 && Int(dev, 56, 8) % 512 == 0
    && (Int(dev, 48, 8) + Int(dev, 56, 8)) % 0x1_0000_0000_0000_0000 <= Int(dev, 64, 8) && Int(dev, 64, 8) % 512 == 0
    && (Int(dev, 64, 8) + Int(dev, 72, 8)) % 0x1_0000_0000_0000_0000 <= Int(dev, 16, 8)
  }

  lemma DriverHeaderIff(dev: Bytes)
    ensures K.HasSuperblock(dev) <==> DriverHeader(dev)
  {
    hide Int, V.ParsedSuperblock;
    if |dev| >= 512 {
      DriverParsed(dev);
      SuperblockIs(dev);
    }
  }

  lemma DriverParsed(dev: Bytes)
    requires |dev| >= 512
    ensures UnpackSuperblock(dev[..SECTOR]) == V.ParsedSuperblock(dev)
  {
  }

  /** A mounted device carries the checksum of its superblock, of the table as it was loaded, and of its string table. */
  lemma MountedChecksum(dev: Bytes, crc: Crc, stale: Bytes)
    requires |stale| == K.ROOM && K.Mounts(dev, crc, stale) && Streams(crc)
    ensures |dev| >= 512 && Int(dev, 48, 8) + Int(dev, 56, 8) <= |dev|
    ensures FromLE(dev[0x50..0x54]) ==
            crc(dev[..0x50] + [0, 0, 0, 0] + dev[0x54..512] + K.LoadedTable(dev, stale)
                + dev[Int(dev, 48, 8)..Int(dev, 48, 8) + Int(dev, 56, 8)], 0)
  {
    hide FromLE, K.SuperblockValid, K.StartsBehind, K.GraphValid, K.LoadedTable, UnpackSuperblock, ClearCrc, MetadataCrc, Streams;
    hide K.TableRecords, V.ParsedSuperblock, K.ObjectSectors, Int;
    DriverParsed(dev);
    SuperblockIs(dev);
    Cleared(dev);
    WordRead(dev);
    var s, ss := Int(dev, 48, 8), Int(dev, 56, 8);
    Joined(crc, ClearCrc(dev[..SECTOR]), K.LoadedTable(dev, stale), dev[s..s + ss]);
  }

  lemma WordRead(dev: Bytes)
    requires |dev| >= 512
    ensures Int(dev, 0x50, 4) == FromLE(dev[0x50..0x54])
  {
  }

  /** With the table loaded whole, that is the checksum of the same bytes the host tools cover. */
  lemma WholeMountedChecksum(dev: Bytes, crc: Crc, stale: Bytes)
    requires |stale| == K.ROOM && K.Mounts(dev, crc, stale) && Streams(crc)
    requires Int(dev, 40, 8) <= (Int(dev, 48, 8) - 512) / 512 % 0x1_0000_0000 * 512
    ensures Checksummed(dev, crc)
  {
    hide FromLE, K.SuperblockValid, K.StartsBehind, K.GraphValid, K.LoadedTable, UnpackSuperblock, ClearCrc, MetadataCrc, Streams;
    hide K.TableRecords, V.ParsedSuperblock, Int, K.LoadedFs;
    DriverParsed(dev);
    SuperblockIs(dev);
    MountedChecksum(dev, crc, stale);
    LoadedWhole(dev, stale);
  }

  lemma LoadedWhole(dev: Bytes, stale: Bytes)
    requires |stale| == K.ROOM && K.HasTables(dev) && |dev| >= 512
    requires Int(dev, 40, 8) <= (Int(dev, 48, 8) - 512) / 512 % 0x1_0000_0000 * 512
    ensures Int(dev, 32, 8) == 512 && 512 + Int(dev, 40, 8) <= |dev|
    ensures K.LoadedTable(dev, stale) == dev[512..512 + Int(dev, 40, 8)]
  {
    hide FromLE, K.StartsBehind, UnpackSuperblock, V.ParsedSuperblock, Int;
    DriverParsed(dev);
    SuperblockIs(dev);
    var sb := UnpackSuperblock(dev[..SECTOR]);
    var n, t := K.ObjectSectors(sb), sb.tableSize;
    assert K.Kept(n, t) == t;
    assert stale[t..t] == [];
  }
}
