/** Images, byte for byte, on which the host verifier and the kernel driver part ways. */
module XzsfsExamples {
  import opened Bytes
  import opened XzsfsFormat
  import opened XzsfsTree
  import opened XzsfsKernel
  import opened XzsfsMounted
  import opened XzsfsAgreement
  import V = XzsfsVerify

  // ----- assembling an image -----

  /** The first `n` records, packed. */
  function Table(rs: seq<Record>, n: nat): (t: Bytes)
    requires n <= |rs|
    ensures |t| == n * OBJECT_SIZE
  {
    if n == 0 then [] else Table(rs, n - 1) + PackRecord(rs[n - 1])
  }

  /** The layout the superblock describes has room for the records and the strings. */
  predicate Lays(sb: Superblock, rs: seq<Record>, strs: Bytes) {
    && SuperblockFits(sb) && (forall i :: 0 <= i < |rs| ==> RecordFits(rs[i]))
    && sb.objectCount == |rs| && sb.tableOff == SECTOR && sb.tableSize == |rs| * OBJECT_SIZE
    && SECTOR + sb.tableSize <= sb.stringOff && sb.stringSize == |strs| && sb.stringOff + |strs| <= sb.imageSize
  }

  /** The superblock with the checksum both readers compute. */
  function Sealed(sb: Superblock, rs: seq<Record>, strs: Bytes, crc: Crc): Superblock {
    sb.(crc := MetadataCrc(crc, PackSuperblock(sb.(crc := 0)), Table(rs, |rs|), strs))
  }

  function Assemble(sb: Superblock, rs: seq<Record>, strs: Bytes, crc: Crc): (img: Bytes)
    requires Lays(sb, rs, strs)
    ensures |img| == sb.imageSize
  {
    PackSuperblock(Sealed(sb, rs, strs, crc)) + Table(rs, |rs|) + Zeros(sb.stringOff - SECTOR - sb.tableSize) +
    strs + Zeros(sb.imageSize - sb.stringOff - |strs|)
  }

  lemma FiveParts(a: Bytes, b: Bytes, c: Bytes, d: Bytes, e: Bytes)
    ensures var s := a + b + c + d + e; var n := |a| + |b| + |c|;
            s[..|a|] == a && s[|a|..|a| + |b|] == b && s[n..n + |d|] == d
  {
  }

  lemma {:induction false} TableHas(rs: seq<Record>, n: nat, i: nat)
    requires i < n <= |rs|
    ensures Table(rs, n)[i * OBJECT_SIZE..(i + 1) * OBJECT_SIZE] == PackRecord(rs[i])
    decreases n
  {
    hide PackRecord;
    var t, last := Table(rs, n - 1), PackRecord(rs[n - 1]);
    assert Table(rs, n) == t + last;
    if i < n - 1 {
      TableHas(rs, n - 1, i);
      assert (t + last)[i * OBJECT_SIZE..(i + 1) * OBJECT_SIZE] == t[i * OBJECT_SIZE..(i + 1) * OBJECT_SIZE];
    }
  }

  lemma SealedFits(sb: Superblock, rs: seq<Record>, strs: Bytes, crc: Crc)
    requires Lays(sb, rs, strs)
    ensures SuperblockFits(Sealed(sb, rs, strs, crc))
  {
    hide PackSuperblock, Table, RecordFits;
    Pow256Values();
    assert HeadFields(Sealed(sb, rs, strs, crc)) == HeadFields(sb);
  }

  lemma AssembledRecord(rs: seq<Record>, img: Bytes, n: nat, i: nat)
    requires n == |rs| * OBJECT_SIZE && |img| >= SECTOR + n && img[SECTOR..SECTOR + n] == Table(rs, |rs|)
    requires i < |rs| && RecordFits(rs[i])
    ensures SECTOR + OBJECT_SIZE * (i + 1) <= |img| && RecordAt(img, i) == rs[i]
  {
    hide PackRecord, UnpackRecord, RecordFits, Table;
    TableHas(rs, |rs|, i);
    var a, b := i * OBJECT_SIZE, (i + 1) * OBJECT_SIZE;
    assert b <= n;
    SliceSlice(img, SECTOR, SECTOR + n, a, b);
    RecordRoundTrip(rs[i]);
  }

  lemma AssembledRecords(rs: seq<Record>, img: Bytes)
    requires |img| >= SECTOR + |rs| * OBJECT_SIZE && img[SECTOR..SECTOR + |rs| * OBJECT_SIZE] == Table(rs, |rs|)
    requires forall i :: 0 <= i < |rs| ==> RecordFits(rs[i])
    ensures Records(img, |rs|) == rs
  {
    hide RecordAt, RecordFits, Table;
    forall i | 0 <= i < |rs| ensures Records(img, |rs|)[i] == rs[i] {
      AssembledRecord(rs, img, |rs| * OBJECT_SIZE, i);
    }
  }

  lemma AssembledSlices(sb: Superblock, rs: seq<Record>, strs: Bytes, crc: Crc)
    requires Lays(sb, rs, strs)
    ensures var img := Assemble(sb, rs, strs, crc);
            && img[..SECTOR] == PackSuperblock(Sealed(sb, rs, strs, crc))
            && img[SECTOR..SECTOR + sb.tableSize] == Table(rs, |rs|)
            && img[sb.stringOff..sb.stringOff + sb.stringSize] == strs
  {
    hide PackSuperblock, Table, RecordFits, SuperblockFits, Sealed;
    FiveParts(PackSuperblock(Sealed(sb, rs, strs, crc)), Table(rs, |rs|), Zeros(sb.stringOff - SECTOR - sb.tableSize),
              strs, Zeros(sb.imageSize - sb.stringOff - |strs|));
  }

  lemma SealedChecksum(sb: Superblock, rs: seq<Record>, strs: Bytes, crc: Crc)
    ensures var s := Sealed(sb, rs, strs, crc);
            s.crc == MetadataCrc(crc, ClearCrc(PackSuperblock(s)), Table(rs, |rs|), strs)
  {
    hide PackSuperblock, Table, ClearCrc, MetadataCrc;
    var s := Sealed(sb, rs, strs, crc);
    ClearCrcPacked(s);
    assert s.(crc := 0) == sb.(crc := 0);
  }

  /** Both readers find the superblock, the records and the strings again, with the right checksum. */
  lemma Assembled(sb: Superblock, rs: seq<Record>, strs: Bytes, crc: Crc)
    requires Lays(sb, rs, strs)
    ensures var img, s := Assemble(sb, rs, strs, crc), Sealed(sb, rs, strs, crc);
            && UnpackSuperblock(img[..SECTOR]) == s && img[SECTOR..SECTOR + s.tableSize] == Table(rs, |rs|)
            && Records(img, |rs|) == rs && img[s.stringOff..s.stringOff + s.stringSize] == strs
            && s.crc == MetadataCrc(crc, ClearCrc(img[..SECTOR]), img[SECTOR..SECTOR + s.tableSize], strs)
  {
    hide PackSuperblock, UnpackSuperblock, Table, RecordFits, SuperblockFits, ClearCrc, Records, MetadataCrc, Assemble;
    var img, s := Assemble(sb, rs, strs, crc), Sealed(sb, rs, strs, crc);
    AssembledSlices(sb, rs, strs, crc);
    SealedFits(sb, rs, strs, crc);
    SuperblockRoundTrip(s);
    SealedChecksum(sb, rs, strs, crc);
    AssembledRecords(rs, img);
  }

  /** An assembled image is accepted when its superblock, table and graph are. */
  lemma AssembledAccepts(sb: Superblock, rs: seq<Record>, strs: Bytes, crc: Crc)
    requires Lays(sb, rs, strs) && V.SuperblockOk(sb, sb.imageSize) && sb.imageSize % SECTOR == 0 && |rs| > 0
    requires V.TableOk(rs, sb, strs, sb.imageSize) && V.GraphOk(V.ObjectMap(rs, strs, |rs|))
    ensures V.Accepts(Assemble(sb, rs, strs, crc), crc)
    ensures var img := Assemble(sb, rs, strs, crc);
            && |img| >= SECTOR && V.SuperblockOk(V.ParsedSuperblock(img), |img|)
            && V.ParsedSuperblock(img) == Sealed(sb, rs, strs, crc) && V.ImageRecords(img) == rs
            && V.Strings(img, V.ParsedSuperblock(img)) == strs
  {
    hide PackSuperblock, UnpackSuperblock, Table, Lays, Assemble, ClearCrc, Records, V.GraphOk, V.ObjectMap, V.DistinctIds;
    LaysOut(sb, rs, strs);
    Assembled(sb, rs, strs, crc);
    ChecksumFree(rs, sb, Sealed(sb, rs, strs, crc), strs, |rs|);
  }

  lemma LaysOut(sb: Superblock, rs: seq<Record>, strs: Bytes)
    requires Lays(sb, rs, strs)
    ensures sb.objectCount == |rs| && sb.tableOff == SECTOR && sb.tableSize == |rs| * OBJECT_SIZE
    ensures sb.stringSize == |strs| && sb.imageSize >= SECTOR
  {
  }

  /** No record check reads the checksum. */
  lemma {:induction false} ChecksumFree(rs: seq<Record>, a: Superblock, b: Superblock, strs: Bytes, n: nat)
    requires n <= |rs| && b == a.(crc := b.crc)
    ensures V.RecordsOk(rs, a, strs, a.imageSize, n) == V.RecordsOk(rs, b, strs, b.imageSize, n)
    decreases n
  {
    hide V.NameOk;
    if n > 0 {
      ChecksumFree(rs, a, b, strs, n - 1);
    }
  }

  // ----- small images of 4096 bytes -----

  /** `n` objects in the first sector of the table, and a string table of one sector at `stringOff`. */
  function SmallSuperblock(n: nat, stringOff: nat): Superblock {
    Superblock(MAGIC, VERSION, SECTOR, SECTOR, 4096, n, 1, SECTOR, n * OBJECT_SIZE, stringOff, SECTOR, 2560, 1536, 0, 0)
  }

  function RootRecord(): Record {
    Record(1, 1, TYPE_DIR, 493, 0, 0, 0, 0, 0, 0, 0, 0)
  }

  function DirRecord(id: nat, parent: nat, nameOff: nat, nameLen: nat): Record {
    Record(id, parent, TYPE_DIR, 493, 0, 0, nameOff, nameLen, 0, 0, 0, 0)
  }

  /** A string table that starts with `s`. */
  function StringSector(s: Bytes): (b: Bytes)
    requires |s| <= SECTOR
    ensures |b| == SECTOR
  {
    s + Zeros(SECTOR - |s|)
  }

  predicate Small(rs: seq<Record>, stringOff: nat) {
    && 0 < |rs| <= 8 && (stringOff == 1024 || stringOff == 2048)
    && forall i :: 0 <= i < |rs| ==> RecordFits(rs[i])
  }

  lemma SmallFits(n: nat, stringOff: nat)
    requires 0 < n <= 8 && (stringOff == 1024 || stringOff == 2048)
    ensures SuperblockFits(SmallSuperblock(n, stringOff))
  {
    Pow256Values();
    var f := HeadFields(SmallSuperblock(n, stringOff));
    assert f == [MAGIC, 1, 512, 512, 4096, n, 1, 512, n * 64, stringOff, 512, 2560, 1536];
  }

  lemma SmallLays(rs: seq<Record>, stringOff: nat, strs: Bytes)
    requires Small(rs, stringOff) && |strs| == SECTOR
    ensures var sb := SmallSuperblock(|rs|, stringOff);
            && Lays(sb, rs, strs) && V.SuperblockOk(sb, 4096) && SuperblockValid(sb) && WithinLimits(sb)
            && sb.tableOff <= sb.stringOff && LoadsWholeTable(sb)
            && (StartsBehind(ObjectSectors(sb), sb.tableSize) <==> stringOff == 2048)
  {
    hide SuperblockFits, RecordFits, StartsBehind;
    var sb := SmallSuperblock(|rs|, stringOff);
    SmallFits(|rs|, stringOff);
    StartsBehindIff(ObjectSectors(sb), sb.tableSize);
  }

  function SmallImage(rs: seq<Record>, stringOff: nat, strs: Bytes, crc: Crc): Bytes
    requires Small(rs, stringOff) && |strs| == SECTOR
  {
    SmallLays(rs, stringOff, strs);
    Assemble(SmallSuperblock(|rs|, stringOff), rs, strs, crc)
  }

  lemma DirFits(id: nat, parent: nat, nameOff: nat, nameLen: nat)
    requires id < 100 && parent < 100 && nameOff < 512 && nameLen < 512
    ensures RecordFits(DirRecord(id, parent, nameOff, nameLen))
  {
    Pow256Values();
    var f := RecordFields(DirRecord(id, parent, nameOff, nameLen));
    assert f == [id, parent, 1, 493, 0, 0, nameOff, nameLen, 0, 0, 0, 0];
  }

  /** What the driver makes of an assembled image that the verifier accepts, within the driver's limits. */
  lemma AssembledOutcome(sb: Superblock, rs: seq<Record>, strs: Bytes, crc: Crc, stale: Bytes)
    requires |rs| > 0 && |stale| == ROOM && Lays(sb, rs, strs) && V.SuperblockOk(sb, sb.imageSize)
    requires sb.imageSize % SECTOR == 0 && WithinLimits(sb) && sb.tableOff <= sb.stringOff && LoadsWholeTable(sb)
    requires V.TableOk(rs, sb, strs, sb.imageSize) && V.GraphOk(V.ObjectMap(rs, strs, |rs|))
    ensures var img, behind := Assemble(sb, rs, strs, crc), StartsBehind(ObjectSectors(sb), sb.tableSize);
            && V.Accepts(img, crc) && (Overruns(img) <==> behind)
            && (Mounts(img, crc, stale) <==> !behind && DriverExtras(rs, strs))
  {
    hide V.TableOk, V.GraphOk, V.ObjectMap, V.Accepts, Overruns, Mounts, DriverExtras, StartsBehind, Lays, Assemble, Table;
    hide V.ImageRecords, V.Strings, UnpackSuperblock, MetadataCrc, V.SuperblockOk, WithinLimits, LoadsWholeTable;
    hide ObjectSectors, V.ParsedSuperblock, SuperblockValid;
    var img := Assemble(sb, rs, strs, crc);
    AssembledAccepts(sb, rs, strs, crc);
    SealedSame(sb, Sealed(sb, rs, strs, crc));
    AcceptedOverruns(img, crc);
    AcceptedMounts(img, crc, stale);
  }

  lemma SmallOutcome(rs: seq<Record>, stringOff: nat, strs: Bytes, crc: Crc, stale: Bytes)
    requires Small(rs, stringOff) && |strs| == SECTOR && |stale| == ROOM
    requires V.TableOk(rs, SmallSuperblock(|rs|, stringOff), strs, 4096) && V.GraphOk(V.ObjectMap(rs, strs, |rs|))
    ensures var img := SmallImage(rs, stringOff, strs, crc);
            && V.Accepts(img, crc) && (Overruns(img) <==> stringOff == 2048)
            && (Mounts(img, crc, stale) <==> stringOff == 1024 && DriverExtras(rs, strs))
  {
    hide V.TableOk, V.GraphOk, V.ObjectMap, V.Accepts, Overruns, Mounts, DriverExtras, StartsBehind, Lays, Assemble;
    hide V.SuperblockOk, WithinLimits, LoadsWholeTable, ObjectSectors, SuperblockValid;
    SmallLays(rs, stringOff, strs);
    AssembledOutcome(SmallSuperblock(|rs|, stringOff), rs, strs, crc, stale);
  }

  lemma SealedSame(a: Superblock, b: Superblock)
    requires b == a.(crc := b.crc) && a.tableOff <= a.stringOff
    ensures SuperblockValid(a) == SuperblockValid(b) && WithinLimits(a) == WithinLimits(b)
    ensures ObjectSectors(a) == ObjectSectors(b) && LoadsWholeTable(a) == LoadsWholeTable(b)
  {
  }

  // ----- a name with a NUL in it -----

  function NulRecords(): seq<Record> {
    [RootRecord(), DirRecord(2, 1, 1, 3)]
  }

  function NulStrings(): (b: Bytes)
    ensures |b| == SECTOR
  {
    StringSector([0, 97, 0, 98, 0])
  }

  lemma NulSmall()
    ensures Small(NulRecords(), 1024)
  {
    hide RecordFits;
    DirFits(1, 1, 0, 0);
    DirFits(2, 1, 1, 3);
    assert RootRecord() == DirRecord(1, 1, 0, 0);
  }

  lemma TwoRecords(rs: seq<Record>, sb: Superblock, strs: Bytes, len: nat)
    requires |rs| == 2 && rs[0].id != rs[1].id && V.RecordOk(rs[0], sb, strs, len) && V.RecordOk(rs[1], sb, strs, len)
    ensures V.TableOk(rs, sb, strs, len)
    ensures V.ObjectMap(rs, strs, 2) == map[rs[0].id := V.ObjectOf(rs[0], strs), rs[1].id := V.ObjectOf(rs[1], strs)]
  {
    hide V.RecordOk, V.ObjectOf;
    assert V.RecordsOk(rs, sb, strs, len, 0) && V.RecordsOk(rs, sb, strs, len, 1);
    assert V.ObjectMap(rs, strs, 1) == map[rs[0].id := V.ObjectOf(rs[0], strs)];
  }

  lemma ReachesFrom(objs: Objects, id: nat, d: nat)
    requires AtDepth(objs, id, d)
    ensures ReachesRoot(objs, id)
  {
  }

  lemma NulGraph()
    ensures V.TableOk(NulRecords(), SmallSuperblock(2, 1024), NulStrings(), 4096)
    ensures V.GraphOk(V.ObjectMap(NulRecords(), NulStrings(), 2))
  {
    hide V.ObjectMap, ReachesRoot;
    var rs, sb, strs := NulRecords(), SmallSuperblock(2, 1024), NulStrings();
    assert strs[1] == 97 && strs[2] == 0 && strs[3] == 98 && strs[4] == 0;
    TwoRecords(rs, sb, strs, 4096);
    var objs := V.ObjectMap(rs, strs, 2);
    assert AtDepth(objs, 1, 0) && AtDepth(objs, 2, 1);
    ReachesFrom(objs, 1, 0);
    ReachesFrom(objs, 2, 1);
  }

  /** The verifier accepts a directory called "a", NUL, "b"; the driver refuses to mount the image. */
  lemma NulNameRefused(crc: Crc, stale: Bytes)
    requires |stale| == ROOM
    ensures Small(NulRecords(), 1024)
    ensures var img := SmallImage(NulRecords(), 1024, NulStrings(), crc); V.Accepts(img, crc) && !Mounts(img, crc, stale)
  {
    hide Small, V.TableOk, V.GraphOk, V.ObjectMap, SmallImage, V.Accepts, Mounts, Overruns;
    var rs, strs := NulRecords(), NulStrings();
    NulSmall();
    NulGraph();
    SmallOutcome(rs, 1024, strs, crc, stale);
    assert NameIn(strs, rs[1])[1] == 0;
  }

  // ----- a parent numbered after its child -----

  function LateRecords(): seq<Record> {
    [RootRecord(), DirRecord(2, 3, 1, 1), DirRecord(3, 1, 3, 1)]
  }

  lemma LateSmall()
    ensures Small(LateRecords(), 1024)
  {
    hide RecordFits;
    DirFits(1, 1, 0, 0);
    DirFits(2, 3, 1, 1);
    DirFits(3, 1, 3, 1);
    assert RootRecord() == DirRecord(1, 1, 0, 0);
  }

  lemma ThreeRecords(rs: seq<Record>, sb: Superblock, strs: Bytes, len: nat)
    requires |rs| == 3 && rs[0].id != rs[1].id && rs[0].id != rs[2].id && rs[1].id != rs[2].id
    requires V.RecordOk(rs[0], sb, strs, len) && V.RecordOk(rs[1], sb, strs, len) && V.RecordOk(rs[2], sb, strs, len)
    ensures V.TableOk(rs, sb, strs, len)
    ensures V.ObjectMap(rs, strs, 3) ==
            map[rs[0].id := V.ObjectOf(rs[0], strs), rs[1].id := V.ObjectOf(rs[1], strs), rs[2].id := V.ObjectOf(rs[2], strs)]
  {
    hide V.RecordOk, V.ObjectOf;
    assert V.RecordsOk(rs, sb, strs, len, 0) && V.RecordsOk(rs, sb, strs, len, 1) && V.RecordsOk(rs, sb, strs, len, 2);
    assert V.ObjectMap(rs, strs, 1) == map[rs[0].id := V.ObjectOf(rs[0], strs)];
    assert V.ObjectMap(rs, strs, 2) == map[rs[0].id := V.ObjectOf(rs[0], strs), rs[1].id := V.ObjectOf(rs[1], strs)];
  }

  lemma LateGraph()
    ensures V.TableOk(LateRecords(), SmallSuperblock(3, 1024), NulStrings(), 4096)
    ensures V.GraphOk(V.ObjectMap(LateRecords(), NulStrings(), 3))
  {
    hide V.ObjectMap, ReachesRoot;
    var rs, sb, strs := LateRecords(), SmallSuperblock(3, 1024), NulStrings();
    assert strs[1] == 97 && strs[2] == 0 && strs[3] == 98 && strs[4] == 0;
    ThreeRecords(rs, sb, strs, 4096);
    var objs := V.ObjectMap(rs, strs, 3);
    assert AtDepth(objs, 1, 0) && AtDepth(objs, 3, 1);
    assert AtDepth(objs, 2, 2);
    ReachesFrom(objs, 1, 0);
    ReachesFrom(objs, 3, 1);
    ReachesFrom(objs, 2, 2);
  }

  /** The verifier accepts a directory numbered below its parent, with good names; the driver refuses the image. */
  lemma LateParentRefused(crc: Crc, stale: Bytes)
    requires |stale| == ROOM
    ensures Small(LateRecords(), 1024)
    ensures var img := SmallImage(LateRecords(), 1024, NulStrings(), crc); V.Accepts(img, crc) && !Mounts(img, crc, stale)
  {
    hide Small, V.TableOk, V.GraphOk, V.ObjectMap, SmallImage, V.Accepts, Mounts, Overruns, NulStrings;
    LateSmall();
    LateGraph();
    SmallOutcome(LateRecords(), 1024, NulStrings(), crc, stale);
    assert LateRecords()[1].parent == 3;
  }

  // ----- an accepted image that overruns -----

  lemma GapGraph()
    ensures Small([RootRecord()], 2048)
    ensures V.TableOk([RootRecord()], SmallSuperblock(1, 2048), Zeros(SECTOR), 4096)
    ensures V.GraphOk(V.ObjectMap([RootRecord()], Zeros(SECTOR), 1))
  {
    hide ReachesRoot, RecordFits;
    DirFits(1, 1, 0, 0);
    assert RootRecord() == DirRecord(1, 1, 0, 0);
    var rs, sb, strs := [RootRecord()], SmallSuperblock(1, 2048), Zeros(SECTOR);
    assert V.RecordsOk(rs, sb, strs, 4096, 0);
    assert V.ObjectMap(rs, strs, 0) == map[];
    var objs := V.ObjectMap(rs, strs, 1);
    assert objs == map[1 := V.ObjectOf(rs[0], strs)];
    assert AtDepth(objs, 1, 0);
    ReachesFrom(objs, 1, 0);
  }

  /** The verifier accepts a bare root with a gap before its string table; loading it leaves the driver's buffer. */
  lemma GapOverruns(crc: Crc)
    ensures Small([RootRecord()], 2048)
    ensures var img := SmallImage([RootRecord()], 2048, Zeros(SECTOR), crc); V.Accepts(img, crc) && Overruns(img)
  {
    hide Small, V.TableOk, V.GraphOk, V.ObjectMap, SmallImage, V.Accepts, Mounts, Overruns, DriverExtras;
    GapGraph();
    SmallOutcome([RootRecord()], 2048, Zeros(SECTOR), crc, Zeros(ROOM));
  }

  // ----- a mounted file outside the image -----

  /** A file called `a` whose extent starts one sector below 2^64 and is two sectors long. */
  function WrappedFile(): Record {
    Record(2, 1, TYPE_REG, 420, 0, 0, 1, 1, TOP - SECTOR, 2 * SECTOR, 0, 0)
  }

  function WrappedRecords(): seq<Record> {
    [RootRecord(), WrappedFile()]
  }

  lemma WrappedSmall()
    ensures Small(WrappedRecords(), 1024)
  {
    DirFits(1, 1, 0, 0);
    Pow256Values();
    assert RootRecord() == DirRecord(1, 1, 0, 0);
    var f := RecordFields(WrappedFile());
    assert f == [2, 1, 2, 420, 0, 0, 1, 1, TOP - 512, 1024, 0, 0];
    assert RecordFits(WrappedFile());
  }

  lemma WrappedGraph(sb: Superblock)
    requires sb.dataOff == 2560 && sb.imageSize == 4096
    ensures GraphValid(WrappedRecords(), sb, NulStrings()) && !EndsFit(WrappedRecords()) && !FilesInside(WrappedRecords(), sb)
  {
    var rs, strs := WrappedRecords(), NulStrings();
    assert strs[0] == 0 && strs[1] == 97 && strs[2] == 0;
    assert EndOf(rs[1]) == SECTOR;
    assert NodeValid(rs, sb, strs, 0);
    assert NameValid(rs, strs, 1);
    assert NodeValid(rs, sb, strs, 1);
    assert !EndFits(rs[1]) && !Inside(rs[1], sb);
  }

  /** An assembled device mounts when its superblock and graph are valid and the load stays in its buffer. */
  lemma AssembledMounts(sb: Superblock, rs: seq<Record>, strs: Bytes, crc: Crc, stale: Bytes)
    requires |rs| > 0 && |stale| == ROOM && Lays(sb, rs, strs) && V.SuperblockOk(sb, sb.imageSize) && SuperblockValid(sb)
    requires sb.tableOff <= sb.stringOff && LoadsWholeTable(sb) && !StartsBehind(ObjectSectors(sb), sb.tableSize)
    requires (1 + ObjectSectors(sb)) * SECTOR <= sb.imageSize
    requires GraphValid(rs, Sealed(sb, rs, strs, crc), strs)
    ensures var dev := Assemble(sb, rs, strs, crc);
            Mounts(dev, crc, stale) && LoadedFs(dev, stale) == CoreFs(Sealed(sb, rs, strs, crc), rs, strs)
  {
    hide Assemble, UnpackSuperblock, Table, GraphValid, ClearCrc, Records, LoadedTable, LoadedFs, MetadataCrc, StartsBehind,
         SuperblockValid, ObjectSectors, LoadsWholeTable, SuperblockFits, RecordFits;
    var dev, s := Assemble(sb, rs, strs, crc), Sealed(sb, rs, strs, crc);
    Assembled(sb, rs, strs, crc);
    SealedSame(sb, s);
    WholeLoad(dev, stale);
  }

  /** The driver mounts this device, whatever the checksum function; its file is not inside the image. */
  lemma WrappedFileMounts(crc: Crc, stale: Bytes)
    requires |stale| == ROOM
    ensures Small(WrappedRecords(), 1024)
    ensures var dev := SmallImage(WrappedRecords(), 1024, NulStrings(), crc);
            && Mounts(dev, crc, stale) && LoadedFs(dev, stale).nodes == WrappedRecords()
            && !FilesInside(LoadedFs(dev, stale).nodes, LoadedFs(dev, stale).sb)
  {
    hide Assemble, Table, GraphValid, Lays, NulStrings, LoadedFs, Mounts, FilesInside, StartsBehind, Small, SuperblockValid,
         MetadataCrc, V.SuperblockOk, LoadsWholeTable, RootRecord, WrappedFile;
    WrappedSmall();
    var rs, strs, sb := WrappedRecords(), NulStrings(), SmallSuperblock(2, 1024);
    SmallLays(rs, 1024, strs);
    WrappedGraph(Sealed(sb, rs, strs, crc));
    AssembledMounts(sb, rs, strs, crc, stale);
  }

  /** Reading that file from its second sector gives the device's first bytes, which are not the file's. */
  lemma WrappedFileReads(dev: Bytes)
    requires SECTOR <= |dev| <= TOP
    ensures var out := ReadOutcome(dev, WrappedFile(), SECTOR, 16);
            out == Data(dev[..16]) && !IsFilePart(out, dev, WrappedFile(), SECTOR, 16)
  {
    var base := WrappedFile().dataOff + SECTOR;
    forall k | 0 <= k < 16 ensures Position(base, k) == k && SectorThere(dev, Position(base, k)) {
    }
    assert BytesFrom(dev, base, 16) == dev[..16];
    ReadIsFilePart(dev, WrappedFile(), SECTOR, 16);
  }
}
