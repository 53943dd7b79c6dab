/** The kernel driver's own reader: mount checks, lookup by name, and sector-by-sector file reads. */
module XzsfsKernel {
  import opened Bytes
  import opened XzsfsFormat

  const MAX_OBJECTS: nat := 32
  const MAX_STRTAB: nat := 2048

  function Wrap64(x: nat): nat {
    x % 0x1_0000_0000_0000_0000
  }

  /** One sector of the device, unless it lies past the end. */
  function ReadSector(dev: Bytes, lba: nat): (s: seq<Bytes>)
    ensures |s| <= 1 && (|s| == 1 ==> |s[0]| == SECTOR)
    ensures |s| == 1 <==> (lba + 1) * SECTOR <= |dev|
  {
    if (lba + 1) * SECTOR <= |dev| then [dev[lba * SECTOR..(lba + 1) * SECTOR]] else []
  }

  // ----- mount checks -----

  predicate SuperblockValid(sb: Superblock) {
    && sb.magic == MAGIC && sb.version == VERSION
    && sb.headerSize == SECTOR && sb.sectorSize == SECTOR
    && sb.imageSize % SECTOR == 0 && 4 * SECTOR <= sb.imageSize
    && 0 < sb.objectCount <= MAX_OBJECTS && sb.rootId == 1
    && sb.tableOff == SECTOR && sb.tableSize == sb.objectCount * OBJECT_SIZE
    && Wrap64(sb.tableOff + sb.tableSize) <= sb.stringOff && sb.stringOff % SECTOR == 0
    && 0 < sb.stringSize <= MAX_STRTAB && sb.stringSize % SECTOR == 0
    && Wrap64(sb.stringOff + sb.stringSize) <= sb.dataOff && sb.dataOff % SECTOR == 0
    && Wrap64(sb.dataOff + sb.dataSize) <= sb.imageSize
  }

  function NameIn(strs: Bytes, r: Record): Bytes {
    ReadAt(strs, r.nameOff, r.nameLen)
  }

  predicate NameValid(rs: seq<Record>, strs: Bytes, i: nat)
    requires i < |rs|
  {
    var r := rs[i];
    && r.nameLen != 0 && r.nameOff + r.nameLen < |strs| && strs[r.nameOff + r.nameLen] == 0
    && (forall p :: r.nameOff <= p < r.nameOff + r.nameLen ==> strs[p] != SLASH && strs[p] != 0)
    && forall j :: 0 <= j < i ==> !SameName(rs, strs, i, j)
  }

  predicate SameName(rs: seq<Record>, strs: Bytes, i: nat, j: nat)
    requires i < |rs| && j < |rs|
  {
    rs[j].parent == rs[i].parent && rs[j].nameLen == rs[i].nameLen && NameIn(strs, rs[j]) == NameIn(strs, rs[i])
  }

  predicate ParentValid(rs: seq<Record>, i: nat)
    requires i < |rs|
  {
    0 < rs[i].parent < rs[i].id && rs[i].parent <= |rs| && rs[rs[i].parent - 1].kind == TYPE_DIR
  }

  function EndOf(r: Record): nat {
    Wrap64(r.dataOff + r.dataLen)
  }

  predicate Overlaps(a: Record, b: Record) {
    a.dataOff < EndOf(b) && b.dataOff < EndOf(a)
  }

  predicate PayloadValid(rs: seq<Record>, sb: Superblock, i: nat)
    requires i < |rs|
  {
    var r := rs[i];
    if r.kind == TYPE_DIR then r.dataOff == 0 && r.dataLen == 0
    else
      && sb.dataOff <= r.dataOff && r.dataOff % SECTOR == 0 && EndOf(r) <= sb.imageSize
      && forall j :: 0 <= j < i && rs[j].kind == TYPE_REG ==> !Overlaps(r, rs[j])
  }

  predicate NodeValid(rs: seq<Record>, sb: Superblock, strs: Bytes, i: nat)
    requires i < |rs|
  {
    && rs[i].id == i + 1
    && (rs[i].kind == TYPE_DIR || rs[i].kind == TYPE_REG)
    && (i > 0 ==> ParentValid(rs, i) && NameValid(rs, strs, i))
    && PayloadValid(rs, sb, i)
  }

  predicate RootValid(rs: seq<Record>, strs: Bytes) {
    && |rs| > 0 && |strs| > 0 && strs[0] == 0
    && rs[0].id == 1 && rs[0].parent == 1 && rs[0].kind == TYPE_DIR && rs[0].nameOff == 0 && rs[0].nameLen == 0
  }

  predicate GraphValid(rs: seq<Record>, sb: Superblock, strs: Bytes) {
    RootValid(rs, strs) && forall i :: 0 <= i < |rs| ==> NodeValid(rs, sb, strs, i)
  }

  method CheckName(rs: seq<Record>, strs: Bytes, i: nat) returns (ok: bool)
    requires i < |rs|
    ensures ok <==> NameValid(rs, strs, i)
  {
    var r := rs[i];
    if r.nameLen == 0 || r.nameOff + r.nameLen >= |strs| || strs[r.nameOff + r.nameLen] != 0 {
      return false;
    }
    for c := 0 to r.nameLen
      invariant forall p :: r.nameOff <= p < r.nameOff + c ==> strs[p] != SLASH && strs[p] != 0
    {
      if strs[r.nameOff + c] == SLASH || strs[r.nameOff + c] == 0 {
        return false;
      }
    }
    for j := 0 to i
      invariant forall k :: 0 <= k < j ==> !SameName(rs, strs, i, k)
    {
      if SameName(rs, strs, i, j) {
        return false;
      }
    }
    return true;
  }

  method CheckPayload(rs: seq<Record>, sb: Superblock, i: nat) returns (ok: bool)
    requires i < |rs|
    ensures ok <==> PayloadValid(rs, sb, i)
  {
    var r := rs[i];
    if r.kind == TYPE_DIR {
      return r.dataOff == 0 && r.dataLen == 0;
    }
    if r.dataOff < sb.dataOff || r.dataOff % SECTOR != 0 || EndOf(r) > sb.imageSize {
      return false;
    }
    for j := 0 to i
      invariant forall k :: 0 <= k < j && rs[k].kind == TYPE_REG ==> !Overlaps(r, rs[k])
    {
      if rs[j].kind == TYPE_REG && Overlaps(r, rs[j]) {
        return false;
      }
    }
    return true;
  }

  /** The driver's single pass over the object table. */
  method ValidateGraph(rs: seq<Record>, sb: Superblock, strs: Bytes) returns (valid: bool)
    requires |rs| > 0 && |strs| > 0
    ensures valid <==> GraphValid(rs, sb, strs)
  {
    hide NameValid, PayloadValid;
    if !RootValid(rs, strs) {
      return false;
    }
    for i := 0 to |rs|
      invariant forall k :: 0 <= k < i ==> NodeValid(rs, sb, strs, k)
    {
      var ok := rs[i].id == i + 1 && (rs[i].kind == TYPE_DIR || rs[i].kind == TYPE_REG);
      if ok && i > 0 {
        ok := ParentValid(rs, i);
        if ok {
          ok := CheckName(rs, strs, i);
        }
      }
      if ok {
        ok := CheckPayload(rs, sb, i);
      }
      assert ok <==> NodeValid(rs, sb, strs, i);
      if !ok {
        return false;
      }
    }
    return true;
  }

  // ----- loading the tables -----

  function Wrap32(x: nat): nat {
    x % 0x1_0000_0000
  }

  /** How many sectors the object load reads, after its cast to 32 bits. */
  function ObjectSectors(sb: Superblock): nat
    requires sb.tableOff <= sb.stringOff
  {
    Wrap32((sb.stringOff - sb.tableOff) / SECTOR)
  }

  /** The bytes kept of the first `s` sectors. */
  function Kept(s: nat, keep: nat): nat {
    if s * SECTOR <= keep then s * SECTOR else keep
  }

  /** Some of the `count` sectors starts behind the `keep` bytes there is room for. */
  predicate StartsBehind(count: nat, keep: nat) {
    exists s :: 0 <= s < count && Behind(s, keep)
  }

  predicate Behind(s: nat, keep: nat) {
    s * SECTOR > keep
  }

  lemma StartsBehindIff(count: nat, keep: nat)
    ensures StartsBehind(count, keep) <==> count > keep / SECTOR + 1
  {
    if count > keep / SECTOR + 1 {
      assert Behind(keep / SECTOR + 1, keep);
    }
  }

  /** The object load: a sector that cannot be read, a copy that leaves the buffer, or the filled buffer. */
  datatype Load = ReadFailed | Overran | Loaded(table: Bytes)

  /** The buffer after `s` sectors: the device's bytes, and what it held before behind them. */
  function Filled(dev: Bytes, s: nat, keep: nat, stale: Bytes): Bytes
    requires keep <= |stale|
  {
    ReadAt(dev, SECTOR, Kept(s, keep)) + stale[Kept(s, keep)..]
  }

  /** The table after loading. */
  function TableFrom(dev: Bytes, count: nat, keep: nat, stale: Bytes): Bytes
    requires keep <= |stale|
  {
    ReadAt(dev, SECTOR, Kept(count, keep)) + stale[Kept(count, keep)..keep]
  }

  const ROOM: nat := MAX_OBJECTS * OBJECT_SIZE

  /**
   * The sector loop of the object load. The copy size of a sector that starts behind the table wraps
   * around, so the copy runs out of the buffer; a sector that starts exactly at its end copies nothing.
   */
  method LoadObjects(dev: Bytes, count: nat, keep: nat, stale: Bytes) returns (r: Load)
    requires keep <= ROOM == |stale|
    ensures r.Overran? <==> StartsBehind(count, keep) && (keep / SECTOR + 3) * SECTOR <= |dev|
    ensures r.Loaded? <==> !StartsBehind(count, keep) && (count == 0 || (1 + count) * SECTOR <= |dev|)
    ensures r.Loaded? ==> r.table == TableFrom(dev, count, keep, stale)
  {
    hide StartsBehind, Filled, TableFrom, Splice;
    StartsBehindIff(count, keep);
    FilledNone(dev, keep, stale);
    var buf, s := stale, 0;
    while s < count
      invariant s <= count && s <= keep / SECTOR + 1
      invariant s == 0 || (1 + s) * SECTOR <= |dev|
      invariant |buf| == ROOM && buf == Filled(dev, s, keep, stale)
    {
      var sector := ReadSector(dev, 1 + s);
      if sector == [] {
        return ReadFailed;
      }
      var copied := Wrap32(s * SECTOR);
      if copied > keep {
        return Overran;
      }
      var n := if copied + SECTOR > keep then keep - copied else SECTOR;
      CopySector(dev, stale, s, keep, n);
      buf := Splice(buf, copied, sector[0][..n]);
      s := s + 1;
    }
    FilledTable(dev, s, keep, stale);
    return Loaded(buf[..keep]);
  }

  lemma FilledNone(dev: Bytes, keep: nat, stale: Bytes)
    requires keep <= |stale|
    ensures Filled(dev, 0, keep, stale) == stale
  {
  }

  lemma FilledTable(dev: Bytes, s: nat, keep: nat, stale: Bytes)
    requires keep <= |stale| && (s == 0 || (1 + s) * SECTOR <= |dev|)
    ensures |Filled(dev, s, keep, stale)| == |stale|
    ensures Filled(dev, s, keep, stale)[..keep] == TableFrom(dev, s, keep, stale)
  {
  }

  lemma CopySector(dev: Bytes, stale: Bytes, s: nat, keep: nat, n: nat)
    requires keep <= |stale| && s * SECTOR <= keep && (2 + s) * SECTOR <= |dev|
    requires n == if s * SECTOR + SECTOR > keep then keep - s * SECTOR else SECTOR
    ensures |Filled(dev, s, keep, stale)| == |stale|
    ensures Splice(Filled(dev, s, keep, stale), s * SECTOR, ReadSector(dev, 1 + s)[0][..n])
         == Filled(dev, s + 1, keep, stale)
  {
    var m := (1 + s) * SECTOR;
    assert Kept(s, keep) == s * SECTOR && Kept(s + 1, keep) == s * SECTOR + n;
    SliceSlice(dev, m, m + SECTOR, 0, n);
    assert ReadAt(dev, SECTOR, s * SECTOR) == dev[SECTOR..m];
    assert ReadAt(dev, SECTOR, s * SECTOR + n) == dev[SECTOR..m] + dev[m..m + n];
  }

  /** Reads `count` whole sectors from `lba`; fails at the end of the device. */
  method LoadStrings(dev: Bytes, lba: nat, count: nat) returns (ok: bool, strs: Bytes)
    requires count > 0
    ensures ok <==> (lba + count) * SECTOR <= |dev|
    ensures ok ==> strs == dev[lba * SECTOR..(lba + count) * SECTOR]
  {
    strs := [];
    var s := 0;
    while s < count
      invariant s <= count && (s == 0 || (lba + s) * SECTOR <= |dev|)
      invariant s == 0 ==> strs == []
      invariant s > 0 ==> strs == dev[lba * SECTOR..(lba + s) * SECTOR]
    {
      var sector := ReadSector(dev, lba + s);
      if sector == [] {
        return false, strs;
      }
      strs := strs + sector[0];
      s := s + 1;
    }
    return true, strs;
  }

  // ----- mounting -----

  datatype CoreFs = CoreFs(sb: Superblock, nodes: seq<Record>, strs: Bytes)

  function TableRecord(table: Bytes, i: nat): Record
    requires OBJECT_SIZE * (i + 1) <= |table|
  {
    UnpackRecord(table[OBJECT_SIZE * i..OBJECT_SIZE * (i + 1)])
  }

  function TableRecords(table: Bytes, n: nat): (rs: seq<Record>)
    requires OBJECT_SIZE * n <= |table|
    ensures |rs| == n
  {
    seq(n, i requires 0 <= i < n => TableRecord(table, i))
  }

  predicate HasSuperblock(dev: Bytes) {
    |dev| >= SECTOR && SuperblockValid(UnpackSuperblock(dev[..SECTOR]))
  }

  lemma ValidStarts(sb: Superblock)
    requires SuperblockValid(sb)
    ensures sb.tableOff == SECTOR && SECTOR + sb.tableSize <= sb.stringOff && sb.tableSize <= ROOM
  {
  }

  /** The object load of this device runs out of its buffer. */
  predicate Overruns(dev: Bytes) {
    && HasSuperblock(dev)
    && var sb := UnpackSuperblock(dev[..SECTOR]);
    ValidStarts(sb);
    StartsBehind(ObjectSectors(sb), sb.tableSize) && (sb.tableSize / SECTOR + 3) * SECTOR <= |dev|
  }

  /** Both tables load. */
  predicate HasTables(dev: Bytes) {
    && HasSuperblock(dev)
    && var sb := UnpackSuperblock(dev[..SECTOR]);
    ValidStarts(sb);
    && !StartsBehind(ObjectSectors(sb), sb.tableSize)
    && (ObjectSectors(sb) == 0 || (1 + ObjectSectors(sb)) * SECTOR <= |dev|)
    && sb.stringOff + sb.stringSize <= |dev|
  }

  function LoadedTable(dev: Bytes, stale: Bytes): (t: Bytes)
    requires HasTables(dev) && |stale| == ROOM
  {
    var sb := UnpackSuperblock(dev[..SECTOR]);
    ValidStarts(sb);
    TableFrom(dev, ObjectSectors(sb), sb.tableSize, stale)
  }

  lemma LoadedTableSize(dev: Bytes, stale: Bytes)
    requires HasTables(dev) && |stale| == ROOM
    ensures |LoadedTable(dev, stale)| == UnpackSuperblock(dev[..SECTOR]).tableSize
  {
    hide UnpackSuperblock;
    StartsBehindIff(ObjectSectors(UnpackSuperblock(dev[..SECTOR])), UnpackSuperblock(dev[..SECTOR]).tableSize);
  }

  /** Unless the sector count wraps, the whole table comes from the device, whatever the buffer held. */
  lemma WholeTable(dev: Bytes, stale: Bytes)
    requires HasTables(dev) && |stale| == ROOM
    requires (UnpackSuperblock(dev[..SECTOR]).stringOff - SECTOR) / SECTOR < 0x1_0000_0000
    ensures SECTOR + UnpackSuperblock(dev[..SECTOR]).tableSize <= |dev|
    ensures LoadedTable(dev, stale) == dev[SECTOR..SECTOR + UnpackSuperblock(dev[..SECTOR]).tableSize]
  {
    hide UnpackSuperblock, StartsBehind;
    var sb := UnpackSuperblock(dev[..SECTOR]);
    var n := ObjectSectors(sb);
    assert n * SECTOR == sb.stringOff - SECTOR >= sb.tableSize;
    assert Kept(n, sb.tableSize) == sb.tableSize;
  }

  lemma SameRecords(dev: Bytes, n: nat)
    requires SECTOR + OBJECT_SIZE * n <= |dev|
    ensures TableRecords(dev[SECTOR..SECTOR + OBJECT_SIZE * n], n) == Records(dev, n)
  {
    hide UnpackRecord;
    forall i | 0 <= i < n ensures TableRecords(dev[SECTOR..SECTOR + OBJECT_SIZE * n], n)[i] == Records(dev, n)[i] {
      SliceSlice(dev, SECTOR, SECTOR + OBJECT_SIZE * n, OBJECT_SIZE * i, OBJECT_SIZE * (i + 1));
    }
  }

  /** What the driver keeps of a device: superblock, object nodes and string table. */
  function LoadedFs(dev: Bytes, stale: Bytes): CoreFs
    requires HasTables(dev) && |stale| == ROOM
  {
    var sb := UnpackSuperblock(dev[..SECTOR]);
    LoadedTableSize(dev, stale);
    CoreFs(sb, TableRecords(LoadedTable(dev, stale), sb.objectCount), dev[sb.stringOff..sb.stringOff + sb.stringSize])
  }

  predicate Mounts(dev: Bytes, crc: Crc, stale: Bytes)
    requires |stale| == ROOM
  {
    && HasTables(dev)
    && var fs := LoadedFs(dev, stale);
    && fs.sb.crc == MetadataCrc(crc, ClearCrc(dev[..SECTOR]), LoadedTable(dev, stale), fs.strs)
    && GraphValid(fs.nodes, fs.sb, fs.strs)
  }

  /** On a device of at most 2 TiB the former content of the object buffer decides nothing. */
  lemma StaleIrrelevant(dev: Bytes, crc: Crc, s: Bytes, t: Bytes)
    requires |s| == ROOM && |t| == ROOM && |dev| <= 0x200_0000_0000
    ensures Mounts(dev, crc, s) <==> Mounts(dev, crc, t)
    ensures HasTables(dev) ==> LoadedFs(dev, s) == LoadedFs(dev, t)
  {
    hide UnpackSuperblock, StartsBehind, GraphValid, TableRecords, LoadedTable, ClearCrc;
    if HasTables(dev) {
      WholeTable(dev, s);
      WholeTable(dev, t);
    }
  }

  datatype MountResult = Rejected | OutOfBounds | Mounted(fs: CoreFs)

  /**
   * Superblock, tables, checksum and graph, in the order the driver checks them. `stale` is what the
   * object buffer on the stack held before.
   */
  method Mount(dev: Bytes, crc: Crc, stale: Bytes) returns (r: MountResult)
    requires |stale| == ROOM
    ensures r.OutOfBounds? <==> Overruns(dev)
    ensures r.Mounted? <==> Mounts(dev, crc, stale)
    ensures r.Mounted? ==> r.fs == LoadedFs(dev, stale)
  {
    hide UnpackSuperblock, TableRecords, GraphValid, StartsBehind, TableFrom;
    var first := ReadSector(dev, 0);
    if first == [] {
      return Rejected;
    }
    var sb := UnpackSuperblock(first[0]);
    assert first[0] == dev[..SECTOR];
    if !SuperblockValid(sb) {
      return Rejected;
    }
    ValidStarts(sb);
    var load := LoadObjects(dev, ObjectSectors(sb), sb.tableSize, stale);
    if load.Overran? {
      return OutOfBounds;
    }
    if load.ReadFailed? {
      return Rejected;
    }
    var named, strs := LoadStrings(dev, sb.stringOff / SECTOR, sb.stringSize / SECTOR);
    if !named {
      return Rejected;
    }
    assert strs == dev[sb.stringOff..sb.stringOff + sb.stringSize];
    LoadedTableSize(dev, stale);
    var nodes := TableRecords(load.table, sb.objectCount);
    if sb.crc != MetadataCrc(crc, ClearCrc(first[0]), load.table, strs) {
      return Rejected;
    }
    var valid := ValidateGraph(nodes, sb, strs);
    if !valid {
      return Rejected;
    }
    return Mounted(CoreFs(sb, nodes, strs));
  }

  // ----- lookup -----

  datatype Lookup = Found(id: nat) | NoEntry | NotDirectory | Invalid

  const DOT: byte := 46

  /** Object `i` is the child of `parent` called `name`. */
  predicate IsChild(rs: seq<Record>, strs: Bytes, parent: nat, name: Bytes, i: nat)
    requires i < |rs|
  {
    i != 0 && rs[i].parent == parent && rs[i].nameLen == |name| && NameIn(strs, rs[i]) == name
  }

  method LookupName(rs: seq<Record>, strs: Bytes, parent: nat, name: Bytes) returns (r: Lookup)
    requires forall i :: 0 <= i < |rs| ==> 0 < rs[i].parent <= |rs|
    ensures r == Invalid <==> parent == 0 || parent > |rs|
    ensures r == NotDirectory <==> 0 < parent <= |rs| && rs[parent - 1].kind != TYPE_DIR
    ensures 0 < parent <= |rs| && rs[parent - 1].kind == TYPE_DIR && name == [DOT] ==> r == Found(rs[parent - 1].id)
    ensures 0 < parent <= |rs| && rs[parent - 1].kind == TYPE_DIR && name == [DOT, DOT] ==>
      r == Found(rs[rs[parent - 1].parent - 1].id)
    ensures r.Found? && name != [DOT] && name != [DOT, DOT] ==>
      exists i :: 0 <= i < |rs| && rs[i].id == r.id && IsChild(rs, strs, parent, name, i)
    ensures r == NoEntry ==> forall i :: 0 <= i < |rs| ==> !IsChild(rs, strs, parent, name, i)
  {
    if parent == 0 || parent > |rs| {
      return Invalid;
    }
    if rs[parent - 1].kind != TYPE_DIR {
      return NotDirectory;
    }
    if |name| == 1 && name[0] == DOT {
      return Found(rs[parent - 1].id);
    }
    if |name| == 2 && name[0] == DOT && name[1] == DOT {
      return Found(rs[rs[parent - 1].parent - 1].id);
    }
    for i := 0 to |rs|
      invariant forall k :: 0 <= k < i ==> !IsChild(rs, strs, parent, name, k)
    {
      if IsChild(rs, strs, parent, name, i) {
        return Found(rs[i].id);
      }
    }
    return NoEntry;
  }

  /** In a valid graph a name under a directory denotes at most one object. */
  lemma ChildUnique(rs: seq<Record>, sb: Superblock, strs: Bytes, parent: nat, name: Bytes, i: nat, j: nat)
    requires GraphValid(rs, sb, strs) && i < |rs| && j < |rs|
    requires IsChild(rs, strs, parent, name, i) && IsChild(rs, strs, parent, name, j)
    ensures i == j
  {
    assert NodeValid(rs, sb, strs, i) && NodeValid(rs, sb, strs, j);
    if i < j {
      assert SameName(rs, strs, j, i);
    } else if j < i {
      assert SameName(rs, strs, i, j);
    }
  }

  // ----- reading a file, one sector at a time -----

  type u64 = x: int | 0 <= x < 0x1_0000_0000_0000_0000

  datatype ReadResult = Data(bytes: Bytes) | NotRegular | IoError

  /** The device position of the `k`-th byte from `base`, in 64-bit arithmetic. */
  function Position(base: nat, k: nat): nat {
    Wrap64(base + k)
  }

  /** Every sector holding one of the `n` bytes from `base`, counted modulo 2^64, is on the device. */
  predicate OnDevice(dev: Bytes, base: nat, n: nat) {
    forall k :: 0 <= k < n ==> SectorThere(dev, Position(base, k))
  }

  predicate SectorThere(dev: Bytes, pos: nat) {
    (pos / SECTOR + 1) * SECTOR <= |dev|
  }

  lemma ThereInside(dev: Bytes, pos: nat)
    requires SectorThere(dev, pos)
    ensures pos < |dev|
  {
  }

  function ByteAt(dev: Bytes, base: nat, n: nat, k: nat): (b: byte)
    requires OnDevice(dev, base, n) && k < n
    ensures Position(base, k) < |dev| && b == dev[Position(base, k)]
  {
    ThereInside(dev, Position(base, k));
    dev[Position(base, k)]
  }

  /** The `n` bytes from `base`, at positions modulo 2^64. */
  function BytesFrom(dev: Bytes, base: nat, n: nat): (b: Bytes)
    requires OnDevice(dev, base, n)
    ensures |b| == n && forall k :: 0 <= k < n ==> Position(base, k) < |dev| && b[k] == dev[Position(base, k)]
  {
    seq(n, k requires 0 <= k < n => ByteAt(dev, base, n, k))
  }

  /** How many bytes the driver sets out to read; the end of the request is compared modulo 2^64. */
  function ToRead(r: Record, offset: u64, len: u64): nat {
    if offset >= r.dataLen then 0 else if Wrap64(offset + len) > r.dataLen then r.dataLen - offset else len
  }

  function ReadOutcome(dev: Bytes, r: Record, offset: u64, len: u64): ReadResult {
    if r.kind != TYPE_REG then NotRegular
    else if OnDevice(dev, r.dataOff + offset, ToRead(r, offset, len))
    then Data(BytesFrom(dev, r.dataOff + offset, ToRead(r, offset, len)))
    else IoError
  }

  /** The positions of one chunk lie in one sector, also behind a wrap-around. */
  lemma ChunkPositions(base: nat, done: nat, k: nat)
    requires done <= k < done + (SECTOR - Position(base, done) % SECTOR)
    ensures var pos := Position(base, done);
            Position(base, k) == pos + (k - done) && (pos + (k - done)) / SECTOR == pos / SECTOR
  {
    var pos, d := Position(base, done), k - done;
    var q := (base + done) / 0x1_0000_0000_0000_0000;
    assert base + done == q * 0x1_0000_0000_0000_0000 + pos;
    assert pos + d < (pos / SECTOR + 1) * SECTOR <= 0x1_0000_0000_0000_0000;
    assert base + k == q * 0x1_0000_0000_0000_0000 + (pos + d);
  }

  /** Reads up to `len` bytes of a regular file from `offset`, one sector at a time, in 64-bit arithmetic. */
  method ReadFile(dev: Bytes, r: Record, offset: u64, len: u64) returns (out: ReadResult)
    ensures out == ReadOutcome(dev, r, offset, len)
  {
    hide OnDevice, BytesFrom;
    if r.kind != TYPE_REG {
      return NotRegular;
    }
    if offset >= r.dataLen || len == 0 {
      NothingToRead(dev, r.dataOff + offset);
      return Data([]);
    }
    var toRead: nat := len;
    if Wrap64(offset + toRead) > r.dataLen {
      toRead := r.dataLen - offset;
    }
    out := ReadSpan(dev, r.dataOff + offset, toRead);
  }

  lemma NothingToRead(dev: Bytes, base: nat)
    ensures OnDevice(dev, base, 0) && BytesFrom(dev, base, 0) == []
  {
  }

  lemma OnDeviceMore(dev: Bytes, base: nat, done: nat, chunk: nat)
    requires OnDevice(dev, base, done) && 0 < chunk <= SECTOR - Position(base, done) % SECTOR
    requires SectorThere(dev, Position(base, done))
    ensures OnDevice(dev, base, done + chunk)
    ensures var pos := Position(base, done);
            BytesFrom(dev, base, done + chunk) ==
            BytesFrom(dev, base, done) + ReadSector(dev, pos / SECTOR)[0][pos % SECTOR..pos % SECTOR + chunk]
  {
    var pos := Position(base, done);
    forall k | done <= k < done + chunk ensures SectorThere(dev, Position(base, k)) {
      ChunkPositions(base, done, k);
    }
    assert OnDevice(dev, base, done + chunk);
    var sector := ReadSector(dev, pos / SECTOR)[0];
    var all := BytesFrom(dev, base, done) + sector[pos % SECTOR..pos % SECTOR + chunk];
    forall k | 0 <= k < done + chunk ensures all[k] == BytesFrom(dev, base, done + chunk)[k] {
      if k >= done {
        ChunkPositions(base, done, k);
      }
    }
  }

  method ReadSpan(dev: Bytes, base: nat, toRead: nat) returns (out: ReadResult)
    ensures out == if OnDevice(dev, base, toRead) then Data(BytesFrom(dev, base, toRead)) else IoError
  {
    hide OnDevice, BytesFrom;
    NothingToRead(dev, base);
    var buf, done := [], 0;
    while done < toRead
      invariant done <= toRead && OnDevice(dev, base, done) && buf == BytesFrom(dev, base, done)
    {
      var pos := Position(base, done);
      var chunk := SECTOR - pos % SECTOR;
      if chunk > toRead - done {
        chunk := toRead - done;
      }
      var sector := ReadSector(dev, pos / SECTOR);
      if sector == [] {
        OffDevice(dev, base, done, toRead);
        return IoError;
      }
      OnDeviceMore(dev, base, done, chunk);
      buf := buf + sector[0][pos % SECTOR..pos % SECTOR + chunk];
      done := done + chunk;
    }
    return Data(buf);
  }

  lemma OffDevice(dev: Bytes, base: nat, k: nat, n: nat)
    requires k < n && !SectorThere(dev, Position(base, k))
    ensures !OnDevice(dev, base, n)
  {
  }

  // ----- when a read returns the file -----

  /** How many of the `len` bytes from `offset` the file has. */
  function Clamped(r: Record, offset: nat, len: nat): nat {
    if offset >= r.dataLen then 0 else if offset + len > r.dataLen then r.dataLen - offset else len
  }

  /** Neither the end of the request nor the last position read passes 64 bits. */
  predicate NoWrap(r: Record, offset: u64, len: u64) {
    offset + len < 0x1_0000_0000_0000_0000 && r.dataOff + offset + Clamped(r, offset, len) <= 0x1_0000_0000_0000_0000
  }

  /** `out` is the part of the file's extent that was asked for. */
  predicate IsFilePart(out: ReadResult, dev: Bytes, r: Record, offset: u64, len: u64) {
    var n := Clamped(r, offset, len);
    out.Data? && r.dataOff + offset + n <= |dev| && out.bytes == dev[r.dataOff + offset..r.dataOff + offset + n]
  }

  lemma UnwrappedRead(dev: Bytes, base: nat, n: nat)
    requires base + n <= 0x1_0000_0000_0000_0000
    ensures OnDevice(dev, base, n) <==> n == 0 || SectorThere(dev, base + n - 1)
    ensures OnDevice(dev, base, n) && n > 0 ==> base + n <= |dev| && BytesFrom(dev, base, n) == dev[base..base + n]
  {
    assert forall k :: 0 <= k < n ==> Position(base, k) == base + k && (base + k) / SECTOR <= (base + n - 1) / SECTOR;
    if n > 0 {
      assert SectorThere(dev, Position(base, n - 1)) == SectorThere(dev, base + n - 1);
      if OnDevice(dev, base, n) {
        ThereInside(dev, base + n - 1);
        assert BytesFrom(dev, base, n) == dev[base..base + n];
      }
    }
  }

  /** On any device a read that succeeds returns the file's bytes if and only if neither sum wraps. */
  lemma ReadIsFilePart(dev: Bytes, r: Record, offset: u64, len: u64)
    requires |dev| <= 0x1_0000_0000_0000_0000 && r.dataLen < 0x1_0000_0000_0000_0000
    requires r.kind == TYPE_REG && offset < r.dataLen && len > 0 && ReadOutcome(dev, r, offset, len).Data?
    ensures IsFilePart(ReadOutcome(dev, r, offset, len), dev, r, offset, len) <==> NoWrap(r, offset, len)
  {
    hide OnDevice, BytesFrom;
    if NoWrap(r, offset, len) {
      assert ToRead(r, offset, len) == Clamped(r, offset, len);
      UnwrappedRead(dev, r.dataOff + offset, Clamped(r, offset, len));
    } else if offset + len >= 0x1_0000_0000_0000_0000 {
      assert ToRead(r, offset, len) == len > Clamped(r, offset, len);
    }
  }
}
