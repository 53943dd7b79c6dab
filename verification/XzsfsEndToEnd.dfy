/** From a directory tree, through the host builder, to the kernel driver's lookup and read. */
module XzsfsEndToEnd {
  import opened Bytes
  import opened XzsfsFormat
  import opened XzsfsTree
  import opened XzsfsBuild
  import opened XzsfsRoundTrip
  import V = XzsfsVerify
  import opened K = XzsfsKernel

  // ----- which built images the driver mounts -----

  /** The driver's own limits: 32 objects, a 2048-byte string table, at least four sectors. */
  predicate WithinDriverLimits(es: seq<Entry>) {
    Count(es) <= MAX_OBJECTS && |StringTable(es)| <= MAX_STRTAB && 4 * SECTOR <= ImageSize(es)
  }

  lemma SizeFits(es: seq<Entry>)
    requires ParentsFound(es) && FieldsFit(es)
    ensures ImageSize(es) < 0x1_0000_0000_0000_0000
  {
    Pow256Values();
    var f := HeadFields(SuperblockFor(es, 0));
    assert f[4] < Pow256(SB_HEAD[4]);
  }

  lemma SuperblockMounts(es: seq<Entry>, crc: nat)
    requires ImageSize(es) < 0x1_0000_0000_0000_0000
    ensures SuperblockValid(SuperblockFor(es, crc)) <==> WithinDriverLimits(es)
    ensures StringsFollowTable(SuperblockFor(es, crc))
  {
    hide StringsUpTo, StringTable, AlignSector, DataUpTo, Wrap64;
    var sb := SuperblockFor(es, crc);
    StringTableHasSector(es);
    SectorsAdd(SECTOR, AlignSector(TableSize(es)));
    SectorsAdd(StringStart(es), |StringTable(es)|);
    SectorsAdd(DataStart(es), |DataUpTo(es, Count(es))|);
    WrapSmall(sb.tableOff + sb.tableSize);
    WrapSmall(sb.stringOff + sb.stringSize);
    WrapSmall(sb.dataOff + sb.dataSize);
  }

  lemma StringTableHasSector(es: seq<Entry>)
    ensures |StringTable(es)| >= SECTOR
  {
    hide StringsUpTo;
  }

  lemma WrapSmall(x: nat)
    requires x < 0x1_0000_0000_0000_0000
    ensures Wrap64(x) == x
  {
  }

  lemma NameLoaded(es: seq<Entry>, i: nat)
    requires NamesMatch(es) && i < Count(es) && ParentFound(es, i)
    ensures NameIn(StringTable(es), RecordFor(es, i)) == NameAt(es, i)
  {
    hide NameAt, StringTable, NamesMatch, DataOffset, ParentAt, PayloadAt;
    if i > 0 {
      NameRead(es, i);
    } else {
      RootParts(es);
    }
  }

  lemma NoNulInName(n: Bytes)
    requires NameMatches(n)
    ensures 0 !in n
  {
    forall p | 0 <= p < |n| ensures n[p] != 0 {
      if !NameChars(n) && p < |n| - 1 {
        assert n[..|n| - 1][p] == n[p];
      }
    }
  }

  lemma NameMounts(rs: seq<Record>, es: seq<Entry>, i: nat)
    requires NamesMatch(es) && ParentsFound(es) && KeysUnique(es, Count(es)) && RecordsAre(rs, es) && 0 < i < |rs|
    ensures NameValid(rs, StringTable(es), i)
  {
    hide NameAt, StringTable, NameMatches, ParentAt, ParentFound, DataOffset, PayloadAt;
    var strs, o, name := StringTable(es), NameOffset(es, i), NameAt(es, i);
    NameRead(es, i);
    NoNulInName(name);
    assert rs[i] == RecordFor(es, i);
    assert strs[o..o + |name|] == name;
    forall p | o <= p < o + |name| ensures strs[p] != SLASH && strs[p] != 0 {
      assert strs[p] == name[p - o];
    }
    forall j | 0 <= j < i ensures !SameName(rs, strs, i, j) {
      assert rs[j] == RecordFor(es, j);
      NameLoaded(es, i);
      NameLoaded(es, j);
      if j > 0 {
        assert KeyAt(es, j) != KeyAt(es, i);
      } else {
        RootParts(es);
      }
    }
  }

  lemma EndFits(es: seq<Entry>, i: nat)
    requires i < Count(es) && ParentFound(es, i) && ImageSize(es) < 0x1_0000_0000_0000_0000
    ensures EndOf(RecordFor(es, i)) == RecordFor(es, i).dataOff + RecordFor(es, i).dataLen <= ImageSize(es)
  {
    hide NameAt, PayloadAt, ParentAt, DataUpTo, DataStart;
    DataSlice(es, Count(es), i);
    if IsDirAt(es, i) {
      DirEmpty(es, i);
    }
  }

  lemma DirEmpty(es: seq<Entry>, i: nat)
    requires i < Count(es) && IsDirAt(es, i)
    ensures PayloadAt(es, i) == []
  {
  }

  lemma PayloadMounts(rs: seq<Record>, es: seq<Entry>, crc: nat, i: nat)
    requires ParentsFound(es) && RecordsAre(rs, es) && i < |rs| && ImageSize(es) < 0x1_0000_0000_0000_0000
    ensures PayloadValid(rs, SuperblockFor(es, crc), i)
  {
    hide NameAt, PayloadAt, ParentAt, DataUpTo, DataStart, EndOf, ParentFound;
    assert rs[i] == RecordFor(es, i);
    PayloadAccepted(es, i);
    EndFits(es, i);
    forall j | 0 <= j < i && rs[j].kind == TYPE_REG && rs[i].kind == TYPE_REG ensures !Overlaps(rs[i], rs[j]) {
      assert rs[j] == RecordFor(es, j);
      EndFits(es, j);
      DataSlice(es, i, j);
    }
  }

  lemma ParentMounts(rs: seq<Record>, es: seq<Entry>, i: nat)
    requires Sorted(es) && WalkTree(es) && ParentsFound(es) && RecordsAre(rs, es) && 0 < i < |rs|
    ensures ParentValid(rs, i)
  {
    hide Sorted, WalkTree, NameAt, PathAt, ParentAt, ParentFound, DataOffset, PayloadAt;
    var j := ParentBefore(es, i);
    assert rs[i] == RecordFor(es, i) && rs[j] == RecordFor(es, j);
  }

  lemma RootMounts(rs: seq<Record>, es: seq<Entry>)
    requires ParentsFound(es) && RecordsAre(rs, es)
    ensures RootValid(rs, StringTable(es))
  {
    assert rs[0] == RecordFor(es, 0);
    RootParts(es);
    TableStartsEmpty(es, Count(es));
  }

  lemma GraphMounts(rs: seq<Record>, es: seq<Entry>, crc: nat)
    requires Sorted(es) && WalkTree(es) && Buildable(es) && RecordsAre(rs, es)
    ensures GraphValid(rs, SuperblockFor(es, crc), StringTable(es))
  {
    hide Sorted, WalkTree, Buildable, NamesMatch, ParentsFound, KeysUnique, FieldsFit, SuperblockFor;
    hide ParentValid, NameValid, PayloadValid, ParentFound, DataOffset, NameOffset, StringTable, RootValid;
    BuildableParents(es);
    SizeFits(es);
    RootMounts(rs, es);
    forall i | 0 <= i < |rs| ensures NodeValid(rs, SuperblockFor(es, crc), StringTable(es), i) {
      assert rs[i] == RecordFor(es, i);
      if i > 0 {
        ParentMounts(rs, es, i);
        NameMounts(rs, es, i);
      }
      PayloadMounts(rs, es, crc, i);
    }
  }

  lemma {:induction false} TableStartsEmpty(es: seq<Entry>, k: nat)
    requires k <= Count(es)
    ensures StringsUpTo(es, k)[0] == 0
  {
    if k > 1 {
      TableStartsEmpty(es, k - 1);
    }
  }

  /** The string table starts at the first sector boundary after the object table, where the builder puts it. */
  predicate StringsFollowTable(sb: Superblock) {
    sb.stringOff == SECTOR + AlignSector(sb.tableSize)
  }

  lemma PlainLoad(img: Bytes, crc: Crc, sb: Superblock, stale: Bytes)
    requires V.HeaderOk(img, crc) && V.ParsedSuperblock(img) == sb && StringsFollowTable(sb) && |stale| == ROOM
    requires SuperblockValid(sb)
    ensures HasTables(img) && LoadedTable(img, stale) == img[SECTOR..SECTOR + sb.tableSize]
    ensures LoadedFs(img, stale) == CoreFs(sb, V.ImageRecords(img), V.Strings(img, sb))
  {
    hide Records, TableRecords, UnpackSuperblock, StartsBehind, LoadedTable;
    ValidStarts(sb);
    assert ObjectSectors(sb) == AlignSector(sb.tableSize) / SECTOR;
    StartsBehindIff(ObjectSectors(sb), sb.tableSize);
    WholeTable(img, stale);
    SameRecords(img, sb.objectCount);
  }

  /** On an image the verifier's header checks pass, mounting adds only the driver's limits and graph checks. */
  lemma MountsFrom(img: Bytes, crc: Crc, sb: Superblock, stale: Bytes)
    requires V.HeaderOk(img, crc) && V.ParsedSuperblock(img) == sb && StringsFollowTable(sb) && |stale| == ROOM
    requires GraphValid(V.ImageRecords(img), sb, V.Strings(img, sb))
    ensures Mounts(img, crc, stale) <==> SuperblockValid(sb)
  {
    hide GraphValid, Records, UnpackSuperblock, ClearCrc, StartsBehind, TableRecords, LoadedTable, StringsFollowTable;
    if SuperblockValid(sb) {
      PlainLoad(img, crc, sb, stale);
    }
  }

  /**
   * The driver mounts the image of a tree exactly when the tree keeps within its limits; nothing the
   * builder accepts is rejected for any other reason.
   */
  lemma MountsIff(es: seq<Entry>, crc: Crc, stale: Bytes)
    requires Sorted(es) && WalkTree(es) && Buildable(es) && |stale| == ROOM
    ensures Mounts(ImageOf(es, crc), crc, stale) <==> WithinDriverLimits(es)
  {
    hide ImageOf, Sorted, WalkTree, Buildable, FieldsFit, ParentsFound, KeysUnique, NamesMatch, GraphValid;
    hide SuperblockFor, StringTable, RecordsAre, Records, UnpackSuperblock, SuperblockValid, StringsFollowTable;
    hide V.SuperblockOk, WithinDriverLimits, V.HeaderOk, Mounts, V.ParsedSuperblock, V.ImageRecords;
    BuildableParents(es);
    SizeFits(es);
    var img, c := ImageOf(es, crc), ImageCrc(es, crc);
    SuperblockMounts(es, c);
    AcceptedParts(es, crc);
    HeaderAccepted(es, crc);
    GraphMounts(V.ImageRecords(img), es, c);
    MountsFrom(img, crc, SuperblockFor(es, c), stale);
  }

  /** The object load of a built image never leaves its buffer. */
  lemma BuiltNeverOverruns(es: seq<Entry>, crc: Crc)
    requires Buildable(es)
    ensures !Overruns(ImageOf(es, crc))
  {
    hide ImageOf, UnpackSuperblock, Buildable, StartsBehind;
    BuiltSuperblock(es, crc);
    var sb := UnpackSuperblock(ImageOf(es, crc)[..SECTOR]);
    if SuperblockValid(sb) {
      ValidStarts(sb);
      assert ObjectSectors(sb) == AlignSector(sb.tableSize) / SECTOR;
      StartsBehindIff(ObjectSectors(sb), sb.tableSize);
    }
  }

  lemma EmptyRecordFits()
    ensures ParentFound([], 0) && RecordFits(RecordFor([], 0))
  {
    Pow256Values();
    RootParts([]);
    var f := RecordFields(RecordFor([], 0));
    assert f == [1, 1, 1, 493, 0, 0, 0, 0, 0, 0, 0, 0];
  }

  lemma EmptySuperblockFits()
    ensures ImageSize([]) == 3 * SECTOR && SuperblockFits(SuperblockFor([], 0))
  {
    Pow256Values();
    RootParts([]);
    assert DataUpTo([], 1) == [];
    assert StringsUpTo([], 1) == [0] && |StringTable([])| == SECTOR;
    var f := HeadFields(SuperblockFor([], 0));
    assert f == [MAGIC, 1, 512, 512, 1536, 1, 1, 512, 64, 1024, 512, 1536, 0];
  }

  lemma EmptyBuildable()
    ensures Buildable([])
  {
    hide RecordFits, SuperblockFits, RecordFor, SuperblockFor, ParentFound;
    EmptyRecordFits();
    EmptySuperblockFits();
  }

  /** A bare root directory builds and verifies but does not mount: its image is only three sectors. */
  lemma EmptyTreeDoesNotMount(crc: Crc, stale: Bytes)
    requires |stale| == ROOM
    ensures Sorted([]) && WalkTree([]) && Buildable([])
    ensures V.Accepts(ImageOf([], crc), crc) && !Mounts(ImageOf([], crc), crc, stale)
  {
    hide ImageOf, V.Accepts, Mounts, Buildable, SuperblockFor, StringTable, ImageSize;
    EmptyBuildable();
    EmptySuperblockFits();
    SortedRoundTrip([], crc);
    MountsIff([], crc, stale);
  }

  // ----- resolving a path and reading the file -----

  /** The object `k` steps below the root on the way to `id`. */
  lemma {:induction false} AncestorAt(objs: Objects, id: nat, d: nat, k: nat) returns (a: nat)
    requires AtDepth(objs, id, d) && k <= d
    ensures AtDepth(objs, a, k) && Parts(objs, a, k) == Parts(objs, id, d)[..k]
    decreases d
  {
    if k == d {
      a := id;
    } else {
      a := AncestorAt(objs, objs[id].rec.parent, d - 1, k);
    }
  }

  /** A mounted image of the tree `es`, with the objects the verifier would report for it. */
  ghost predicate MountedTree(fs: CoreFs, objs: Objects, es: seq<Entry>) {
    && Sorted(es) && WalkTree(es) && Buildable(es)
    && ParentsFound(es) && RecordsAre(fs.nodes, es) && Holds(objs, es)
    && fs.strs == StringTable(es) && GraphValid(fs.nodes, fs.sb, fs.strs)
    && HierarchyOk(objs) && NamesUnique(objs) && 0 !in objs
  }

  lemma NodeIs(fs: CoreFs, objs: Objects, es: seq<Entry>, id: nat)
    requires MountedTree(fs, objs, es) && id in objs
    ensures 0 < id <= |fs.nodes| && fs.nodes[id - 1] == objs[id].rec && fs.nodes[id - 1].id == id
    ensures NameIn(fs.strs, fs.nodes[id - 1]) == objs[id].name && fs.nodes[id - 1].nameLen == |objs[id].name|
  {
    hide Sorted, WalkTree, Buildable, Holds, GraphValid, HierarchyOk, NamesUnique, StringTable, NameAt;
    hide NameOffset, DataOffset, ParentAt, PayloadAt, ModeAt, KeysUnique, FieldsFit, NamesMatch;
    var i := HoldsIndex(objs, es, id);
    HoldsAt(objs, es, i);
    BuildableParents(es);
    NameLoaded(es, i);
  }

  /** Below the object whose path is `parts[..k]`, the next component names exactly one child. */
  lemma NextChild(fs: CoreFs, objs: Objects, es: seq<Entry>, id: nat, d: nat, k: nat, c: nat) returns (a: nat)
    requires MountedTree(fs, objs, es) && AtDepth(objs, id, d) && k < d
    requires AtDepth(objs, c, k) && Parts(objs, c, k) == Parts(objs, id, d)[..k]
    ensures a in objs && AtDepth(objs, a, k + 1) && Parts(objs, a, k + 1) == Parts(objs, id, d)[..k + 1]
    ensures 0 < a <= |fs.nodes| && IsChild(fs.nodes, fs.strs, c, Parts(objs, id, d)[k], a - 1)
    ensures c in objs && objs[c].rec.kind == TYPE_DIR
  {
    hide Sorted, WalkTree, Buildable, Holds, GraphValid, NamesUnique, RecordsAre;
    a := AncestorAt(objs, id, d, k + 1);
    var p, parts := objs[a].rec.parent, Parts(objs, id, d);
    assert Parts(objs, a, k + 1) == Parts(objs, p, k) + [objs[a].name];
    assert Parts(objs, p, k) == parts[..k + 1][..k] == parts[..k];
    PartsInjective(objs, p, c, k);
    assert objs[a].name == parts[..k + 1][k];
    NodeIs(fs, objs, es, a);
    assert ParentOk(objs, a);
  }

  /** Looks the components up one by one from the root. */
  method Resolve(fs: CoreFs, parts: seq<Bytes>, ghost objs: Objects, ghost es: seq<Entry>, ghost id: nat)
    returns (found: nat)
    requires LiesAt(objs, id, parts) && NoDots(parts) && MountedTree(fs, objs, es)
    ensures found == id
  {
    hide Sorted, WalkTree, Buildable, Holds, NamesUnique, RecordsAre, HierarchyOk, IsChild, GraphValid;
    ParentsInRange(fs);
    found := 1;
    for k := 0 to |parts|
      invariant AtDepth(objs, found, k) && Parts(objs, found, k) == parts[..k]
    {
      ghost var a := NextChild(fs, objs, es, id, |parts|, k, found);
      NodeIs(fs, objs, es, found);
      NodeIs(fs, objs, es, a);
      var r := LookupName(fs.nodes, fs.strs, found, parts[k]);
      assert r.Found?;
      ghost var j :| 0 <= j < |fs.nodes| && fs.nodes[j].id == r.id && IsChild(fs.nodes, fs.strs, found, parts[k], j);
      ChildUnique(fs.nodes, fs.sb, fs.strs, found, parts[k], j, a - 1);
      found := r.id;
    }
    assert parts[..|parts|] == parts;
    PartsInjective(objs, found, id, |parts|);
  }

  lemma ParentsInRange(fs: CoreFs)
    requires GraphValid(fs.nodes, fs.sb, fs.strs)
    ensures forall i :: 0 <= i < |fs.nodes| ==> 0 < fs.nodes[i].parent <= |fs.nodes|
  {
    forall i | 0 <= i < |fs.nodes| ensures 0 < fs.nodes[i].parent <= |fs.nodes| {
      assert NodeValid(fs.nodes, fs.sb, fs.strs, i);
    }
  }

  /** `dev` is the image of the tree `es`, which is within the driver's limits. */
  ghost predicate ImageOfTree(dev: Bytes, crc: Crc, es: seq<Entry>) {
    && Sorted(es) && WalkTree(es) && Buildable(es) && WithinDriverLimits(es)
    && dev == ImageOf(es, crc)
  }

  /** What a mount of a built image keeps, whatever the object buffer held before. */
  lemma MountKeeps(dev: Bytes, crc: Crc, es: seq<Entry>, stale: Bytes)
    requires |stale| == ROOM && ImageOfTree(dev, crc, es) && Mounts(dev, crc, stale)
    ensures var fs := LoadedFs(dev, stale);
            && RecordsAre(fs.nodes, es) && fs.strs == StringTable(es) && GraphValid(fs.nodes, fs.sb, fs.strs)
  {
    hide ImageOf, Sorted, WalkTree, Buildable, FieldsFit, ParentsFound, KeysUnique, NamesMatch, GraphValid;
    hide SuperblockFor, StringTable, RecordsAre, Records, UnpackSuperblock, Mounts, HasTables;
    hide WithinDriverLimits, SuperblockValid, StringsFollowTable, V.HeaderOk, V.SuperblockOk, LoadedFs, LoadedTable;
    BuildableParents(es);
    AcceptedParts(es, crc);
    HeaderAccepted(es, crc);
    BuiltSuperblock(es, crc);
    MountedSuperblock(dev, crc, stale);
    PlainLoad(dev, crc, V.ParsedSuperblock(dev), stale);
  }

  lemma MountGivesTree(dev: Bytes, crc: Crc, es: seq<Entry>, stale: Bytes)
    requires |stale| == ROOM && ImageOfTree(dev, crc, es) && Mounts(dev, crc, stale)
    ensures V.Accepts(dev, crc)
    ensures MountedTree(LoadedFs(dev, stale), V.ImageObjects(dev), es)
  {
    hide ImageOf, Sorted, WalkTree, Buildable, FieldsFit, ParentsFound, KeysUnique, NamesMatch, GraphValid, Holds;
    hide SuperblockFor, StringTable, RecordsAre, Records, UnpackSuperblock, HierarchyOk, NamesUnique, LoadedFs;
    hide WithinDriverLimits, V.HeaderOk, V.TableOk, ExtentsDisjoint, Mounts, HasTables;
    BuildableParents(es);
    SortedRoundTrip(es, crc);
    AcceptedParts(es, crc);
    MountKeeps(dev, crc, es, stale);
    NoObjectZero(V.ImageObjects(dev), es);
  }

  lemma NoObjectZero(objs: Objects, es: seq<Entry>)
    requires Holds(objs, es)
    ensures 0 !in objs
  {
    assert 0 !in V.IdSet(Count(es));
  }

  /** `parts` are the components of the relative path of object `i`. */
  predicate IsSplitOf(parts: seq<Bytes>, es: seq<Entry>, i: nat) {
    i < Count(es) && Join(parts) == PathAt(es, i) && forall k :: 0 <= k < |parts| ==> GoodName(parts[k])
  }

  /** `parts` are the names from the root down to `id`. */
  ghost predicate LiesAt(objs: Objects, id: nat, parts: seq<Bytes>) {
    AtDepth(objs, id, |parts|) && Parts(objs, id, |parts|) == parts
  }

  predicate NoDots(parts: seq<Bytes>) {
    forall i :: 0 <= i < |parts| ==> parts[i] != [DOT] && parts[i] != [DOT, DOT]
  }

  /** The parts of a relative path are determined by it. */
  lemma PartsOfPath(objs: Objects, es: seq<Entry>, i: nat, parts: seq<Bytes>)
    requires IsSplitOf(parts, es, i)
    requires Sorted(es) && WalkTree(es) && Holds(objs, es) && NamesGood(objs)
    ensures LiesAt(objs, i + 1, parts)
  {
    hide Sorted, WalkTree, Holds, NamesGood, PathAt, GoodName, Join;
    var d := PathBack(objs, es, i);
    var ps := Parts(objs, i + 1, d);
    forall k | 0 <= k < d ensures GoodName(ps[k]) {
      PartsGood(objs, i + 1, d, k);
    }
    JoinInjective(ps, parts);
  }

  lemma BuiltNamesGood(objs: Objects, es: seq<Entry>)
    requires Holds(objs, es) && NamesMatch(es)
    ensures NamesGood(objs)
  {
    hide Holds, NameMatches, RecordFor;
    forall id | id in objs && id != 1 ensures GoodName(objs[id].name) {
      var i := HoldsIndex(objs, es, id);
      HoldsAt(objs, es, i);
      MatchedNameOk(NameAt(es, i));
    }
  }

  lemma WholeSectors(x: nat, size: nat)
    requires x < size && size % SECTOR == 0
    ensures (x / SECTOR + 1) * SECTOR <= size
  {
  }

  lemma ToReadIs(r: Record, offset: u64, len: u64)
    requires offset < r.dataLen < 0x1_0000_0000_0000_0000
    ensures offset + len < 0x1_0000_0000_0000_0000 ==> ToRead(r, offset, len) == Clamped(r, offset, len)
    ensures offset + len >= 0x1_0000_0000_0000_0000 ==> ToRead(r, offset, len) == len > r.dataLen - offset
  {
  }

  lemma ReadsPart(dev: Bytes, r: Record, p: Bytes, offset: u64, len: u64)
    requires |dev| % SECTOR == 0 && r.dataOff + r.dataLen <= |dev| < 0x1_0000_0000_0000_0000
    requires r.dataLen == |p| && dev[r.dataOff..r.dataOff + r.dataLen] == p && offset < |p|
    ensures var n := Clamped(r, offset, len);
            OnDevice(dev, r.dataOff + offset, n) && BytesFrom(dev, r.dataOff + offset, n) == ReadAt(p, offset, len)
  {
    hide OnDevice, BytesFrom;
    var n, base := Clamped(r, offset, len), r.dataOff + offset;
    if len == 0 {
      NothingToRead(dev, base);
    } else {
      WholeSectors(base + n - 1, |dev|);
      UnwrappedRead(dev, base, n);
      SlicePart(dev, r.dataOff, r.dataLen, p, offset, offset + n);
    }
  }

  /** Reading a built file: its bytes, unless the end of the request passes 64 bits inside the file. */
  lemma ReadsPayload(dev: Bytes, r: Record, p: Bytes, offset: u64, len: u64)
    requires r.kind == TYPE_REG && |dev| % SECTOR == 0 && r.dataOff + r.dataLen <= |dev| < 0x1_0000_0000_0000_0000
    requires r.dataLen == |p| && dev[r.dataOff..r.dataOff + r.dataLen] == p
    ensures ReadOutcome(dev, r, offset, len) == Data(ReadAt(p, offset, len)) <==>
            offset >= |p| || offset + len < 0x1_0000_0000_0000_0000
  {
    hide OnDevice, BytesFrom, Clamped;
    if offset >= |p| {
      NothingToRead(dev, r.dataOff + offset);
    } else {
      hide ToRead;
      ToReadIs(r, offset, len);
      if offset + len < 0x1_0000_0000_0000_0000 {
        ReadsPart(dev, r, p, offset, len);
      } else {
        assert |ReadAt(p, offset, len)| <= |p| - offset;
      }
    }
  }

  method MountBuilt(dev: Bytes, crc: Crc, stale: Bytes, ghost es: seq<Entry>) returns (fs: CoreFs, ghost objs: Objects)
    requires |stale| == ROOM && ImageOfTree(dev, crc, es)
    ensures HasTables(dev) && fs == LoadedFs(dev, stale)
    ensures MountedTree(fs, objs, es) && NamesGood(objs)
  {
    hide ImageOf, Sorted, WalkTree, Buildable, Records, UnpackSuperblock, SuperblockValid, Mounts, NamesGood;
    hide StringsFollowTable, WithinDriverLimits, MountedTree, LoadedFs;
    MountsIff(es, crc, stale);
    MountedHasTables(dev, crc, stale);
    var m := Mount(dev, crc, stale);
    fs := m.fs;
    MountGivesTree(dev, crc, es, stale);
    objs := V.ImageObjects(dev);
    MountedNamesGood(fs, objs, es);
  }

  lemma MountedHasTables(dev: Bytes, crc: Crc, stale: Bytes)
    requires |stale| == ROOM && Mounts(dev, crc, stale)
    ensures HasTables(dev)
  {
  }

  lemma MountedSuperblock(dev: Bytes, crc: Crc, stale: Bytes)
    requires |stale| == ROOM && Mounts(dev, crc, stale)
    ensures |dev| >= SECTOR && SuperblockValid(UnpackSuperblock(dev[..SECTOR]))
    ensures GraphValid(LoadedFs(dev, stale).nodes, LoadedFs(dev, stale).sb, LoadedFs(dev, stale).strs)
  {
  }

  lemma MountedNamesGood(fs: CoreFs, objs: Objects, es: seq<Entry>)
    requires MountedTree(fs, objs, es)
    ensures NamesGood(objs)
  {
    hide Sorted, WalkTree, Holds, GraphValid, HierarchyOk, NamesUnique, RecordsAre, StringTable;
    BuildableParents(es);
    BuiltNamesGood(objs, es);
  }

  /**
   * End to end: mount the image built from a tree, look a file's path up component by component, and read
   * it sector by sector. The bytes are those of the file the tree was built from, exactly when the end of
   * the request does not pass 64 bits inside the file.
   */
  method OpenAndRead(
    dev: Bytes, crc: Crc, stale: Bytes, parts: seq<Bytes>, offset: u64, len: u64, ghost es: seq<Entry>, ghost i: nat)
    returns (out: ReadResult)
    requires i < Count(es) && !IsDirAt(es, i) && IsSplitOf(parts, es, i) && NoDots(parts)
    requires |stale| == ROOM && ImageOfTree(dev, crc, es)
    ensures out == Data(ReadAt(PayloadAt(es, i), offset, len)) <==>
            offset >= |PayloadAt(es, i)| || offset + len < 0x1_0000_0000_0000_0000
  {
    hide ImageOf, WithinDriverLimits, PayloadAt, NamesGood, NoDots, LiesAt, MountedTree, IsSplitOf;
    hide ReadAt, Sorted, WalkTree, Buildable, ImageOfTree, LoadedFs, HasTables, ReadOutcome;
    var fs, objs := MountBuilt(dev, crc, stale, es);
    LocateParts(fs, objs, es, i, parts);
    var id := Resolve(fs, parts, objs, es, i + 1);
    ReadyToRead(fs, objs, dev, crc, es, i, offset, len);
    out := ReadFile(dev, fs.nodes[id - 1], offset, len);
  }

  lemma LocateParts(fs: CoreFs, objs: Objects, es: seq<Entry>, i: nat, parts: seq<Bytes>)
    requires IsSplitOf(parts, es, i) && NamesGood(objs) && MountedTree(fs, objs, es)
    ensures LiesAt(objs, i + 1, parts)
    ensures i < |fs.nodes|
  {
    hide Sorted, WalkTree, Buildable, Holds, GraphValid, HierarchyOk, NamesUnique, NamesGood, StringTable, LiesAt;
    PartsOfPath(objs, es, i, parts);
  }

  lemma ReadyToRead(fs: CoreFs, objs: Objects, dev: Bytes, crc: Crc, es: seq<Entry>, i: nat, offset: u64, len: u64)
    requires i < Count(es) && i < |fs.nodes| && !IsDirAt(es, i)
    requires MountedTree(fs, objs, es) && ImageOfTree(dev, crc, es)
    ensures ReadOutcome(dev, fs.nodes[i], offset, len) == Data(ReadAt(PayloadAt(es, i), offset, len)) <==>
            offset >= |PayloadAt(es, i)| || offset + len < 0x1_0000_0000_0000_0000
  {
    hide MountedTree, Sorted, WalkTree, Buildable, WithinDriverLimits, ImageOf, PayloadAt, ReadOutcome, ReadAt;
    BuiltFile(fs, objs, es, crc, i);
    ReadsPayload(dev, fs.nodes[i], PayloadAt(es, i), offset, len);
  }

  lemma BuiltSuperblock(es: seq<Entry>, crc: Crc)
    requires Buildable(es)
    ensures ParentsFound(es) && |ImageOf(es, crc)| >= SECTOR
    ensures StringsFollowTable(UnpackSuperblock(ImageOf(es, crc)[..SECTOR]))
  {
    hide ImageOf, SuperblockFor, Buildable, ParentsFound, FieldsFit, StringsFollowTable;
    BuildableParents(es);
    SizeFits(es);
    SuperblockMounts(es, ImageCrc(es, crc));
    AcceptedParts(es, crc);
  }

  lemma BuiltFile(fs: CoreFs, objs: Objects, es: seq<Entry>, crc: Crc, i: nat)
    requires MountedTree(fs, objs, es) && i < Count(es) && !IsDirAt(es, i)
    ensures var dev, r := ImageOf(es, crc), fs.nodes[i];
            && r.kind == TYPE_REG && |dev| % SECTOR == 0 && r.dataOff + r.dataLen <= |dev| < 0x1_0000_0000_0000_0000
            && r.dataLen == |PayloadAt(es, i)| && dev[r.dataOff..r.dataOff + r.dataLen] == PayloadAt(es, i)
  {
    hide ImageOf, Sorted, WalkTree, Buildable, Holds, PayloadAt, GraphValid, HierarchyOk, NamesUnique, StringTable;
    hide NameAt, ParentAt, NameOffset, DataOffset, ImageSize, ParentsFound, ParentFound;
    assert fs.nodes[i] == RecordFor(es, i);
    BuildableParents(es);
    SizeFits(es);
    SuperblockAccepted(es, 0);
    PayloadAccepted(es, i);
    PayloadBack(es, crc, i);
  }
}
