/** Which of the images the host verifier accepts the kernel driver mounts. */
module XzsfsAgreement {
  import opened Bytes
  import opened XzsfsFormat
  import opened XzsfsTree
  import opened XzsfsKernel
  import opened XzsfsMounted
  import V = XzsfsVerify

  const TOP: nat := 0x1_0000_0000_0000_0000

  // ----- graphs -----

  predicate InTableOrder(rs: seq<Record>) {
    forall i :: 0 <= i < |rs| ==> rs[i].id == i + 1
  }

  predicate ParentsFirst(rs: seq<Record>) {
    forall i :: 0 < i < |rs| ==> rs[i].parent < rs[i].id
  }

  predicate NoNulNames(rs: seq<Record>, strs: Bytes) {
    forall i :: 0 < i < |rs| ==> 0 !in NameIn(strs, rs[i])
  }

  /** File `a` is empty and starts strictly inside the extent of file `b`. */
  predicate Pierces(a: Record, b: Record) {
    a.kind == TYPE_REG && b.kind == TYPE_REG && a.dataLen == 0 && b.dataOff < a.dataOff < b.dataOff + b.dataLen
  }

  predicate NonePierces(rs: seq<Record>) {
    forall i, j :: 0 <= i < |rs| && 0 <= j < |rs| ==> !Pierces(rs[i], rs[j])
  }

  /** What the driver asks of a graph beyond the host verifier. */
  predicate DriverExtras(rs: seq<Record>, strs: Bytes) {
    && |strs| > 0 && strs[0] == 0
    && InTableOrder(rs) && ParentsFirst(rs) && NoNulNames(rs, strs) && NonePierces(rs)
  }

  /** A table and graph the host verifier accepts, of an image of `sb.imageSize` bytes. */
  ghost predicate HostGraph(rs: seq<Record>, sb: Superblock, strs: Bytes) {
    && |rs| == sb.objectCount > 0 && sb.imageSize < TOP
    && V.TableOk(rs, sb, strs, sb.imageSize) && V.GraphOk(V.ObjectMap(rs, strs, |rs|))
  }

  lemma HostRecord(rs: seq<Record>, sb: Superblock, strs: Bytes, i: nat)
    requires HostGraph(rs, sb, strs) && i < |rs|
    ensures V.RecordOk(rs[i], sb, strs, sb.imageSize)
  {
    hide V.RecordOk, V.GraphOk, V.DistinctIds;
    V.RecordsOkAt(rs, sb, strs, sb.imageSize, |rs|, i);
  }

  lemma HostObject(rs: seq<Record>, sb: Superblock, strs: Bytes, i: nat)
    requires HostGraph(rs, sb, strs) && i < |rs|
    ensures var objs := V.ObjectMap(rs, strs, |rs|);
            rs[i].id in objs && objs[rs[i].id] == V.ObjectOf(rs[i], strs)
  {
    hide V.ObjectOf, V.GraphOk, V.RecordsOk;
    V.ObjectMapHas(rs, strs, |rs|, i);
  }

  lemma HostParent(rs: seq<Record>, sb: Superblock, strs: Bytes, i: nat)
    requires HostGraph(rs, sb, strs) && i < |rs|
    ensures var objs, p := V.ObjectMap(rs, strs, |rs|), rs[i].parent;
            1 <= p <= |rs| && p in objs && objs[p].rec.kind == TYPE_DIR
  {
    hide V.RecordsOk, V.DistinctIds, NamesUnique, ExtentsDisjoint, ReachesRoot, V.ObjectMap, NamesGood;
    HostObject(rs, sb, strs, i);
    V.TableSound(rs, sb, strs, sb.imageSize);
    var objs := V.ObjectMap(rs, strs, |rs|);
    assert ParentOk(objs, rs[i].id);
  }

  lemma ParentAgrees(rs: seq<Record>, sb: Superblock, strs: Bytes, i: nat)
    requires HostGraph(rs, sb, strs) && InTableOrder(rs) && 0 < i < |rs|
    ensures ParentValid(rs, i) <==> rs[i].parent < rs[i].id
  {
    hide HostGraph, V.ObjectMap;
    HostParent(rs, sb, strs, i);
    HostObject(rs, sb, strs, rs[i].parent - 1);
  }

  lemma NamesDiffer(rs: seq<Record>, sb: Superblock, strs: Bytes, i: nat, j: nat)
    requires HostGraph(rs, sb, strs) && InTableOrder(rs) && 0 < i < |rs| && j < i
    ensures !SameName(rs, strs, i, j)
  {
    hide HostGraph, V.ObjectMap, NamesUnique, NameIn;
    HostRecord(rs, sb, strs, i);
    if j == 0 {
      HostRecord(rs, sb, strs, 0);
    } else {
      HostObject(rs, sb, strs, i);
      HostObject(rs, sb, strs, j);
      HostNames(rs, sb, strs, rs[i].id, rs[j].id);
      SameSlice(strs, rs[i]);
      SameSlice(strs, rs[j]);
    }
  }

  lemma SameSlice(strs: Bytes, r: Record)
    ensures NameIn(strs, r) == ReadAt(strs, r.nameOff, r.nameLen)
  {
  }

  lemma HostNames(rs: seq<Record>, sb: Superblock, strs: Bytes, a: nat, b: nat)
    requires HostGraph(rs, sb, strs) && 1 < a && 1 < b && a != b
    requires a in V.ObjectMap(rs, strs, |rs|) && b in V.ObjectMap(rs, strs, |rs|)
    ensures var objs := V.ObjectMap(rs, strs, |rs|);
            objs[a].rec.parent != objs[b].rec.parent || objs[a].name != objs[b].name
  {
    hide V.TableOk, V.ObjectMap, HierarchyOk, ExtentsDisjoint;
  }

  lemma NoNulIff(strs: Bytes, r: Record)
    requires r.nameOff + r.nameLen < |strs|
    ensures 0 !in NameIn(strs, r) <==> forall p :: r.nameOff <= p < r.nameOff + r.nameLen ==> strs[p] != 0
  {
    var name := NameIn(strs, r);
    assert |name| == r.nameLen && forall k :: 0 <= k < |name| ==> name[k] == strs[r.nameOff + k];
    if 0 !in name {
      forall p | r.nameOff <= p < r.nameOff + r.nameLen ensures strs[p] != 0 {
        assert name[p - r.nameOff] == strs[p];
      }
    }
  }

  lemma NameAgrees(rs: seq<Record>, sb: Superblock, strs: Bytes, i: nat)
    requires HostGraph(rs, sb, strs) && InTableOrder(rs) && 0 < i < |rs|
    ensures NameValid(rs, strs, i) <==> 0 !in NameIn(strs, rs[i])
  {
    hide HostGraph, NameIn, SameName;
    HostRecord(rs, sb, strs, i);
    NoNulIff(strs, rs[i]);
    forall j | 0 <= j < i ensures !SameName(rs, strs, i, j) {
      NamesDiffer(rs, sb, strs, i, j);
    }
  }

  lemma HostExtents(rs: seq<Record>, sb: Superblock, strs: Bytes, a: nat, b: nat)
    requires HostGraph(rs, sb, strs) && a != b
    requires a in V.ObjectMap(rs, strs, |rs|) && b in V.ObjectMap(rs, strs, |rs|)
    requires HasPayload(V.ObjectMap(rs, strs, |rs|)[a]) && HasPayload(V.ObjectMap(rs, strs, |rs|)[b])
    ensures Disjoint(V.ObjectMap(rs, strs, |rs|)[a], V.ObjectMap(rs, strs, |rs|)[b])
  {
    hide V.TableOk, V.ObjectMap, HierarchyOk, NamesUnique, HasPayload, Disjoint;
  }

  lemma HostEnd(rs: seq<Record>, sb: Superblock, strs: Bytes, i: nat)
    requires HostGraph(rs, sb, strs) && i < |rs| && rs[i].kind == TYPE_REG
    ensures EndOf(rs[i]) == rs[i].dataOff + rs[i].dataLen <= sb.imageSize
  {
    hide V.TableOk, V.GraphOk, V.ObjectMap, V.NameOk;
    HostRecord(rs, sb, strs, i);
  }

  /** Among files the verifier accepts, the driver sees an overlap exactly where an empty one pierces another. */
  lemma OverlapAgrees(rs: seq<Record>, sb: Superblock, strs: Bytes, i: nat, j: nat)
    requires HostGraph(rs, sb, strs) && InTableOrder(rs) && i < |rs| && j < |rs| && i != j
    requires rs[i].kind == TYPE_REG && rs[j].kind == TYPE_REG
    ensures Overlaps(rs[i], rs[j]) <==> Pierces(rs[i], rs[j]) || Pierces(rs[j], rs[i])
  {
    hide HostGraph, V.ObjectMap, EndOf;
    HostEnd(rs, sb, strs, i);
    HostEnd(rs, sb, strs, j);
    if rs[i].dataLen > 0 && rs[j].dataLen > 0 {
      HostObject(rs, sb, strs, i);
      HostObject(rs, sb, strs, j);
      HostExtents(rs, sb, strs, rs[i].id, rs[j].id);
    }
  }

  lemma PayloadAgrees(rs: seq<Record>, sb: Superblock, strs: Bytes, i: nat)
    requires HostGraph(rs, sb, strs) && InTableOrder(rs) && i < |rs|
    ensures PayloadValid(rs, sb, i) <==> forall j :: 0 <= j < i ==> !Pierces(rs[i], rs[j]) && !Pierces(rs[j], rs[i])
  {
    hide HostGraph, EndOf, Overlaps, V.NameOk;
    HostRecord(rs, sb, strs, i);
    if rs[i].kind == TYPE_REG {
      HostEnd(rs, sb, strs, i);
      forall j | 0 <= j < i && rs[j].kind == TYPE_REG
        ensures Overlaps(rs[i], rs[j]) <==> Pierces(rs[i], rs[j]) || Pierces(rs[j], rs[i])
      {
        OverlapAgrees(rs, sb, strs, i, j);
      }
    }
  }

  lemma RootAgrees(rs: seq<Record>, sb: Superblock, strs: Bytes)
    requires HostGraph(rs, sb, strs) && InTableOrder(rs)
    ensures RootValid(rs, strs) <==> |strs| > 0 && strs[0] == 0
  {
    hide V.TableOk, V.GraphOk, V.ObjectMap;
    HostRecord(rs, sb, strs, 0);
  }

  /** Record `i` meets what the driver asks beyond the host verifier. */
  predicate RecordExtras(rs: seq<Record>, strs: Bytes, i: nat)
    requires i < |rs|
  {
    && (i > 0 ==> rs[i].parent < rs[i].id && 0 !in NameIn(strs, rs[i]))
    && forall j :: 0 <= j < i ==> !Pierces(rs[i], rs[j]) && !Pierces(rs[j], rs[i])
  }

  lemma NodeAgrees(rs: seq<Record>, sb: Superblock, strs: Bytes, i: nat)
    requires HostGraph(rs, sb, strs) && InTableOrder(rs) && i < |rs|
    ensures NodeValid(rs, sb, strs, i) <==> RecordExtras(rs, strs, i)
  {
    hide HostGraph, ParentValid, NameValid, PayloadValid, NameIn, Pierces, V.NameOk, V.PayloadOk;
    HostRecord(rs, sb, strs, i);
    PayloadAgrees(rs, sb, strs, i);
    if i > 0 {
      ParentAgrees(rs, sb, strs, i);
      NameAgrees(rs, sb, strs, i);
    }
  }

  lemma PairwisePierce(rs: seq<Record>)
    ensures NonePierces(rs) <==> forall i, j :: 0 <= j < i < |rs| ==> !Pierces(rs[i], rs[j]) && !Pierces(rs[j], rs[i])
  {
    forall i | 0 <= i < |rs| ensures !Pierces(rs[i], rs[i]) {
    }
  }

  lemma ExtrasSplit(rs: seq<Record>, strs: Bytes)
    ensures ParentsFirst(rs) && NoNulNames(rs, strs) && NonePierces(rs) <==>
            forall i :: 0 <= i < |rs| ==> RecordExtras(rs, strs, i)
  {
    hide Pierces, NameIn, NonePierces;
    PairwisePierce(rs);
    if forall i :: 0 <= i < |rs| ==> RecordExtras(rs, strs, i) {
      forall i | 0 < i < |rs| ensures rs[i].parent < rs[i].id && 0 !in NameIn(strs, rs[i]) {
        assert RecordExtras(rs, strs, i);
      }
      forall i, j | 0 <= j < i < |rs| ensures !Pierces(rs[i], rs[j]) && !Pierces(rs[j], rs[i]) {
        assert RecordExtras(rs, strs, i);
      }
    }
  }

  lemma ValidInOrder(rs: seq<Record>, sb: Superblock, strs: Bytes)
    requires GraphValid(rs, sb, strs)
    ensures InTableOrder(rs)
  {
    hide ParentValid, NameValid, PayloadValid, RootValid;
    forall i | 0 <= i < |rs| ensures rs[i].id == i + 1 {
      assert NodeValid(rs, sb, strs, i);
    }
  }

  /** A graph the host verifier accepts is valid for the driver if and only if it meets the driver's extra demands. */
  lemma GraphsAgree(rs: seq<Record>, sb: Superblock, strs: Bytes)
    requires HostGraph(rs, sb, strs)
    ensures GraphValid(rs, sb, strs) <==> DriverExtras(rs, strs)
  {
    hide HostGraph, InTableOrder, ParentsFirst, NoNulNames, NonePierces, RecordExtras, NodeValid, RootValid;
    if GraphValid(rs, sb, strs) {
      ValidInOrder(rs, sb, strs);
    }
    if InTableOrder(rs) {
      RootAgrees(rs, sb, strs);
      ExtrasSplit(rs, strs);
      forall i | 0 <= i < |rs| ensures NodeValid(rs, sb, strs, i) <==> RecordExtras(rs, strs, i) {
        NodeAgrees(rs, sb, strs, i);
      }
    }
  }

  // ----- images -----

  /** The driver's own limits on a superblock the host verifier accepts. */
  predicate WithinLimits(sb: Superblock) {
    sb.objectCount <= MAX_OBJECTS && 0 < sb.stringSize <= MAX_STRTAB && 4 * SECTOR <= sb.imageSize
  }

  lemma ImageSizeFits(b: Bytes)
    requires |b| == SECTOR
    ensures UnpackSuperblock(b).imageSize < TOP
  {
    hide FromLE;
    Pow256Values();
    assert Offset(SB_HEAD, 2) == 8 && Offset(SB_HEAD, 4) == 16 && Offset(SB_HEAD, 5) == 24;
    FromLEBound(b[16..24]);
    assert HeadField(b, 4) == FromLE(b[16..24]);
  }

  lemma LimitsAgree(sb: Superblock, len: nat)
    requires V.SuperblockOk(sb, len) && len < TOP && len % SECTOR == 0
    ensures SuperblockValid(sb) <==> WithinLimits(sb)
    ensures sb.tableOff <= sb.stringOff && (1 + ObjectSectors(sb)) * SECTOR <= sb.stringOff
  {
  }

  /** The sectors the driver loads hold the whole object table; only a wrapped 32-bit count can leave some out. */
  predicate LoadsWholeTable(sb: Superblock)
    requires sb.tableOff <= sb.stringOff
  {
    sb.tableSize <= ObjectSectors(sb) * SECTOR
  }

  lemma WholeUnlessWrapped(sb: Superblock, len: nat)
    requires V.SuperblockOk(sb, len) && (sb.stringOff - SECTOR) / SECTOR < 0x1_0000_0000
    ensures LoadsWholeTable(sb)
  {
  }

  lemma AcceptedParts(img: Bytes, crc: Crc)
    requires V.Accepts(img, crc)
    ensures |img| >= SECTOR && |img| % SECTOR == 0 && |img| < TOP
    ensures var sb := V.ParsedSuperblock(img);
            && V.SuperblockOk(sb, |img|) && V.HeaderOk(img, crc)
            && HostGraph(V.ImageRecords(img), sb, V.Strings(img, sb))
  {
    hide V.TableOk, V.GraphOk, UnpackSuperblock, Records, V.ObjectMap, ClearCrc;
    ImageSizeFits(img[..SECTOR]);
  }

  /** The object load of an accepted image leaves its buffer exactly when a loaded sector starts behind the table. */
  lemma AcceptedOverruns(img: Bytes, crc: Crc)
    requires V.Accepts(img, crc)
    ensures var sb := V.ParsedSuperblock(img);
            && sb.tableOff <= sb.stringOff
            && (Overruns(img) <==> WithinLimits(sb) && StartsBehind(ObjectSectors(sb), sb.tableSize))
  {
    hide V.Accepts, UnpackSuperblock, SuperblockValid, StartsBehind, HostGraph, V.HeaderOk;
    AcceptedParts(img, crc);
    var sb := V.ParsedSuperblock(img);
    LimitsAgree(sb, |img|);
    StartsBehindIff(ObjectSectors(sb), sb.tableSize);
  }

  lemma AcceptedTables(img: Bytes, crc: Crc)
    requires V.Accepts(img, crc)
    ensures var sb := V.ParsedSuperblock(img);
            && sb.tableOff <= sb.stringOff
            && (HasTables(img) <==> WithinLimits(sb) && !StartsBehind(ObjectSectors(sb), sb.tableSize))
  {
    hide V.Accepts, UnpackSuperblock, SuperblockValid, StartsBehind, HostGraph, V.HeaderOk;
    AcceptedParts(img, crc);
    LimitsAgree(V.ParsedSuperblock(img), |img|);
  }

  lemma WholeLoad(img: Bytes, stale: Bytes)
    requires |stale| == ROOM && HasTables(img)
    requires V.SuperblockOk(UnpackSuperblock(img[..SECTOR]), |img|) && LoadsWholeTable(UnpackSuperblock(img[..SECTOR]))
    ensures var sb := UnpackSuperblock(img[..SECTOR]);
            && LoadedTable(img, stale) == img[SECTOR..SECTOR + sb.tableSize]
            && LoadedFs(img, stale) == CoreFs(sb, Records(img, sb.objectCount), V.Strings(img, sb))
  {
    hide UnpackSuperblock, StartsBehind, SuperblockValid, TableRecords, Records;
    var sb := UnpackSuperblock(img[..SECTOR]);
    assert Kept(ObjectSectors(sb), sb.tableSize) == sb.tableSize;
    var t := sb.tableSize;
    ValidStarts(sb);
    assert ReadAt(img, SECTOR, t) == img[SECTOR..SECTOR + t] && stale[t..t] == [];
    assert LoadedTable(img, stale) == img[SECTOR..SECTOR + t];
    SameRecords(img, sb.objectCount);
  }

  lemma WholeMounts(img: Bytes, crc: Crc, stale: Bytes)
    requires V.Accepts(img, crc) && |stale| == ROOM && HasTables(img)
    requires LoadsWholeTable(UnpackSuperblock(img[..SECTOR]))
    ensures |img| >= SECTOR && V.SuperblockOk(V.ParsedSuperblock(img), |img|)
    ensures Mounts(img, crc, stale) <==> DriverExtras(V.ImageRecords(img), V.Strings(img, V.ParsedSuperblock(img)))
  {
    hide V.Accepts, UnpackSuperblock, HasTables, HostGraph, GraphValid, DriverExtras, LoadedTable, LoadedFs, V.SuperblockOk;
    hide ClearCrc, LoadsWholeTable;
    AcceptedParts(img, crc);
    WholeLoad(img, stale);
    var sb := V.ParsedSuperblock(img);
    TableAtSector(sb, |img|);
    GraphsAgree(V.ImageRecords(img), sb, V.Strings(img, sb));
  }

  lemma TableAtSector(sb: Superblock, len: nat)
    requires V.SuperblockOk(sb, len)
    ensures sb.tableOff == SECTOR && sb.stringOff + sb.stringSize <= len && SECTOR + sb.tableSize <= len
  {
  }

  /** After a wrapped sector count: what was loaded, completed by the former buffer, has the checksum and a valid graph. */
  predicate StaleMounts(img: Bytes, crc: Crc, stale: Bytes)
    requires |stale| == ROOM && HasTables(img)
  {
    var fs := LoadedFs(img, stale);
    && fs.sb.crc == MetadataCrc(crc, ClearCrc(img[..SECTOR]), LoadedTable(img, stale), fs.strs)
    && GraphValid(fs.nodes, fs.sb, fs.strs)
  }

  /**
   * The driver mounts an image the host verifier accepts if and only if it is within the driver's limits, the object
   * load stays in its buffer, and the graph meets the driver's extra demands; where a wrapped sector count leaves part
   * of the table unloaded, the former content of the buffer decides in place of the graph.
   */
  lemma AcceptedMounts(img: Bytes, crc: Crc, stale: Bytes)
    requires V.Accepts(img, crc) && |stale| == ROOM
    ensures |img| >= SECTOR && V.SuperblockOk(V.ParsedSuperblock(img), |img|)
    ensures var sb := V.ParsedSuperblock(img);
            && sb.tableOff <= sb.stringOff
            && (Mounts(img, crc, stale) <==>
                  && WithinLimits(sb) && !StartsBehind(ObjectSectors(sb), sb.tableSize)
                  && if LoadsWholeTable(sb) then DriverExtras(V.ImageRecords(img), V.Strings(img, sb))
                     else HasTables(img) && StaleMounts(img, crc, stale))
  {
    hide V.Accepts, UnpackSuperblock, HasTables, HostGraph, GraphValid, DriverExtras, LoadedTable, LoadedFs, V.SuperblockOk;
    hide StartsBehind, WithinLimits, LoadsWholeTable, V.HeaderOk, ClearCrc, ObjectSectors, V.ImageRecords;
    AcceptedParts(img, crc);
    AcceptedTables(img, crc);
    if HasTables(img) && LoadsWholeTable(UnpackSuperblock(img[..SECTOR])) {
      WholeMounts(img, crc, stale);
    }
  }

  /** On images of at most 2 TiB the former content of the buffer never matters. */
  lemma SmallAcceptedMounts(img: Bytes, crc: Crc, stale: Bytes)
    requires V.Accepts(img, crc) && |stale| == ROOM && |img| <= 0x200_0000_0000
    ensures |img| >= SECTOR && V.SuperblockOk(V.ParsedSuperblock(img), |img|)
    ensures var sb := V.ParsedSuperblock(img);
            && sb.tableOff <= sb.stringOff
            && (Mounts(img, crc, stale) <==>
                  && WithinLimits(sb) && sb.stringOff < SECTOR + (sb.tableSize / SECTOR + 2) * SECTOR
                  && DriverExtras(V.ImageRecords(img), V.Strings(img, sb)))
  {
    hide V.Accepts, UnpackSuperblock, HasTables, HostGraph, GraphValid, DriverExtras, StartsBehind, WithinLimits, Mounts;
    hide V.ImageRecords, V.Strings;
    AcceptedParts(img, crc);
    AcceptedMounts(img, crc, stale);
    var sb := V.ParsedSuperblock(img);
    WholeUnlessWrapped(sb, |img|);
    StartsBehindIff(ObjectSectors(sb), sb.tableSize);
  }

  // ----- mounted graphs and the host verifier -----

  predicate AsciiNames(rs: seq<Record>, strs: Bytes) {
    forall i :: 0 < i < |rs| ==> AsciiName(strs, rs[i])
  }

  predicate AsciiName(strs: Bytes, r: Record) {
    forall p :: r.nameOff <= p < r.nameOff + r.nameLen && p < |strs| ==> strs[p] < 128
  }

  /** A record of a valid graph passes the verifier's record checks exactly when its name is ASCII and its end fits. */
  lemma RecordAccepted(rs: seq<Record>, sb: Superblock, strs: Bytes, i: nat)
    requires GraphValid(rs, sb, strs) && |rs| == sb.objectCount && sb.imageSize < TOP && i < |rs|
    ensures V.RecordOk(rs[i], sb, strs, sb.imageSize) <==> EndFits(rs[i]) && (i > 0 ==> AsciiName(strs, rs[i]))
  {
    hide ParentValid;
    assert NodeValid(rs, sb, strs, i);
    var r := rs[i];
    if EndFits(r) {
      assert EndOf(r) == r.dataOff + r.dataLen;
    }
    if i == 0 {
      assert r.id == 1;
    } else {
      assert r.id != 1 && NameValid(rs, strs, i);
    }
  }

  lemma {:induction false} RecordsAccepted(rs: seq<Record>, sb: Superblock, strs: Bytes, n: nat)
    requires GraphValid(rs, sb, strs) && |rs| == sb.objectCount && sb.imageSize < TOP && n <= |rs|
    ensures V.RecordsOk(rs, sb, strs, sb.imageSize, n) <==>
            forall i :: 0 <= i < n ==> EndFits(rs[i]) && (i > 0 ==> AsciiName(strs, rs[i]))
    decreases n
  {
    hide GraphValid, EndFits, AsciiName, V.RecordOk;
    if n > 0 {
      RecordsAccepted(rs, sb, strs, n - 1);
      RecordAccepted(rs, sb, strs, n - 1);
    }
  }

  lemma RootUnnamed(rs: seq<Record>, sb: Superblock, strs: Bytes)
    requires GraphValid(rs, sb, strs)
    ensures |rs| > 0 && NameIn(strs, rs[0]) == []
  {
    hide NodeValid;
  }

  lemma MapIsNodes(rs: seq<Record>, sb: Superblock, strs: Bytes)
    requires GraphValid(rs, sb, strs)
    ensures V.ObjectMap(rs, strs, |rs|) == NodeMap(rs, strs) && V.DistinctIds(rs, |rs|)
  {
    hide GraphValid, V.ObjectMap;
    ValidInOrder(rs, sb, strs);
    RootUnnamed(rs, sb, strs);
    var a, b := V.ObjectMap(rs, strs, |rs|), NodeMap(rs, strs);
    forall id | id in a ensures id in b {
      var i := V.ObjectMapFrom(rs, strs, |rs|, id);
    }
    forall id | id in b ensures id in a && a[id] == b[id] {
      V.ObjectMapHas(rs, strs, |rs|, id - 1);
      SameSlice(strs, rs[id - 1]);
    }
  }

  /** A graph the driver accepts passes the host verifier if and only if its names are ASCII and no extent end wraps. */
  lemma ValidIsHostGraph(rs: seq<Record>, sb: Superblock, strs: Bytes)
    requires GraphValid(rs, sb, strs) && |rs| == sb.objectCount && sb.imageSize < TOP
    ensures HostGraph(rs, sb, strs) <==> AsciiNames(rs, strs) && EndsFit(rs)
  {
    hide NodeValid, AsciiName, EndFits, V.ObjectMap, NodeMap, NamesUnique, HierarchyOk, ExtentsDisjoint, NamesGood, PathsUnique,
         V.DistinctIds, V.RecordsOk;
    RecordsAccepted(rs, sb, strs, |rs|);
    MapIsNodes(rs, sb, strs);
    MountedIsTree(rs, sb, strs);
    if EndsFit(rs) {
      ExtentsAllApart(rs, sb, strs);
    }
  }

  lemma MountedGraph(dev: Bytes, crc: Crc, stale: Bytes)
    requires |stale| == ROOM && Mounts(dev, crc, stale) && V.SuperblockOk(UnpackSuperblock(dev[..SECTOR]), |dev|)
    requires LoadsWholeTable(UnpackSuperblock(dev[..SECTOR])) && |dev| % SECTOR == 0
    ensures V.Accepts(dev, crc) <==> AsciiNames(LoadedFs(dev, stale).nodes, LoadedFs(dev, stale).strs)
                                     && EndsFit(LoadedFs(dev, stale).nodes)
  {
    hide UnpackSuperblock, GraphValid, AsciiNames, EndsFit, V.TableOk, V.GraphOk, V.ObjectMap, LoadedTable, LoadedFs, ClearCrc,
         LoadsWholeTable, HasTables, Records;
    var sb := UnpackSuperblock(dev[..SECTOR]);
    ImageSizeFits(dev[..SECTOR]);
    TableAtSector(sb, |dev|);
    WholeLoad(dev, stale);
    ValidIsHostGraph(Records(dev, sb.objectCount), sb, V.Strings(dev, sb));
  }

  /**
   * A mounted device whose object table was loaded whole passes the host verifier if and only if it is made of whole
   * sectors, its superblock passes there, its names are ASCII and no extent end wraps.
   */
  lemma MountedAccepted(dev: Bytes, crc: Crc, stale: Bytes)
    requires |stale| == ROOM && Mounts(dev, crc, stale)
    requires var sb := UnpackSuperblock(dev[..SECTOR]); sb.tableOff <= sb.stringOff && LoadsWholeTable(sb)
    ensures var fs := LoadedFs(dev, stale);
            V.Accepts(dev, crc) <==> |dev| % SECTOR == 0 && V.SuperblockOk(fs.sb, |dev|)
                                     && AsciiNames(fs.nodes, fs.strs) && EndsFit(fs.nodes)
  {
    hide AsciiNames, EndsFit, V.TableOk, V.GraphOk, V.ObjectMap, LoadedTable, ClearCrc, LoadsWholeTable, UnpackSuperblock,
         V.SuperblockOk, GraphValid;
    if |dev| % SECTOR == 0 && V.SuperblockOk(UnpackSuperblock(dev[..SECTOR]), |dev|) {
      MountedGraph(dev, crc, stale);
    }
  }
}
