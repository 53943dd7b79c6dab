/** What the driver's single pass establishes, for every device it mounts. */
module XzsfsMounted {
  import opened Bytes
  import opened XzsfsFormat
  import opened XzsfsTree
  import opened XzsfsKernel
  import V = XzsfsVerify

  /** The mounted nodes as an object map. */
  function NodeMap(rs: seq<Record>, strs: Bytes): Objects {
    map id: nat | id in V.IdSet(|rs|) :: Object(rs[id - 1], NameIn(strs, rs[id - 1]))
  }

  /** Parents come first, so every parent chain ends at the root. */
  lemma {:induction false} ChainEnds(rs: seq<Record>, sb: Superblock, strs: Bytes, id: nat) returns (d: nat)
    requires GraphValid(rs, sb, strs) && 1 <= id <= |rs|
    ensures AtDepth(NodeMap(rs, strs), id, d)
    decreases id
  {
    hide NameValid, PayloadValid, NameIn;
    if id == 1 {
      d := 0;
    } else {
      assert NodeValid(rs, sb, strs, id - 1);
      var e := ChainEnds(rs, sb, strs, rs[id - 1].parent);
      d := e + 1;
    }
  }

  lemma NamesApart(rs: seq<Record>, sb: Superblock, strs: Bytes, a: nat, b: nat)
    requires GraphValid(rs, sb, strs) && 1 < a < b <= |rs|
    ensures rs[a - 1].parent != rs[b - 1].parent || NameIn(strs, rs[a - 1]) != NameIn(strs, rs[b - 1])
  {
    hide PayloadValid;
    assert NodeValid(rs, sb, strs, a - 1) && NodeValid(rs, sb, strs, b - 1);
    assert !SameName(rs, strs, b - 1, a - 1);
    assert |NameIn(strs, rs[a - 1])| == rs[a - 1].nameLen && |NameIn(strs, rs[b - 1])| == rs[b - 1].nameLen;
  }

  lemma NameIsGood(rs: seq<Record>, sb: Superblock, strs: Bytes, id: nat)
    requires GraphValid(rs, sb, strs) && 1 < id <= |rs|
    ensures GoodName(NameIn(strs, rs[id - 1]))
  {
    hide PayloadValid;
    var r := rs[id - 1];
    assert NodeValid(rs, sb, strs, id - 1);
    assert NameIn(strs, r) == strs[r.nameOff..r.nameOff + r.nameLen];
    forall i | 0 <= i < r.nameLen ensures NameIn(strs, r)[i] != SLASH {
      assert strs[r.nameOff + i] != SLASH;
    }
  }

  lemma NodeHangs(rs: seq<Record>, sb: Superblock, strs: Bytes, id: nat)
    requires GraphValid(rs, sb, strs) && 1 <= id <= |rs|
    ensures id in NodeMap(rs, strs) && NodeMap(rs, strs)[id].rec.id == id
    ensures ParentOk(NodeMap(rs, strs), id) && ReachesRoot(NodeMap(rs, strs), id)
  {
    hide NameValid, PayloadValid, NameIn, AtDepth;
    assert NodeValid(rs, sb, strs, id - 1);
    var d := ChainEnds(rs, sb, strs, id);
  }

  /** Whatever the driver mounts is a tree rooted at object 1 in which every object has its own path. */
  lemma MountedIsTree(rs: seq<Record>, sb: Superblock, strs: Bytes)
    requires GraphValid(rs, sb, strs)
    ensures var objs := NodeMap(rs, strs);
            && objs.Keys == V.IdSet(|rs|) && (forall id :: id in objs ==> objs[id].rec.id == id)
            && NamesUnique(objs) && NamesGood(objs) && HierarchyOk(objs) && PathsUnique(objs)
  {
    hide GraphValid, NameIn, NamesUnique, NamesGood, PathsUnique, AtDepth, ReachesRoot, ParentOk;
    var objs := NodeMap(rs, strs);
    forall id | id in objs ensures objs[id].rec.id == id && ParentOk(objs, id) && ReachesRoot(objs, id) {
      NodeHangs(rs, sb, strs, id);
    }
    MountedNames(rs, sb, strs);
    NamesGivePaths(objs);
  }

  lemma MountedNames(rs: seq<Record>, sb: Superblock, strs: Bytes)
    requires GraphValid(rs, sb, strs)
    ensures NamesUnique(NodeMap(rs, strs)) && NamesGood(NodeMap(rs, strs))
  {
    hide NodeValid, NameIn, RootValid;
    var objs := NodeMap(rs, strs);
    forall a, b | a in objs && b in objs && 1 < a && 1 < b && a != b
      ensures objs[a].rec.parent != objs[b].rec.parent || objs[a].name != objs[b].name
    {
      if a < b {
        NamesApart(rs, sb, strs, a, b);
      } else {
        NamesApart(rs, sb, strs, b, a);
      }
    }
    forall id | id in objs && id != 1 ensures GoodName(objs[id].name) {
      NameIsGood(rs, sb, strs, id);
    }
  }

  // ----- file extents -----

  predicate EndsFit(rs: seq<Record>) {
    forall i :: 0 <= i < |rs| ==> EndFits(rs[i])
  }

  predicate EndFits(r: Record) {
    r.dataOff + r.dataLen < 0x1_0000_0000_0000_0000
  }

  /** Every file lies between the data offset and the end of the image. */
  predicate FilesInside(rs: seq<Record>, sb: Superblock) {
    forall i :: 0 <= i < |rs| && rs[i].kind == TYPE_REG ==> Inside(rs[i], sb)
  }

  predicate Inside(r: Record, sb: Superblock) {
    sb.dataOff <= r.dataOff && r.dataOff + r.dataLen <= sb.imageSize
  }

  lemma ExtentInside(rs: seq<Record>, sb: Superblock, strs: Bytes, i: nat)
    requires GraphValid(rs, sb, strs) && i < |rs| && rs[i].kind == TYPE_REG && sb.imageSize < 0x1_0000_0000_0000_0000
    ensures Inside(rs[i], sb) <==> EndFits(rs[i])
  {
    hide NameValid, ParentValid, RootValid;
    assert NodeValid(rs, sb, strs, i);
    if EndFits(rs[i]) {
      assert EndOf(rs[i]) == rs[i].dataOff + rs[i].dataLen;
    }
  }

  lemma DirectoryFits(rs: seq<Record>, sb: Superblock, strs: Bytes, i: nat)
    requires GraphValid(rs, sb, strs) && i < |rs| && rs[i].kind != TYPE_REG
    ensures EndFits(rs[i])
  {
    hide NameValid, ParentValid, RootValid;
    assert NodeValid(rs, sb, strs, i);
  }

  lemma ExtentsApart(rs: seq<Record>, sb: Superblock, strs: Bytes, i: nat, j: nat)
    requires GraphValid(rs, sb, strs) && EndsFit(rs) && j < i < |rs|
    requires rs[i].kind == TYPE_REG && rs[j].kind == TYPE_REG
    ensures rs[i].dataOff + rs[i].dataLen <= rs[j].dataOff || rs[j].dataOff + rs[j].dataLen <= rs[i].dataOff
  {
    hide NameValid, ParentValid, RootValid;
    assert NodeValid(rs, sb, strs, i);
    assert !Overlaps(rs[i], rs[j]);
    assert EndFits(rs[i]) && EndFits(rs[j]);
    assert EndOf(rs[i]) == rs[i].dataOff + rs[i].dataLen && EndOf(rs[j]) == rs[j].dataOff + rs[j].dataLen;
  }

  lemma ExtentsAllApart(rs: seq<Record>, sb: Superblock, strs: Bytes)
    requires GraphValid(rs, sb, strs) && EndsFit(rs)
    ensures ExtentsDisjoint(NodeMap(rs, strs))
  {
    hide GraphValid, EndsFit, NameIn;
    var objs := NodeMap(rs, strs);
    forall a, b | a in objs && b in objs && a != b && HasPayload(objs[a]) && HasPayload(objs[b])
      ensures Disjoint(objs[a], objs[b])
    {
      if a < b {
        ExtentsApart(rs, sb, strs, b - 1, a - 1);
      } else {
        ExtentsApart(rs, sb, strs, a - 1, b - 1);
      }
    }
  }

  /** The files of a mounted graph lie inside the image, pairwise disjoint, if and only if no extent end wraps. */
  lemma MountedExtents(rs: seq<Record>, sb: Superblock, strs: Bytes)
    requires GraphValid(rs, sb, strs) && sb.imageSize < 0x1_0000_0000_0000_0000
    ensures FilesInside(rs, sb) && ExtentsDisjoint(NodeMap(rs, strs)) <==> EndsFit(rs)
    ensures FilesInside(rs, sb) <==> EndsFit(rs)
  {
    hide GraphValid, EndFits, Inside, ExtentsDisjoint;
    forall i | 0 <= i < |rs| ensures if rs[i].kind == TYPE_REG then Inside(rs[i], sb) <==> EndFits(rs[i]) else EndFits(rs[i]) {
      if rs[i].kind == TYPE_REG {
        ExtentInside(rs, sb, strs, i);
      } else {
        DirectoryFits(rs, sb, strs, i);
      }
    }
    if EndsFit(rs) {
      ExtentsAllApart(rs, sb, strs);
    }
  }

  // ----- the object load -----

  /** When the sector count fits 32 bits: the string table starts two sectors or more behind the table's last full one. */
  lemma OverrunsIff(sb: Superblock)
    requires SuperblockValid(sb) && (sb.stringOff - SECTOR) / SECTOR < 0x1_0000_0000
    ensures sb.tableOff <= sb.stringOff
    ensures StartsBehind(ObjectSectors(sb), sb.tableSize) <==>
            sb.stringOff >= SECTOR + (sb.tableSize / SECTOR + 2) * SECTOR
  {
    hide StartsBehind;
    ValidStarts(sb);
    StartsBehindIff(ObjectSectors(sb), sb.tableSize);
  }
}
