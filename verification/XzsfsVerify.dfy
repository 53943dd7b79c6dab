/** The host verifier: what it accepts, the loops that decide it, and what acceptance means. */
module XzsfsVerify {
  import opened Bytes
  import opened XzsfsFormat
  import opened XzsfsTree
  import opened Wrappers


  // ----- the acceptance condition -----

  predicate SuperblockOk(sb: Superblock, len: nat) {
    && sb.magic == MAGIC && sb.version == VERSION
    && sb.headerSize == SECTOR && sb.sectorSize == SECTOR
    && sb.imageSize == len && sb.objectCount != 0 && sb.rootId == 1
    && sb.tableOff == SECTOR && sb.tableSize == sb.objectCount * OBJECT_SIZE
    && sb.tableOff + sb.tableSize <= len
    && sb.tableOff + sb.tableSize <= sb.stringOff
    && sb.stringOff % SECTOR == 0 && sb.stringSize % SECTOR == 0
    && sb.stringOff + sb.stringSize <= len
    && sb.stringOff + sb.stringSize <= sb.dataOff
    && sb.dataOff % SECTOR == 0 && sb.dataOff + sb.dataSize <= len
  }

  predicate NameOk(r: Record, strs: Bytes) {
    && r.nameLen != 0
    && r.nameOff + r.nameLen < |strs| && strs[r.nameOff + r.nameLen] == 0
    && forall p :: r.nameOff <= p < r.nameOff + r.nameLen ==> strs[p] < 128 && strs[p] != SLASH
  }

  predicate PayloadOk(r: Record, dataOff: nat, len: nat) {
    if r.kind == TYPE_DIR then r.dataOff == 0 && r.dataLen == 0
    else dataOff <= r.dataOff && r.dataOff % SECTOR == 0 && r.dataOff + r.dataLen <= len
  }

  predicate RecordOk(r: Record, sb: Superblock, strs: Bytes, len: nat) {
    && 1 <= r.id <= sb.objectCount
    && (r.kind == TYPE_DIR || r.kind == TYPE_REG)
    && r.nameOff + r.nameLen <= |strs|
    && (if r.id == 1 then r.nameOff == 0 && r.nameLen == 0 && r.parent == 1 && r.kind == TYPE_DIR
        else NameOk(r, strs))
    && PayloadOk(r, sb.dataOff, len)
  }

  predicate DistinctIds(rs: seq<Record>, n: nat)
    requires n <= |rs|
  {
    forall i, j :: 0 <= i < j < n ==> rs[i].id != rs[j].id
  }

  function ObjectOf(r: Record, strs: Bytes): Object {
    Object(r, if r.id == 1 then [] else ReadAt(strs, r.nameOff, r.nameLen))
  }

  function ObjectMap(rs: seq<Record>, strs: Bytes, k: nat): Objects
    requires k <= |rs|
  {
    if k == 0 then map[] else ObjectMap(rs, strs, k - 1)[rs[k - 1].id := ObjectOf(rs[k - 1], strs)]
  }

  function ParsedSuperblock(img: Bytes): Superblock
    requires |img| >= SECTOR
  {
    UnpackSuperblock(img[..SECTOR])
  }

  predicate HeaderOk(img: Bytes, crc: Crc) {
    && |img| >= SECTOR && |img| % SECTOR == 0
    && var sb := ParsedSuperblock(img);
    && SuperblockOk(sb, |img|)
    && sb.crc == MetadataCrc(crc, ClearCrc(img[..SECTOR]),
                             img[sb.tableOff..sb.tableOff + sb.tableSize],
                             img[sb.stringOff..sb.stringOff + sb.stringSize])
  }

  function Strings(img: Bytes, sb: Superblock): Bytes
    requires sb.stringOff + sb.stringSize <= |img|
  {
    img[sb.stringOff..sb.stringOff + sb.stringSize]
  }

  predicate RecordsOk(rs: seq<Record>, sb: Superblock, strs: Bytes, len: nat, n: nat)
    requires n <= |rs|
  {
    n == 0 || (RecordsOk(rs, sb, strs, len, n - 1) && RecordOk(rs[n - 1], sb, strs, len))
  }

  lemma {:induction false} RecordsOkAt(rs: seq<Record>, sb: Superblock, strs: Bytes, len: nat, n: nat, i: nat)
    requires i < n <= |rs| && RecordsOk(rs, sb, strs, len, n)
    ensures RecordOk(rs[i], sb, strs, len)
  {
    if i < n - 1 {
      RecordsOkAt(rs, sb, strs, len, n - 1, i);
    }
  }

  predicate TableOk(rs: seq<Record>, sb: Superblock, strs: Bytes, len: nat) {
    DistinctIds(rs, |rs|) && RecordsOk(rs, sb, strs, len, |rs|)
  }

  ghost predicate GraphOk(objs: Objects) {
    HierarchyOk(objs) && NamesUnique(objs) && ExtentsDisjoint(objs)
  }

  function ImageRecords(img: Bytes): seq<Record>
    requires |img| >= SECTOR && SuperblockOk(ParsedSuperblock(img), |img|)
  {
    Records(img, ParsedSuperblock(img).objectCount)
  }

  function ImageObjects(img: Bytes): Objects
    requires |img| >= SECTOR && SuperblockOk(ParsedSuperblock(img), |img|)
  {
    var rs := ImageRecords(img);
    ObjectMap(rs, Strings(img, ParsedSuperblock(img)), |rs|)
  }

  ghost predicate Accepts(img: Bytes, crc: Crc) {
    && HeaderOk(img, crc)
    && var sb := ParsedSuperblock(img);
    && TableOk(ImageRecords(img), sb, Strings(img, sb), |img|)
    && GraphOk(ImageObjects(img))
  }

  // ----- the object map -----

  lemma {:induction false} ObjectMapHas(rs: seq<Record>, strs: Bytes, k: nat, i: nat)
    requires i < k <= |rs| && DistinctIds(rs, k)
    ensures rs[i].id in ObjectMap(rs, strs, k) && ObjectMap(rs, strs, k)[rs[i].id] == ObjectOf(rs[i], strs)
  {
    if i < k - 1 {
      ObjectMapHas(rs, strs, k - 1, i);
    }
  }

  lemma {:induction false} ObjectMapFrom(rs: seq<Record>, strs: Bytes, k: nat, id: nat) returns (i: nat)
    requires k <= |rs| && id in ObjectMap(rs, strs, k)
    ensures i < k && rs[i].id == id
  {
    if rs[k - 1].id == id {
      i := k - 1;
    } else {
      i := ObjectMapFrom(rs, strs, k - 1, id);
    }
  }

  lemma DistinctExtends(rs: seq<Record>, strs: Bytes, k: nat)
    requires k < |rs| && DistinctIds(rs, k) && rs[k].id !in ObjectMap(rs, strs, k)
    ensures DistinctIds(rs, k + 1)
  {
    forall i | 0 <= i < k ensures rs[i].id != rs[k].id {
      ObjectMapHas(rs, strs, k, i);
    }
  }

  lemma {:induction false} ObjectMapSize(rs: seq<Record>, strs: Bytes, k: nat)
    requires k <= |rs| && DistinctIds(rs, k)
    ensures |ObjectMap(rs, strs, k)| == k
  {
    hide ObjectOf;
    if k > 0 {
      ObjectMapSize(rs, strs, k - 1);
      var m := ObjectMap(rs, strs, k - 1);
      if rs[k - 1].id in m {
        var i := ObjectMapFrom(rs, strs, k - 1, rs[k - 1].id);
      }
      assert ObjectMap(rs, strs, k).Keys == m.Keys + {rs[k - 1].id};
    }
  }

  /** The identifiers 1 to `n`. */
  function IdSet(n: nat): (ids: set<nat>)
    ensures |ids| == n
    ensures forall k :: k in ids <==> 1 <= k <= n
  {
    if n == 0 then {} else IdSet(n - 1) + {n}
  }

  /** Pigeonhole: `n` distinct identifiers between 1 and `n` are all of them. */
  lemma IdsComplete(keys: set<nat>, n: nat)
    requires |keys| == n && forall k :: k in keys ==> 1 <= k <= n
    ensures keys == IdSet(n)
  {
    var all := IdSet(n);
    assert keys <= all;
    assert |all - keys| == |all| - |keys|;
    assert all == keys + (all - keys);
  }

  /** A table that passes the per-record checks holds exactly the identifiers 1 to its length. */
  lemma TableSound(rs: seq<Record>, sb: Superblock, strs: Bytes, len: nat)
    requires TableOk(rs, sb, strs, len) && |rs| == sb.objectCount
    ensures var objs := ObjectMap(rs, strs, |rs|);
            && objs.Keys == IdSet(|rs|)
            && NamesGood(objs)
            && forall id :: id in objs ==>
                 && objs[id].rec.id == id
                 && (id == 1 ==> objs[id].rec.kind == TYPE_DIR && objs[id].rec.parent == 1)
                 && (objs[id].rec.kind == TYPE_REG ==> sb.dataOff <= objs[id].rec.dataOff && End(objs[id]) <= len)
  {
    var objs := ObjectMap(rs, strs, |rs|);
    ObjectMapSize(rs, strs, |rs|);
    forall id | id in objs
      ensures 1 <= id <= |rs| && objs[id].rec.id == id
      ensures id == 1 ==> objs[id].rec.kind == TYPE_DIR && objs[id].rec.parent == 1
      ensures id != 1 ==> GoodName(objs[id].name)
      ensures objs[id].rec.kind == TYPE_REG ==> sb.dataOff <= objs[id].rec.dataOff && End(objs[id]) <= len
    {
      var i := ObjectMapFrom(rs, strs, |rs|, id);
      ObjectMapHas(rs, strs, |rs|, i);
      RecordsOkAt(rs, sb, strs, len, |rs|, i);
    }
    IdsComplete(objs.Keys, |rs|);
  }

  /** A real tree of `n` objects: unique full paths, files between the data offset and the end of the image and apart. */
  ghost predicate IsTree(objs: Objects, n: nat, dataOff: nat, len: nat) {
    && objs.Keys == IdSet(n)
    && 1 in objs && objs[1].rec.kind == TYPE_DIR && objs[1].rec.parent == 1
    && (forall id :: id in objs ==> objs[id].rec.id == id)
    && HierarchyOk(objs) && PathsUnique(objs)
    && (forall id :: id in objs && objs[id].rec.kind == TYPE_REG
          ==> dataOff <= objs[id].rec.dataOff && End(objs[id]) <= len)
    && ExtentsDisjoint(objs)
  }

  lemma GraphSound(rs: seq<Record>, sb: Superblock, strs: Bytes, len: nat)
    requires TableOk(rs, sb, strs, len) && |rs| == sb.objectCount > 0
    requires GraphOk(ObjectMap(rs, strs, |rs|))
    ensures IsTree(ObjectMap(rs, strs, |rs|), sb.objectCount, sb.dataOff, len)
  {
    var objs := ObjectMap(rs, strs, |rs|);
    TableSound(rs, sb, strs, len);
    NamesGivePaths(objs);
  }

  /** What acceptance means, for every byte string. */
  lemma Soundness(img: Bytes, crc: Crc)
    requires Accepts(img, crc)
    ensures IsTree(ImageObjects(img), ParsedSuperblock(img).objectCount, ParsedSuperblock(img).dataOff, |img|)
  {
    var sb := ParsedSuperblock(img);
    GraphSound(ImageRecords(img), sb, Strings(img, sb), |img|);
  }

  // ----- climbing from an object to the root -----

  /** Following parents from `id` passes the non-root objects `trail` and arrives at `curr`. */
  ghost predicate Climb(objs: Objects, id: nat, trail: seq<nat>, curr: nat)
    decreases |trail|
  {
    if trail == [] then id == curr
    else trail[0] == id && id != 1 && id in objs && Climb(objs, objs[id].rec.parent, trail[1..], curr)
  }

  lemma {:induction false} ClimbSnoc(objs: Objects, id: nat, trail: seq<nat>, curr: nat)
    requires Climb(objs, id, trail, curr) && curr != 1 && curr in objs
    ensures Climb(objs, id, trail + [curr], objs[curr].rec.parent)
    decreases |trail|
  {
    if trail == [] {
      assert [curr][1..] == [];
    } else {
      ClimbSnoc(objs, objs[id].rec.parent, trail[1..], curr);
      assert (trail + [curr])[1..] == trail[1..] + [curr];
    }
  }

  lemma {:induction false} ClimbPrefix(objs: Objects, id: nat, trail: seq<nat>, curr: nat, j: nat)
    requires Climb(objs, id, trail, curr) && j < |trail|
    ensures Climb(objs, id, trail[..j], trail[j])
    decreases j
  {
    if j > 0 {
      ClimbPrefix(objs, objs[id].rec.parent, trail[1..], curr, j - 1);
      assert trail[..j][1..] == trail[1..][..j - 1];
    }
  }

  lemma {:induction false} ClimbDepth(objs: Objects, id: nat, trail: seq<nat>, curr: nat, d: nat)
    requires Climb(objs, id, trail, curr) && AtDepth(objs, id, d)
    ensures |trail| <= d && AtDepth(objs, curr, d - |trail|)
    decreases |trail|
  {
    if trail != [] {
      ClimbDepth(objs, objs[id].rec.parent, trail[1..], curr, d - 1);
    }
  }

  /** Meeting an object twice means the root is never reached. */
  lemma ClimbCycle(objs: Objects, id: nat, trail: seq<nat>, curr: nat)
    requires Climb(objs, id, trail, curr) && curr in trail
    ensures !ReachesRoot(objs, id)
  {
    var j :| 0 <= j < |trail| && trail[j] == curr;
    ClimbPrefix(objs, id, trail, curr, j);
    forall d: nat ensures !AtDepth(objs, id, d) {
      if AtDepth(objs, id, d) {
        ClimbDepth(objs, id, trail, curr, d);
        ClimbDepth(objs, id, trail[..j], curr, d);
        DepthUnique(objs, curr, d - |trail|, d - j);
      }
    }
  }

  /** Meeting a missing object means the root is never reached. */
  lemma ClimbStuck(objs: Objects, id: nat, trail: seq<nat>, curr: nat)
    requires Climb(objs, id, trail, curr) && curr != 1 && curr !in objs
    ensures !ReachesRoot(objs, id)
  {
    forall d: nat ensures !AtDepth(objs, id, d) {
      if AtDepth(objs, id, d) {
        ClimbDepth(objs, id, trail, curr, d);
      }
    }
  }

  function Reversed<T>(s: seq<T>): seq<T> {
    if s == [] then [] else Reversed(s[1..]) + [s[0]]
  }

  ghost predicate NamesOf(objs: Objects, trail: seq<nat>, names: seq<Bytes>) {
    |names| == |trail|
    && forall i :: 0 <= i < |trail| ==> trail[i] in objs && names[i] == objs[trail[i]].name
  }

  lemma {:induction false} ClimbParts(objs: Objects, id: nat, trail: seq<nat>, names: seq<Bytes>)
    requires Climb(objs, id, trail, 1) && NamesOf(objs, trail, names)
    ensures AtDepth(objs, id, |trail|) && Parts(objs, id, |trail|) == Reversed(names)
    decreases |trail|
  {
    if trail != [] {
      ClimbParts(objs, objs[id].rec.parent, trail[1..], names[1..]);
    }
  }

  /** The walk from one object to the root, with the set of visited identifiers. */
  method TracePath(objs: Objects, id: nat) returns (path: Option<Bytes>)
    requires id in objs && 1 in objs
    ensures path.Some? <==> ReachesRoot(objs, id)
    ensures path.Some? ==> path.value == PathOf(objs, id)
  {
    var visited: set<nat>, curr, parts := {}, id, [];
    ghost var trail: seq<nat> := [];
    while curr != 1
      invariant curr in objs && visited <= objs.Keys
      invariant Climb(objs, id, trail, curr) && NamesOf(objs, trail, parts)
      invariant forall v :: v in visited <==> v in trail
      decreases |objs.Keys - visited|
    {
      if curr in visited {
        ClimbCycle(objs, id, trail, curr);
        return None;
      }
      var next := objs[curr].rec.parent;
      ClimbSnoc(objs, id, trail, curr);
      assert objs.Keys - visited == objs.Keys - (visited + {curr}) + {curr};
      visited, trail, parts := visited + {curr}, trail + [curr], parts + [objs[curr].name];
      if next !in objs {
        ClimbStuck(objs, id, trail, next);
        return None;
      }
      curr := next;
    }
    ClimbParts(objs, id, trail, parts);
    DepthUnique(objs, id, |trail|, Depth(objs, id));
    return Some(Render(Reversed(parts)));
  }

  // ----- the passes over the table -----

  lemma TableRejected(rs: seq<Record>, sb: Superblock, strs: Bytes, len: nat, i: nat)
    requires i < |rs| && (rs[i].id in ObjectMap(rs, strs, i) || !RecordOk(rs[i], sb, strs, len))
    ensures !TableOk(rs, sb, strs, len)
  {
    if rs[i].id in ObjectMap(rs, strs, i) {
      var j := ObjectMapFrom(rs, strs, i, rs[i].id);
    } else if RecordsOk(rs, sb, strs, len, |rs|) {
      RecordsOkAt(rs, sb, strs, len, |rs|, i);
    }
  }

  /** Checks every record and collects the objects, in table order. */
  method ParseTable(rs: seq<Record>, sb: Superblock, strs: Bytes, len: nat) returns (r: Option<Objects>)
    ensures r.Some? <==> TableOk(rs, sb, strs, len)
    ensures r.Some? ==> r.value == ObjectMap(rs, strs, |rs|)
  {
    hide RecordOk;
    var objects: Objects := map[];
    for i := 0 to |rs|
      invariant objects == ObjectMap(rs, strs, i)
      invariant DistinctIds(rs, i)
      invariant RecordsOk(rs, sb, strs, len, i)
    {
      var rec := rs[i];
      if rec.id in objects || !RecordOk(rec, sb, strs, len) {
        TableRejected(rs, sb, strs, len, i);
        return None;
      }
      DistinctExtends(rs, strs, i);
      objects := objects[rec.id := ObjectOf(rec, strs)];
    }
    return Some(objects);
  }

  /** `ids` lists the keys of `objs` without repetition, in insertion order. */
  ghost predicate Lists(ids: seq<nat>, objs: Objects) {
    && (forall i :: 0 <= i < |ids| ==> ids[i] in objs)
    && (forall id :: id in objs ==> id in ids)
    && (forall i, j :: 0 <= i < j < |ids| ==> ids[i] != ids[j])
  }

  method CheckHierarchy(objs: Objects, ids: seq<nat>) returns (r: Option<map<nat, Bytes>>)
    requires Lists(ids, objs) && 1 in objs
    ensures r.Some? <==> HierarchyOk(objs)
    ensures r.Some? ==> r.value.Keys == objs.Keys && forall id :: id in objs ==> r.value[id] == PathOf(objs, id)
  {
    hide ReachesRoot, ParentOk, PathOf;
    var paths: map<nat, Bytes> := map[];
    for i := 0 to |ids|
      invariant forall j :: 0 <= j < i ==> ParentOk(objs, ids[j]) && ReachesRoot(objs, ids[j])
      invariant forall j :: 0 <= j < i ==> ids[j] in paths
      invariant forall id :: id in paths ==> id in objs && ReachesRoot(objs, id) && paths[id] == PathOf(objs, id)
    {
      var id := ids[i];
      if !ParentOk(objs, id) {
        return None;
      }
      var p := TracePath(objs, id);
      if p.None? {
        return None;
      }
      paths := paths[id := p.value];
    }
    assert paths.Keys == objs.Keys;
    return Some(paths);
  }

  function Key(objs: Objects, id: nat): (nat, Bytes)
    requires id in objs
  {
    (objs[id].rec.parent, objs[id].name)
  }

  predicate KeysDiffer(objs: Objects, ids: seq<nat>, n: nat)
    requires n <= |ids| && forall i :: 0 <= i < |ids| ==> ids[i] in objs
  {
    forall j, k :: 0 <= j < k < n && ids[j] > 1 && ids[k] > 1 ==> Key(objs, ids[j]) != Key(objs, ids[k])
  }

  lemma ListsBoth(ids: seq<nat>, objs: Objects)
    requires Lists(ids, objs)
    ensures (forall i :: 0 <= i < |ids| ==> ids[i] in objs) && (forall id :: id in objs ==> id in ids)
    ensures forall i, j :: 0 <= i < j < |ids| ==> ids[i] != ids[j]
  {
  }

  lemma KeyIsPair(objs: Objects)
    ensures forall a, b :: a in objs && b in objs ==>
              (Key(objs, a) == Key(objs, b) <==> objs[a].rec.parent == objs[b].rec.parent && objs[a].name == objs[b].name)
  {
  }

  lemma KeysDifferMeans(objs: Objects, ids: seq<nat>)
    requires Lists(ids, objs)
    ensures KeysDiffer(objs, ids, |ids|) <==> NamesUnique(objs)
  {
    hide Lists;
    ListsBoth(ids, objs);
    KeyIsPair(objs);
    if KeysDiffer(objs, ids, |ids|) {
      forall a, b | a in objs && b in objs && 1 < a && 1 < b && a != b
        ensures Key(objs, a) != Key(objs, b)
      {
        var j :| 0 <= j < |ids| && ids[j] == a;
        var k :| 0 <= k < |ids| && ids[k] == b;
        if j < k {
          assert Key(objs, ids[j]) != Key(objs, ids[k]);
        } else {
          assert Key(objs, ids[k]) != Key(objs, ids[j]);
        }
      }
    }
  }

  ghost function KeySet(objs: Objects, ids: seq<nat>, n: nat): set<(nat, Bytes)>
    requires n <= |ids| && forall i :: 0 <= i < |ids| ==> ids[i] in objs
  {
    if n == 0 then {}
    else KeySet(objs, ids, n - 1) + if ids[n - 1] > 1 then {Key(objs, ids[n - 1])} else {}
  }

  lemma {:induction false} KeySetHas(objs: Objects, ids: seq<nat>, n: nat, i: nat)
    requires i < n <= |ids| && forall i :: 0 <= i < |ids| ==> ids[i] in objs
    requires ids[i] > 1
    ensures Key(objs, ids[i]) in KeySet(objs, ids, n)
  {
    if i < n - 1 {
      KeySetHas(objs, ids, n - 1, i);
    }
  }

  lemma {:induction false} KeySetFrom(objs: Objects, ids: seq<nat>, n: nat, key: (nat, Bytes)) returns (i: nat)
    requires n <= |ids| && forall i :: 0 <= i < |ids| ==> ids[i] in objs
    requires key in KeySet(objs, ids, n)
    ensures i < n && ids[i] > 1 && Key(objs, ids[i]) == key
  {
    if ids[n - 1] > 1 && Key(objs, ids[n - 1]) == key {
      i := n - 1;
    } else {
      i := KeySetFrom(objs, ids, n - 1, key);
    }
  }

  lemma KeysDifferExtends(objs: Objects, ids: seq<nat>, n: nat)
    requires n < |ids| && (forall i :: 0 <= i < |ids| ==> ids[i] in objs)
    requires KeysDiffer(objs, ids, n)
    requires ids[n] > 1 ==> Key(objs, ids[n]) !in KeySet(objs, ids, n)
    ensures KeysDiffer(objs, ids, n + 1)
  {
    forall j | 0 <= j < n && ids[j] > 1 && ids[n] > 1 ensures Key(objs, ids[j]) != Key(objs, ids[n]) {
      KeySetHas(objs, ids, n, j);
    }
  }

  lemma KeysClash(objs: Objects, ids: seq<nat>, j: nat, k: nat)
    requires (forall i :: 0 <= i < |ids| ==> ids[i] in objs) && j < k < |ids|
    requires ids[j] > 1 && ids[k] > 1 && Key(objs, ids[j]) == Key(objs, ids[k])
    ensures !KeysDiffer(objs, ids, |ids|)
  {
  }

  method CheckNames(objs: Objects, ids: seq<nat>) returns (ok: bool)
    requires Lists(ids, objs)
    ensures ok <==> NamesUnique(objs)
  {
    hide KeysDiffer, NamesUnique, Key;
    KeysDifferMeans(objs, ids);
    var seen: set<(nat, Bytes)> := {};
    KeysDifferNone(objs, ids);
    for i := 0 to |ids|
      invariant seen == KeySet(objs, ids, i)
      invariant KeysDiffer(objs, ids, i)
    {
      var id := ids[i];
      if id > 1 && Key(objs, id) in seen {
        ghost var j := KeySetFrom(objs, ids, i, Key(objs, id));
        KeysClash(objs, ids, j, i);
        return false;
      }
      KeysDifferExtends(objs, ids, i);
      if id > 1 {
        seen := seen + {Key(objs, id)};
      }
    }
    return true;
  }

  lemma KeysDifferNone(objs: Objects, ids: seq<nat>)
    requires forall i :: 0 <= i < |ids| ==> ids[i] in objs
    ensures KeysDiffer(objs, ids, 0)
  {
  }

  /** The non-empty regular files, in table order. */
  function PayloadFiles(objs: Objects, ids: seq<nat>): (files: seq<Object>)
    requires forall i :: 0 <= i < |ids| ==> ids[i] in objs
    ensures forall f :: f in files <==> exists i :: 0 <= i < |ids| && objs[ids[i]] == f && HasPayload(f)
  {
    if ids == [] then []
    else
      var init := ids[..|ids| - 1];
      var last := objs[ids[|ids| - 1]];
      assert ids == init + [ids[|ids| - 1]];
      PayloadFiles(objs, init) + if HasPayload(last) then [last] else []
  }

  lemma {:induction false} PayloadFilesDistinct(objs: Objects, ids: seq<nat>)
    requires forall i :: 0 <= i < |ids| ==> ids[i] in objs && objs[ids[i]].rec.id == ids[i]
    requires forall i, j :: 0 <= i < j < |ids| ==> ids[i] != ids[j]
    ensures forall f :: f in multiset(PayloadFiles(objs, ids)) ==> multiset(PayloadFiles(objs, ids))[f] == 1
  {
    if ids != [] {
      var init := ids[..|ids| - 1];
      var last := objs[ids[|ids| - 1]];
      PayloadFilesDistinct(objs, init);
      assert last !in PayloadFiles(objs, init);
    }
  }

  lemma ApartGivesDisjoint(objs: Objects, s: seq<Object>, a: nat, b: nat)
    requires PairwiseApart(s) && a in objs && b in objs && objs[a] != objs[b]
    requires objs[a] in s && objs[b] in s
    ensures Disjoint(objs[a], objs[b])
  {
    var i :| 0 <= i < |s| && s[i] == objs[a];
    var j :| 0 <= j < |s| && s[j] == objs[b];
    if i < j {
      assert Disjoint(s[i], s[j]);
    } else {
      assert Disjoint(s[j], s[i]);
    }
  }

  /** Sorted by offset, the files are pairwise apart exactly when the objects' extents are disjoint. */
  lemma FilesApart(objs: Objects, ids: seq<nat>)
    requires Lists(ids, objs) && forall id :: id in objs ==> objs[id].rec.id == id
    ensures PairwiseApart(SortByOffset(PayloadFiles(objs, ids))) <==> ExtentsDisjoint(objs)
  {
    var s := SortByOffset(PayloadFiles(objs, ids));
    PayloadFilesDistinct(objs, ids);
    FilesListed(objs, ids, s);
    if PairwiseApart(s) {
      forall a, b | a in objs && b in objs && a != b && HasPayload(objs[a]) && HasPayload(objs[b])
        ensures Disjoint(objs[a], objs[b])
      {
        ApartGivesDisjoint(objs, s, a, b);
      }
    }
    if ExtentsDisjoint(objs) {
      forall i, j | 0 <= i < j < |s| ensures Disjoint(s[i], s[j]) {
        if s[i] == s[j] {
          CountTwice(s, i, j);
        }
        assert s[i] in s && s[j] in s;
      }
    }
  }

  lemma FileListed(objs: Objects, ids: seq<nat>, id: nat)
    requires Lists(ids, objs) && id in objs && HasPayload(objs[id])
    ensures objs[id] in PayloadFiles(objs, ids)
  {
    var i :| 0 <= i < |ids| && ids[i] == id;
    assert objs[ids[i]] == objs[id];
  }

  method CheckNeighbours(files: seq<Object>) returns (ok: bool)
    ensures ok <==> NeighboursApart(files)
  {
    var i := 0;
    while i < |files| - 1
      invariant 0 <= i <= |files| && (|files| > 0 ==> i < |files|)
      invariant forall j :: 0 <= j < i ==> End(files[j]) <= files[j + 1].rec.dataOff
    {
      if End(files[i]) > files[i + 1].rec.dataOff {
        return false;
      }
      i := i + 1;
    }
    return true;
  }

  /** Sorts the non-empty files and compares neighbours. */
  method CheckExtents(objs: Objects, ids: seq<nat>) returns (ok: bool, files: seq<Object>)
    requires Lists(ids, objs) && forall id :: id in objs ==> objs[id].rec.id == id
    ensures ok <==> ExtentsDisjoint(objs)
    ensures files == SortByOffset(PayloadFiles(objs, ids))
  {
    hide NeighboursApart, PairwiseApart, ExtentsDisjoint;
    files := SortByOffset(PayloadFiles(objs, ids));
    FilesApart(objs, ids);
    FilesListed(objs, ids, files);
    NeighboursSuffice(files);
    ok := CheckNeighbours(files);
  }

  /** `m` holds the payload of every non-empty file under its full path, and nothing else. */
  ghost predicate Extracted(img: Bytes, objs: Objects, m: map<Bytes, Bytes>)
    requires HierarchyOk(objs)
  {
    && (forall id :: id in objs && HasPayload(objs[id]) ==>
          PathOf(objs, id) in m && m[PathOf(objs, id)] == ReadAt(img, objs[id].rec.dataOff, objs[id].rec.dataLen))
    && (forall p :: p in m ==> exists id :: id in objs && HasPayload(objs[id]) && PathOf(objs, id) == p)
  }

  function ExtractMap(img: Bytes, files: seq<Object>, paths: map<nat, Bytes>, k: nat): map<Bytes, Bytes>
    requires k <= |files| && forall i :: 0 <= i < |files| ==> files[i].rec.id in paths
  {
    if k == 0 then map[]
    else
      var f := files[k - 1].rec;
      ExtractMap(img, files, paths, k - 1)[paths[f.id] := ReadAt(img, f.dataOff, f.dataLen)]
  }

  lemma {:induction false} ExtractHas(img: Bytes, files: seq<Object>, paths: map<nat, Bytes>, k: nat, i: nat)
    requires i < k <= |files| && forall i :: 0 <= i < |files| ==> files[i].rec.id in paths
    requires forall j :: i < j < k && paths[files[i].rec.id] == paths[files[j].rec.id] ==> files[i] == files[j]
    ensures var m := ExtractMap(img, files, paths, k);
            && paths[files[i].rec.id] in m
            && m[paths[files[i].rec.id]] == ReadAt(img, files[i].rec.dataOff, files[i].rec.dataLen)
  {
    if i < k - 1 {
      ExtractHas(img, files, paths, k - 1, i);
    }
  }

  lemma {:induction false} ExtractFrom(img: Bytes, files: seq<Object>, paths: map<nat, Bytes>, k: nat, p: Bytes)
    returns (i: nat)
    requires k <= |files| && forall i :: 0 <= i < |files| ==> files[i].rec.id in paths
    requires p in ExtractMap(img, files, paths, k)
    ensures i < k && paths[files[i].rec.id] == p
  {
    if paths[files[k - 1].rec.id] == p {
      i := k - 1;
    } else {
      i := ExtractFrom(img, files, paths, k - 1, p);
    }
  }

  lemma ExtractMeans(img: Bytes, objs: Objects, paths: map<nat, Bytes>, files: seq<Object>)
    requires HierarchyOk(objs) && PathsUnique(objs)
    requires forall id :: id in objs ==> objs[id].rec.id == id && id in paths && paths[id] == PathOf(objs, id)
    requires forall f :: f in files <==> f.rec.id in objs && objs[f.rec.id] == f && HasPayload(f)
    ensures Extracted(img, objs, ExtractMap(img, files, paths, |files|))
  {
    var m := ExtractMap(img, files, paths, |files|);
    forall id | id in objs && HasPayload(objs[id])
      ensures PathOf(objs, id) in m
      ensures m[PathOf(objs, id)] == ReadAt(img, objs[id].rec.dataOff, objs[id].rec.dataLen)
    {
      var i :| 0 <= i < |files| && files[i] == objs[id];
      ExtractHas(img, files, paths, |files|, i);
    }
    forall p | p in m ensures exists id :: id in objs && HasPayload(objs[id]) && PathOf(objs, id) == p {
      var i := ExtractFrom(img, files, paths, |files|, p);
      assert files[i] in files;
      assert PathOf(objs, files[i].rec.id) == p;
    }
  }

  method Extract(img: Bytes, paths: map<nat, Bytes>, files: seq<Object>) returns (m: map<Bytes, Bytes>)
    requires forall i :: 0 <= i < |files| ==> files[i].rec.id in paths
    ensures m == ExtractMap(img, files, paths, |files|)
  {
    m := map[];
    for i := 0 to |files|
      invariant m == ExtractMap(img, files, paths, i)
    {
      var f := files[i].rec;
      m := m[paths[f.id] := ReadAt(img, f.dataOff, f.dataLen)];
    }
  }

  lemma FilesListed(objs: Objects, ids: seq<nat>, files: seq<Object>)
    requires Lists(ids, objs) && forall id :: id in objs ==> objs[id].rec.id == id
    requires multiset(files) == multiset(PayloadFiles(objs, ids))
    ensures forall f :: f in files <==> f.rec.id in objs && objs[f.rec.id] == f && HasPayload(f)
  {
    var all := PayloadFiles(objs, ids);
    assert forall f :: f in files <==> f in multiset(files);
    assert forall f :: f in all <==> f in multiset(all);
    forall f: Object ensures f in all <==> f.rec.id in objs && objs[f.rec.id] == f && HasPayload(f) {
      if f.rec.id in objs && objs[f.rec.id] == f && HasPayload(f) {
        FileListed(objs, ids, f.rec.id);
      }
    }
  }

  datatype Verified = Verified(sb: Superblock, objects: Objects, paths: map<nat, Bytes>, files: map<Bytes, Bytes>)

  lemma IdsList(rs: seq<Record>, strs: Bytes, ids: seq<nat>)
    requires DistinctIds(rs, |rs|) && |ids| == |rs| && forall i :: 0 <= i < |rs| ==> ids[i] == rs[i].id
    ensures Lists(ids, ObjectMap(rs, strs, |rs|))
  {
    var objs := ObjectMap(rs, strs, |rs|);
    forall i | 0 <= i < |ids| ensures ids[i] in objs {
      ObjectMapHas(rs, strs, |rs|, i);
    }
    forall id | id in objs ensures id in ids {
      var i := ObjectMapFrom(rs, strs, |rs|, id);
      assert ids[i] == id;
    }
  }

  /** `v` reports the objects `objs` with their full paths and their extracted payloads. */
  ghost predicate Reports(v: Verified, img: Bytes, sb: Superblock, objs: Objects)
    requires HierarchyOk(objs)
  {
    && v.sb == sb && v.objects == objs
    && v.paths.Keys == objs.Keys && (forall id :: id in objs ==> v.paths[id] == PathOf(objs, id))
    && Extracted(img, objs, v.files)
  }

  /** The hierarchy, name and extent checks, and the extraction. */
  method VerifyGraph(img: Bytes, sb: Superblock, objs: Objects, ids: seq<nat>) returns (r: Option<Verified>)
    requires Lists(ids, objs) && 1 in objs && 0 !in objs && NamesGood(objs)
    requires forall id :: id in objs ==> objs[id].rec.id == id
    ensures r.Some? <==> GraphOk(objs)
    ensures r.Some? ==> Reports(r.value, img, sb, objs)
  {
    hide NamesUnique, ExtentsDisjoint, Extracted, Lists, NamesGood, PathsUnique;
    var paths := CheckHierarchy(objs, ids);
    if paths.None? {
      return None;
    }
    var unique := CheckNames(objs, ids);
    if !unique {
      return None;
    }
    var apart, files := CheckExtents(objs, ids);
    if !apart {
      return None;
    }
    NamesGivePaths(objs);
    FilesListed(objs, ids, files);
    ExtractMeans(img, objs, paths.value, files);
    var m := Extract(img, paths.value, files);
    return Some(Verified(sb, objs, paths.value, m));
  }

  /** Everything after the superblock and its checksum. */
  method VerifyObjects(img: Bytes, rs: seq<Record>, sb: Superblock, strs: Bytes) returns (r: Option<Verified>)
    requires |rs| == sb.objectCount > 0
    ensures r.Some? <==> TableOk(rs, sb, strs, |img|) && GraphOk(ObjectMap(rs, strs, |rs|))
    ensures r.Some? ==> Reports(r.value, img, sb, ObjectMap(rs, strs, |rs|))
  {
    hide GraphOk, Reports, HierarchyOk;
    var table := ParseTable(rs, sb, strs, |img|);
    if table.None? {
      return None;
    }
    var ids := seq(|rs|, i requires 0 <= i < |rs| => rs[i].id);
    IdsList(rs, strs, ids);
    TableSound(rs, sb, strs, |img|);
    r := VerifyGraph(img, sb, table.value, ids);
  }

  /** The whole verifier: it accepts exactly the images `Accepts` describes. */
  method ParseAndVerify(img: Bytes, crc: Crc) returns (r: Option<Verified>)
    ensures r.Some? <==> Accepts(img, crc)
    ensures r.Some? ==> Reports(r.value, img, ParsedSuperblock(img), ImageObjects(img))
  {
    if !HeaderOk(img, crc) {
      return None;
    }
    var sb := ParsedSuperblock(img);
    r := VerifyObjects(img, ImageRecords(img), sb, Strings(img, sb));
  }
}
