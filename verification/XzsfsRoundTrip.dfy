/** Every tree the builder lays out is read back by the verifier. */
module XzsfsRoundTrip {
  import opened Bytes
  import opened Paths
  import opened XzsfsFormat
  import opened XzsfsBuild
  import opened XzsfsTree
  import opened V = XzsfsVerify

  /** What walking a directory tree yields: each path once, below a directory that is listed too. */
  predicate WalkTree(es: seq<Entry>) {
    && DistinctPaths(es)
    && forall i :: 0 <= i < |es| ==> Basename(es[i].path) != [] && ParentListed(es, es[i].path)
  }

  predicate ParentListed(es: seq<Entry>, p: Bytes) {
    Cut(p) == 0 || exists j :: 0 <= j < |es| && es[j].Dir? && es[j].path == p[..Cut(p) - 1]
  }

  lemma WalkTreePermutes(a: seq<Entry>, b: seq<Entry>)
    requires multiset(a) == multiset(b) && WalkTree(a)
    ensures WalkTree(b)
  {
    DistinctPermutes(a, b);
    forall i | 0 <= i < |b| ensures Basename(b[i].path) != [] && ParentListed(b, b[i].path) {
      var p := b[i].path;
      assert b[i] in multiset(a);
      var k :| 0 <= k < |a| && a[k] == b[i];
      assert ParentListed(a, p);
      if Cut(p) != 0 {
        var j :| 0 <= j < |a| && a[j].Dir? && a[j].path == p[..Cut(p) - 1];
        assert a[j] in multiset(b);
        var m :| 0 <= m < |b| && b[m] == a[j];
      }
    }
  }

  // ----- numbering -----

  lemma {:induction false} IdMapAt(es: seq<Entry>, k: nat, j: nat)
    requires WalkTree(es) && j < k <= Count(es)
    ensures PathAt(es, j) in IdMap(es, k) && IdMap(es, k)[PathAt(es, j)] == j + 1
  {
    if j < k - 1 {
      IdMapAt(es, k - 1, j);
      assert Basename(es[k - 2].path) != [];
      assert PathAt(es, j) != PathAt(es, k - 1);
    }
  }

  /** The directory an item below another lies in, and where that directory is listed. */
  lemma ParentDirectory(es: seq<Entry>, i: nat) returns (k: nat)
    requires Sorted(es) && WalkTree(es) && i < |es| && Cut(es[i].path) > 0
    ensures k < i && es[k].Dir? && Dirname(es[i].path) == es[k].path
    ensures es[i].path == es[k].path + [SEP] + Basename(es[i].path)
  {
    hide Dirname, Less;
    var p := es[i].path;
    assert ParentListed(es, p);
    k :| 0 <= k < |es| && es[k].Dir? && es[k].path == p[..Cut(p) - 1];
    var d := es[k].path;
    assert Basename(d) != [];
    DirnameSplits(p, d);
    assert p == d + ([SEP] + Basename(p));
    PrefixLess(d, [SEP] + Basename(p));
    LessTrichotomy(d, p);
  }

  /** Parents are numbered before their children, so the hierarchy is acyclic by construction. */
  lemma ParentBefore(es: seq<Entry>, i: nat) returns (j: nat)
    requires Sorted(es) && WalkTree(es) && 0 < i < Count(es)
    ensures j < i && IsDirAt(es, j) && ParentFound(es, i) && ParentAt(es, i) == j + 1
    ensures PathAt(es, i) == if j == 0 then NameAt(es, i) else PathAt(es, j) + [SEP] + NameAt(es, i)
  {
    hide WalkTree, Sorted, Dirname;
    if Cut(es[i - 1].path) == 0 {
      DirnameTop(es[i - 1].path);
      j := 0;
    } else {
      var k := ParentDirectory(es, i - 1);
      j := k + 1;
    }
    IdMapAt(es, Count(es), j);
  }

  /** On a walked tree the parent and duplicate checks never fire: only names and field widths can fail a build. */
  lemma WalkTreeBuilds(es: seq<Entry>)
    requires Sorted(es) && WalkTree(es)
    ensures ParentsFound(es) && KeysUnique(es, Count(es))
    ensures Buildable(es) <==> NamesMatch(es) && FieldsFit(es)
  {
    hide Sorted, ParentAt, ParentFound, NameAt, FieldsFit, NamesMatch, WalkTree;
    forall i | 0 <= i < Count(es) ensures ParentFound(es, i) {
      if i > 0 {
        var j := ParentBefore(es, i);
      } else {
        RootFound(es);
      }
    }
    forall i, j | 0 < i < j < Count(es) ensures KeyAt(es, i) != KeyAt(es, j) {
      var a := ParentBefore(es, i);
      var b := ParentBefore(es, j);
      PathsDiffer(es, i, j);
    }
  }

  lemma RootFound(es: seq<Entry>)
    ensures ParentFound(es, 0)
  {
  }

  lemma PathsDiffer(es: seq<Entry>, i: nat, j: nat)
    requires WalkTree(es) && 0 < i < j < Count(es)
    ensures PathAt(es, i) != PathAt(es, j)
  {
  }

  // ----- layout -----

  lemma AppendSlice(t: Bytes, u: Bytes, a: nat, b: nat)
    requires a <= b <= |t|
    ensures (t + u)[a..b] == t[a..b] && (t + u)[|t|..|t| + |u|] == u
  {
  }

  lemma {:induction false} TableSlice(es: seq<Entry>, k: nat, i: nat)
    requires i < k <= Count(es) && ParentsFound(es)
    ensures TableUpTo(es, k)[i * OBJECT_SIZE..(i + 1) * OBJECT_SIZE] == PackRecord(RecordFor(es, i))
  {
    hide PackRecord, RecordFor, ParentFound;
    assert ParentFound(es, k - 1) && ParentFound(es, i);
    var t, last := TableUpTo(es, k - 1), PackRecord(RecordFor(es, k - 1));
    assert TableUpTo(es, k) == t + last;
    if i < k - 1 {
      TableSlice(es, k - 1, i);
      AppendSlice(t, last, i * OBJECT_SIZE, (i + 1) * OBJECT_SIZE);
    } else {
      AppendSlice(t, last, 0, 0);
    }
  }

  /** The name of object `i` lies in the string table at its offset, NUL-terminated. */
  lemma {:induction false} NameSlice(es: seq<Entry>, k: nat, i: nat)
    requires 0 < i < k <= Count(es)
    ensures var s, o, l := StringsUpTo(es, k), NameOffset(es, i), |NameAt(es, i)|;
            o + l < |s| && s[o..o + l] == NameAt(es, i) && s[o + l] == 0
  {
    hide NameAt;
    var t, name := StringsUpTo(es, k - 1), NameAt(es, k - 1);
    var s, o, l := StringsUpTo(es, k), NameOffset(es, i), |NameAt(es, i)|;
    assert s == t + name + [0];
    if i < k - 1 {
      NameSlice(es, k - 1, i);
      assert s[o..o + l] == t[o..o + l];
    } else {
      assert s[o..o + l] == name;
    }
  }

  lemma {:induction false} DataSlice(es: seq<Entry>, k: nat, i: nat)
    requires i < k <= Count(es)
    ensures var d, o, p := DataUpTo(es, k), |DataUpTo(es, i)|, PayloadAt(es, i);
            o + AlignSector(|p|) <= |d| && d[o..o + |p|] == p
  {
    hide PayloadAt, AlignSector;
    var t, q := DataUpTo(es, k - 1), PayloadAt(es, k - 1);
    var d, o, p := DataUpTo(es, k), |DataUpTo(es, i)|, PayloadAt(es, i);
    assert d == t + q + Zeros(AlignSector(|q|) - |q|);
    if i < k - 1 {
      DataSlice(es, k - 1, i);
      assert d[o..o + |p|] == t[o..o + |p|];
    } else {
      assert d[o..o + |p|] == q;
    }
  }

  lemma FourParts(a: Bytes, b: Bytes, pad: Bytes, c: Bytes, d: Bytes)
    ensures var img := a + b + pad + c + d;
            var m := |a| + |b| + |pad|;
            && img[..|a|] == a && img[|a|..|a| + |b|] == b
            && img[m..m + |c|] == c && img[m + |c|..] == d
  {
  }

  /** The four sections of an image, in place. */
  lemma ImageParts(es: seq<Entry>, crc: Crc)
    requires ParentsFound(es)
    ensures var img := ImageOf(es, crc);
            && img[..SECTOR] == PackSuperblock(SuperblockFor(es, ImageCrc(es, crc)))
            && img[SECTOR..SECTOR + TableSize(es)] == TableUpTo(es, Count(es))
            && img[StringStart(es)..DataStart(es)] == StringTable(es)
            && img[DataStart(es)..] == DataUpTo(es, Count(es))
  {
    hide PackSuperblock, SuperblockFor, ImageCrc, TableUpTo, StringTable, DataUpTo, Zeros, ParentsFound;
    FourParts(PackSuperblock(SuperblockFor(es, ImageCrc(es, crc))), TableUpTo(es, Count(es)),
              Zeros(AlignSector(TableSize(es)) - TableSize(es)), StringTable(es), DataUpTo(es, Count(es)));
  }

  lemma SuperblockBack(es: seq<Entry>, crc: Crc)
    requires ParentsFound(es) && FieldsFit(es)
    ensures ParsedSuperblock(ImageOf(es, crc)) == SuperblockFor(es, ImageCrc(es, crc))
  {
    hide ImageOf, ImageCrc, RecordFits, PackSuperblock;
    var sb := SuperblockFor(es, ImageCrc(es, crc));
    Pow256Values();
    assert HeadFields(sb) == HeadFields(SuperblockFor(es, 0));
    ImageParts(es, crc);
    SuperblockRoundTrip(sb);
  }

  lemma SlicePart(img: Bytes, off: nat, len: nat, t: Bytes, a: nat, b: nat)
    requires off + len <= |img| && img[off..off + len] == t && a <= b <= len
    ensures img[off + a..off + b] == t[a..b]
  {
    SliceSlice(img, off, off + len, a, b);
  }

  lemma FitsAt(es: seq<Entry>, i: nat)
    requires ParentsFound(es) && FieldsFit(es) && i < Count(es)
    ensures ParentFound(es, i) && RecordFits(RecordFor(es, i))
  {
  }

  lemma RecordFrom(img: Bytes, i: nat, r: Record)
    requires SECTOR + OBJECT_SIZE * (i + 1) <= |img| && RecordFits(r)
    requires img[SECTOR + OBJECT_SIZE * i..SECTOR + OBJECT_SIZE * (i + 1)] == PackRecord(r)
    ensures RecordAt(img, i) == r
  {
    hide UnpackRecord, PackRecord, RecordFits;
    RecordRoundTrip(r);
  }

  lemma RecordBack(es: seq<Entry>, crc: Crc, i: nat)
    requires ParentsFound(es) && FieldsFit(es) && i < Count(es)
    ensures SECTOR + OBJECT_SIZE * (i + 1) <= |ImageOf(es, crc)|
    ensures RecordAt(ImageOf(es, crc), i) == RecordFor(es, i)
  {
    hide ImageOf, RecordFor, FieldsFit, UnpackRecord, PackRecord, ParentsFound, RecordFits;
    hide RecordAt, TableUpTo, StringTable, DataUpTo, ImageCrc, SuperblockFor, PackSuperblock;
    var img := ImageOf(es, crc);
    ImageParts(es, crc);
    TableSlice(es, Count(es), i);
    assert (i + 1) * OBJECT_SIZE <= TableSize(es);
    SlicePart(img, SECTOR, TableSize(es), TableUpTo(es, Count(es)), i * OBJECT_SIZE, (i + 1) * OBJECT_SIZE);
    FitsAt(es, i);
    RecordFrom(img, i, RecordFor(es, i));
  }

  // ----- the object map the verifier reads -----

  /** `objs` holds the objects of `es`, numbered from 1 in order. */
  ghost predicate Holds(objs: Objects, es: seq<Entry>) {
    && ParentsFound(es)
    && objs.Keys == IdSet(Count(es))
    && forall id :: id in objs ==> objs[id] == Object(RecordFor(es, id - 1), NameAt(es, id - 1))
  }

  lemma HoldsAt(objs: Objects, es: seq<Entry>, i: nat)
    requires Holds(objs, es) && i < Count(es)
    ensures i + 1 in objs && ParentFound(es, i) && objs[i + 1] == Object(RecordFor(es, i), NameAt(es, i))
  {
    hide RecordFor, NameAt;
    assert i + 1 in IdSet(Count(es));
  }

  lemma HoldsIndex(objs: Objects, es: seq<Entry>, id: nat) returns (i: nat)
    requires Holds(objs, es) && id in objs
    ensures id == i + 1 && i < Count(es)
  {
    hide RecordFor, NameAt;
    assert id in IdSet(Count(es));
    i := id - 1;
  }

  lemma JoinBelow(objs: Objects, id: nat, d: nat)
    requires AtDepth(objs, id, d) && d > 0
    ensures Join(Parts(objs, id, d)) ==
            if d == 1 then objs[id].name
            else Join(Parts(objs, objs[id].rec.parent, d - 1)) + [SLASH] + objs[id].name
  {
    var up := Parts(objs, objs[id].rec.parent, d - 1);
    if d == 1 {
      assert up + [objs[id].name] == [objs[id].name];
    } else {
      JoinSnoc(up, objs[id].name);
    }
  }

  /** Depth and path of object `i`, by induction over the numbering. */
  lemma {:induction false} PathBack(objs: Objects, es: seq<Entry>, i: nat) returns (d: nat)
    requires Sorted(es) && WalkTree(es) && Holds(objs, es) && i < Count(es)
    ensures AtDepth(objs, i + 1, d) && Join(Parts(objs, i + 1, d)) == PathAt(es, i)
    decreases i
  {
    hide WalkTree, Sorted, NameAt, Holds, ParentAt, ParentFound;
    if i == 0 {
      d := 0;
    } else {
      var j := ParentBefore(es, i);
      var dj := PathBack(objs, es, j);
      d := dj + 1;
      HoldsAt(objs, es, i);
      JoinBelow(objs, i + 1, d);
    }
  }

  lemma PathIs(objs: Objects, es: seq<Entry>, i: nat)
    requires Sorted(es) && WalkTree(es) && Holds(objs, es) && i < Count(es)
    ensures ReachesRoot(objs, i + 1) && PathOf(objs, i + 1) == [SLASH] + PathAt(es, i)
  {
    hide WalkTree, Sorted, Holds;
    var d := PathBack(objs, es, i);
    DepthUnique(objs, i + 1, d, Depth(objs, i + 1));
  }

  lemma ParentBack(objs: Objects, es: seq<Entry>, i: nat)
    requires Sorted(es) && WalkTree(es) && Holds(objs, es) && i < Count(es)
    ensures i + 1 in objs && ParentOk(objs, i + 1)
  {
    hide WalkTree, Sorted, Holds, NameAt, PathAt, DataOffset, NameOffset, PayloadAt, ModeAt;
    HoldsAt(objs, es, i);
    if i > 0 {
      var j := ParentBefore(es, i);
      HoldsAt(objs, es, j);
    }
  }

  lemma HierarchyBack(objs: Objects, es: seq<Entry>)
    requires Sorted(es) && WalkTree(es) && Holds(objs, es)
    ensures HierarchyOk(objs)
  {
    hide WalkTree, Sorted, Holds, ParentOk, ReachesRoot;
    forall id | id in objs ensures ParentOk(objs, id) && ReachesRoot(objs, id) {
      var i := HoldsIndex(objs, es, id);
      PathIs(objs, es, i);
      ParentBack(objs, es, i);
    }
  }

  lemma NamesBack(objs: Objects, es: seq<Entry>)
    requires Holds(objs, es) && KeysUnique(es, Count(es))
    ensures NamesUnique(objs)
  {
    hide NameAt, Holds;
    forall a, b | a in objs && b in objs && 1 < a < b
      ensures objs[a].rec.parent != objs[b].rec.parent || objs[a].name != objs[b].name
    {
      var i := HoldsIndex(objs, es, a);
      var j := HoldsIndex(objs, es, b);
      HoldsAt(objs, es, i);
      HoldsAt(objs, es, j);
      assert KeyAt(es, i) != KeyAt(es, j);
    }
  }

  lemma ExtentsBack(objs: Objects, es: seq<Entry>)
    requires Holds(objs, es)
    ensures ExtentsDisjoint(objs)
  {
    hide NameAt, PayloadAt, Holds;
    forall a, b | a in objs && b in objs && a < b && HasPayload(objs[a]) && HasPayload(objs[b])
      ensures Disjoint(objs[a], objs[b])
    {
      var i := HoldsIndex(objs, es, a);
      var j := HoldsIndex(objs, es, b);
      HoldsAt(objs, es, i);
      HoldsAt(objs, es, j);
      DataSlice(es, j, i);
    }
  }

  // ----- acceptance -----

  lemma SuperblockAccepted(es: seq<Entry>, crc: nat)
    ensures SuperblockOk(SuperblockFor(es, crc), ImageSize(es))
    ensures ImageSize(es) >= SECTOR && ImageSize(es) % SECTOR == 0
  {
    hide StringTable, AlignSector, DataUpTo;
    SectorsAdd(SECTOR, AlignSector(TableSize(es)));
    SectorsAdd(StringStart(es), |StringTable(es)|);
    SectorsAdd(DataStart(es), |DataUpTo(es, Count(es))|);
  }

  lemma HeaderAccepted(es: seq<Entry>, crc: Crc)
    requires ParentsFound(es) && FieldsFit(es)
    ensures HeaderOk(ImageOf(es, crc), crc)
  {
    hide ImageOf, PackSuperblock, UnpackSuperblock, TableUpTo, StringTable, DataUpTo, FieldsFit, ParentsFound;
    var c := ImageCrc(es, crc);
    SuperblockAccepted(es, c);
    SuperblockBack(es, crc);
    ImageParts(es, crc);
    ClearCrcPacked(SuperblockFor(es, c));
  }

  lemma MatchedNameOk(n: Bytes)
    requires NameMatches(n)
    ensures n != [] && forall p :: 0 <= p < |n| ==> n[p] < 128 && n[p] != SLASH
  {
    forall p | 0 <= p < |n| ensures n[p] < 128 && n[p] != SLASH {
      if !NameChars(n) && p < |n| - 1 {
        assert n[..|n| - 1][p] == n[p];
      }
    }
  }

  /** The name of a non-root object, as the verifier reads it out of the padded string table. */
  lemma NameRead(es: seq<Entry>, i: nat)
    requires NamesMatch(es) && 0 < i < Count(es)
    ensures var s, o, l := StringTable(es), NameOffset(es, i), |NameAt(es, i)|;
            && l != 0 && o + l < |s| && s[o + l] == 0 && ReadAt(s, o, l) == NameAt(es, i)
            && forall p :: o <= p < o + l ==> s[p] < 128 && s[p] != SLASH
  {
    hide NameMatches, NameAt, StringsUpTo;
    var s, o, name := StringTable(es), NameOffset(es, i), NameAt(es, i);
    NameSlice(es, Count(es), i);
    MatchedNameOk(name);
    assert s[o..o + |name|] == name;
    forall p | o <= p < o + |name| ensures s[p] < 128 && s[p] != SLASH {
      assert s[p] == name[p - o];
    }
  }

  lemma PayloadAccepted(es: seq<Entry>, i: nat)
    requires i < Count(es) && ParentFound(es, i)
    ensures PayloadOk(RecordFor(es, i), DataStart(es), ImageSize(es))
  {
    hide NameAt, ParentAt, DataUpTo, DataStart;
    DataSlice(es, Count(es), i);
    DataStartAligned(es);
  }

  lemma DataStartAligned(es: seq<Entry>)
    ensures DataStart(es) % SECTOR == 0
  {
  }

  lemma RecordAccepted(es: seq<Entry>, i: nat, crc: nat)
    requires NamesMatch(es) && i < Count(es) && ParentFound(es, i)
    ensures RecordOk(RecordFor(es, i), SuperblockFor(es, crc), StringTable(es), ImageSize(es))
    ensures ObjectOf(RecordFor(es, i), StringTable(es)) == Object(RecordFor(es, i), NameAt(es, i))
  {
    hide NamesMatch, NameAt, StringTable, PayloadAt, PayloadOk, DataStart, DataUpTo, DataOffset;
    PayloadAccepted(es, i);
    if i > 0 {
      NameRead(es, i);
      assert NameOk(RecordFor(es, i), StringTable(es));
    } else {
      RootParts(es);
    }
  }

  lemma FoundAt(es: seq<Entry>, i: nat)
    requires ParentsFound(es) && i < Count(es)
    ensures ParentFound(es, i)
  {
  }

  lemma RootParts(es: seq<Entry>)
    ensures NameAt(es, 0) == [] && PayloadAt(es, 0) == []
  {
  }

  /** The records the verifier unpacks, as one sequence. */
  ghost predicate RecordsAre(rs: seq<Record>, es: seq<Entry>)
    requires ParentsFound(es)
  {
    |rs| == Count(es) && forall i :: 0 <= i < |rs| ==> ParentFound(es, i) && rs[i] == RecordFor(es, i)
  }

  lemma RecordsBack(es: seq<Entry>, crc: Crc)
    requires ParentsFound(es) && FieldsFit(es)
    requires SECTOR + OBJECT_SIZE * Count(es) <= |ImageOf(es, crc)|
    ensures RecordsAre(Records(ImageOf(es, crc), Count(es)), es)
  {
    hide ImageOf, RecordFor, FieldsFit, RecordAt, ParentsFound, ParentFound;
    var rs := Records(ImageOf(es, crc), Count(es));
    forall i | 0 <= i < Count(es) ensures ParentFound(es, i) && rs[i] == RecordFor(es, i) {
      FitsAt(es, i);
      RecordBack(es, crc, i);
    }
  }

  lemma {:induction false} RecordsPass(rs: seq<Record>, es: seq<Entry>, crc: nat, n: nat)
    requires NamesMatch(es) && ParentsFound(es) && RecordsAre(rs, es) && n <= |rs|
    ensures RecordsOk(rs, SuperblockFor(es, crc), StringTable(es), ImageSize(es), n)
  {
    hide RecordFor, RecordOk, NamesMatch, ParentsFound, SuperblockFor, StringTable, ImageSize, ParentFound;
    if n > 0 {
      RecordsPass(rs, es, crc, n - 1);
      FoundAt(es, n - 1);
      RecordAccepted(es, n - 1, crc);
    }
  }

  lemma IdsDistinct(rs: seq<Record>, es: seq<Entry>)
    requires ParentsFound(es) && RecordsAre(rs, es)
    ensures DistinctIds(rs, |rs|)
  {
    assert forall i :: 0 <= i < |rs| ==> rs[i].id == i + 1;
  }

  lemma ObjectBack(rs: seq<Record>, es: seq<Entry>, id: nat)
    requires NamesMatch(es) && ParentsFound(es) && RecordsAre(rs, es) && id in ObjectMap(rs, StringTable(es), |rs|)
    ensures 1 <= id <= |rs| && ParentFound(es, id - 1)
    ensures ObjectMap(rs, StringTable(es), |rs|)[id] == Object(RecordFor(es, id - 1), NameAt(es, id - 1))
  {
    hide NameAt, StringTable, NamesMatch, ParentsFound, ParentFound, ObjectOf, DistinctIds, ObjectMap, RecordOk,
         SuperblockFor, ImageSize, PayloadAt, NameOffset, DataOffset, ParentAt, ModeAt;
    IdsDistinct(rs, es);
    var i := ObjectMapFrom(rs, StringTable(es), |rs|, id);
    assert rs[i] == RecordFor(es, i);
    ObjectMapHas(rs, StringTable(es), |rs|, i);
    RecordAccepted(es, i, 0);
  }

  lemma ObjectsBack(rs: seq<Record>, es: seq<Entry>)
    requires NamesMatch(es) && ParentsFound(es) && RecordsAre(rs, es)
    ensures Holds(ObjectMap(rs, StringTable(es), |rs|), es)
  {
    hide NameAt, StringTable, NamesMatch, ParentsFound, RecordFor, ParentFound, DistinctIds;
    var objs := ObjectMap(rs, StringTable(es), |rs|);
    IdsDistinct(rs, es);
    forall id | id in objs
      ensures 1 <= id <= |rs| && ParentFound(es, id - 1)
      ensures objs[id] == Object(RecordFor(es, id - 1), NameAt(es, id - 1))
    {
      ObjectBack(rs, es, id);
    }
    ObjectMapSize(rs, StringTable(es), |rs|);
    IdsComplete(objs.Keys, |rs|);
  }

  /** The image of a buildable tree in path order is accepted, and its objects are the tree's. */
  lemma SortedRoundTrip(es: seq<Entry>, crc: Crc)
    requires Sorted(es) && WalkTree(es) && Buildable(es)
    ensures Accepts(ImageOf(es, crc), crc) && Holds(ImageObjects(ImageOf(es, crc)), es)
  {
    hide ImageOf, Sorted, WalkTree, SuperblockFor, StringTable, FieldsFit, NamesMatch, ParentsFound, KeysUnique;
    hide Holds, HierarchyOk, NamesUnique, ExtentsDisjoint, RecordsOk, DistinctIds, ParsedSuperblock, RecordsAre;
    hide HeaderOk, Records;
    var img, c := ImageOf(es, crc), ImageCrc(es, crc);
    HeaderAccepted(es, crc);
    AcceptedParts(es, crc);
    var rs := ImageRecords(img);
    RecordsPass(rs, es, c, |rs|);
    IdsDistinct(rs, es);
    ObjectsBack(rs, es);
    var objs := ImageObjects(img);
    HierarchyBack(objs, es);
    NamesBack(objs, es);
    ExtentsBack(objs, es);
  }

  lemma AcceptedParts(es: seq<Entry>, crc: Crc)
    requires ParentsFound(es) && FieldsFit(es)
    ensures var img := ImageOf(es, crc);
            var sb := SuperblockFor(es, ImageCrc(es, crc));
            && |img| >= SECTOR && ParsedSuperblock(img) == sb && SuperblockOk(sb, |img|)
            && RecordsAre(ImageRecords(img), es)
            && Strings(img, sb) == StringTable(es)
  {
    hide ImageOf, FieldsFit, ParentsFound, RecordsAre, StringTable, TableUpTo, DataUpTo, ParsedSuperblock, Records;
    SuperblockAccepted(es, ImageCrc(es, crc));
    SuperblockBack(es, crc);
    ImageParts(es, crc);
    RecordsBack(es, crc);
  }

  /** The payload the verifier extracts for file `i` is the one the builder was given. */
  lemma PayloadBack(es: seq<Entry>, crc: Crc, i: nat)
    requires ParentsFound(es) && i < Count(es) && !IsDirAt(es, i)
    ensures ReadAt(ImageOf(es, crc), DataOffset(es, i), |PayloadAt(es, i)|) == PayloadAt(es, i)
  {
    hide ImageOf, PayloadAt, DataUpTo, DataStart, TableUpTo, PackSuperblock, SuperblockFor, ParentsFound;
    hide StringTable, ImageCrc, AlignSector, StringStart, TableSize;
    var img, p := ImageOf(es, crc), PayloadAt(es, i);
    ImageParts(es, crc);
    DataSlice(es, Count(es), i);
    var d, o := DataUpTo(es, Count(es)), |DataUpTo(es, i)|;
    assert img[DataStart(es)..] == img[DataStart(es)..DataStart(es) + |d|];
    SlicePart(img, DataStart(es), |d|, d, o, o + |p|);
  }

  /** The verifier accepts `img` and reads out of it exactly the tree `es`. */
  ghost predicate ReadsBack(img: Bytes, crc: Crc, es: seq<Entry>) {
    && Accepts(img, crc)
    && var objs := ImageObjects(img);
    && Holds(objs, es)
    && (forall i :: 0 <= i < Count(es) ==> PathIsBack(objs, es, i))
    && (forall i :: 0 <= i < Count(es) && !IsDirAt(es, i) ==>
          ReadAt(img, DataOffset(es, i), |PayloadAt(es, i)|) == PayloadAt(es, i))
  }

  ghost predicate PathIsBack(objs: Objects, es: seq<Entry>, i: nat)
    requires i < Count(es)
  {
    ReachesRoot(objs, i + 1) && PathOf(objs, i + 1) == [SLASH] + PathAt(es, i)
  }

  lemma SortedReadsBack(es: seq<Entry>, crc: Crc)
    requires Sorted(es) && WalkTree(es) && Buildable(es)
    ensures ReadsBack(ImageOf(es, crc), crc, es)
  {
    hide ImageOf, Sorted, WalkTree, Buildable, Holds, PayloadAt, DataOffset, ImageObjects, Accepts, PathIsBack;
    hide ReadAt, ParentsFound, KeysUnique, NamesMatch, FieldsFit, PathOf, ReachesRoot, PathAt;
    SortedRoundTrip(es, crc);
    BuildableParents(es);
    AcceptedHeader(ImageOf(es, crc), crc);
    var objs := ImageObjects(ImageOf(es, crc));
    forall i | 0 <= i < Count(es) ensures PathIsBack(objs, es, i) {
      PathIs(objs, es, i);
      PathIsIntro(objs, es, i);
    }
    forall i | 0 <= i < Count(es) && !IsDirAt(es, i)
      ensures ReadAt(ImageOf(es, crc), DataOffset(es, i), |PayloadAt(es, i)|) == PayloadAt(es, i)
    {
      PayloadBack(es, crc, i);
    }
  }

  /**
   * The whole round trip: the image built from a directory tree, whatever the discovery order, is accepted;
   * every object comes back with its number, parent, type, mode and name, its full path is its relative path
   * below "/", and every file's payload is what was stored.
   */
  lemma RoundTrip(discovered: seq<Entry>, crc: Crc)
    requires WalkTree(discovered) && Buildable(SortByPath(discovered))
    ensures ReadsBack(ImageOf(SortByPath(discovered), crc), crc, SortByPath(discovered))
  {
    hide ReadsBack, Buildable, Sorted, WalkTree, ImageOf;
    var es := SortByPath(discovered);
    WalkTreePermutes(discovered, es);
    SortedReadsBack(es, crc);
  }

  lemma AcceptedHeader(img: Bytes, crc: Crc)
    requires Accepts(img, crc)
    ensures |img| >= SECTOR && SuperblockOk(ParsedSuperblock(img), |img|)
  {
  }

  lemma PathIsIntro(objs: Objects, es: seq<Entry>, i: nat)
    requires i < Count(es) && ReachesRoot(objs, i + 1) && PathOf(objs, i + 1) == [SLASH] + PathAt(es, i)
    ensures PathIsBack(objs, es, i)
  {
  }

  lemma BuildableParents(es: seq<Entry>)
    requires Buildable(es)
    ensures ParentsFound(es) && KeysUnique(es, Count(es)) && NamesMatch(es) && FieldsFit(es)
  {
  }
}
