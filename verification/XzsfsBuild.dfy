/** The deterministic image builder: ordering, numbering, layout and serialisation. */
module XzsfsBuild {
  import opened Bytes
  import opened Paths
  import opened XzsfsFormat

  /** One item found below the root directory, with what the build reads of it. */
  datatype Entry = Dir(path: Bytes) | File(path: Bytes, executable: bool, payload: Bytes)

  // ----- sorting by path -----

  predicate Sorted(es: seq<Entry>) {
    forall i, j :: 0 <= i < j < |es| ==> !Less(es[j].path, es[i].path)
  }

  function Insert(e: Entry, es: seq<Entry>): (r: seq<Entry>)
    ensures multiset(r) == multiset(es) + multiset{e}
    ensures forall x :: x in r ==> x == e || x in es
  {
    if es == [] then [e]
    else if Less(e.path, es[0].path) then [e] + es
    else
      assert es == [es[0]] + es[1..];
      [es[0]] + Insert(e, es[1..])
  }

  lemma NotLessTransitive(a: Bytes, b: Bytes, c: Bytes)
    requires !Less(b, a) && !Less(c, b)
    ensures !Less(c, a)
  {
    LessTrichotomy(a, b);
    LessTrichotomy(b, c);
    LessTrichotomy(a, c);
    if Less(a, b) && Less(b, c) {
      LessTransitive(a, b, c);
    }
  }

  lemma {:induction false} InsertSorted(e: Entry, es: seq<Entry>)
    requires Sorted(es)
    ensures Sorted(Insert(e, es))
  {
    if es == [] {
    } else if Less(e.path, es[0].path) {
      LessTrichotomy(e.path, es[0].path);
      LessTrichotomy(es[0].path, es[0].path);
      forall j | 0 <= j < |es| ensures !Less(es[j].path, e.path) {
        NotLessTransitive(e.path, es[0].path, es[j].path);
      }
    } else {
      InsertSorted(e, es[1..]);
      var r := Insert(e, es[1..]);
      assert forall x :: x in r ==> !Less(x.path, es[0].path);
    }
  }

  /** `discovered.sort(key=lambda x: x[0])`. */
  function SortByPath(es: seq<Entry>): (r: seq<Entry>)
    ensures multiset(r) == multiset(es)
    ensures Sorted(r)
  {
    if es == [] then []
    else
      var init, last := es[..|es| - 1], es[|es| - 1];
      assert es == init + [last];
      InsertSorted(last, SortByPath(init));
      Insert(last, SortByPath(init))
  }

  predicate DistinctPaths(es: seq<Entry>) {
    forall i, j :: 0 <= i < j < |es| ==> es[i].path != es[j].path
  }

  lemma {:induction false} DistinctCounts(es: seq<Entry>, e: Entry)
    requires DistinctPaths(es)
    ensures multiset(es)[e] <= 1
  {
    if es != [] {
      assert es == [es[0]] + es[1..];
      DistinctCounts(es[1..], e);
      assert es[0] !in es[1..];
    }
  }

  lemma DistinctPermutes(a: seq<Entry>, b: seq<Entry>)
    requires multiset(a) == multiset(b) && DistinctPaths(a)
    ensures DistinctPaths(b)
  {
    forall i, j | 0 <= i < j < |b| ensures b[i].path != b[j].path {
      DistinctCounts(a, b[i]);
      if b[i] == b[j] {
        CountTwice(b, i, j);
      }
      assert b[i] in multiset(a) && b[j] in multiset(a);
      var p :| 0 <= p < |a| && a[p] == b[i];
      var q :| 0 <= q < |a| && a[q] == b[j];
      if p < q {
        assert a[p].path != a[q].path;
      } else {
        assert q < p && a[q].path != a[p].path;
      }
    }
  }

  lemma TailKeeps(s: seq<Entry>)
    requires s != []
    ensures multiset(s[1..]) == multiset(s) - multiset{s[0]}
    ensures Sorted(s) ==> Sorted(s[1..])
    ensures DistinctPaths(s) ==> DistinctPaths(s[1..])
  {
    assert s == [s[0]] + s[1..];
  }

  lemma SortedHead(a: seq<Entry>, b: seq<Entry>)
    requires a != [] && Sorted(a) && a[0] in b && b[0] in a && Sorted(b) && DistinctPaths(b)
    ensures a[0] == b[0]
  {
    var i :| 0 <= i < |b| && b[i] == a[0];
    var j :| 0 <= j < |a| && a[j] == b[0];
    LessTrichotomy(a[0].path, b[0].path);
    assert i > 0 ==> b[0].path != b[i].path && !Less(b[i].path, b[0].path);
  }

  lemma SameSize(a: seq<Entry>, b: seq<Entry>)
    requires multiset(a) == multiset(b)
    ensures |a| == |b|
  {
    assert |a| == |multiset(a)| == |multiset(b)| == |b|;
  }

  lemma {:induction false} SortedUnique(a: seq<Entry>, b: seq<Entry>)
    requires multiset(a) == multiset(b) && Sorted(a) && Sorted(b) && DistinctPaths(b)
    ensures a == b
  {
    hide Sorted, DistinctPaths;
    SameSize(a, b);
    if a != [] {
      assert a[0] in multiset(b) && b[0] in multiset(a);
      SortedHead(a, b);
      TailKeeps(a);
      TailKeeps(b);
      SortedUnique(a[1..], b[1..]);
      assert a == [a[0]] + a[1..] && b == [b[0]] + b[1..];
    }
  }

  /** The order of discovery does not matter. */
  lemma SortDeterministic(a: seq<Entry>, b: seq<Entry>)
    requires multiset(a) == multiset(b) && DistinctPaths(a)
    ensures SortByPath(a) == SortByPath(b)
  {
    DistinctPermutes(a, SortByPath(b));
    SortedUnique(SortByPath(a), SortByPath(b));
  }

  // ----- the object list: the root, then the entries in path order -----

  function Count(es: seq<Entry>): nat {
    |es| + 1
  }

  function PathAt(es: seq<Entry>, i: nat): Bytes
    requires i < Count(es)
  {
    if i == 0 then [] else es[i - 1].path
  }

  predicate IsDirAt(es: seq<Entry>, i: nat)
    requires i < Count(es)
  {
    i == 0 || es[i - 1].Dir?
  }

  function PayloadAt(es: seq<Entry>, i: nat): Bytes
    requires i < Count(es)
  {
    if IsDirAt(es, i) then [] else es[i - 1].payload
  }

  function NameAt(es: seq<Entry>, i: nat): Bytes
    requires i < Count(es)
  {
    if i == 0 then [] else Basename(es[i - 1].path)
  }

  function ModeAt(es: seq<Entry>, i: nat): nat
    requires i < Count(es)
  {
    if IsDirAt(es, i) || es[i - 1].executable then 493 else 420 // 0o755, 0o644
  }

  /** `[a-zA-Z0-9._-]`. */
  predicate NameChar(c: byte) {
    97 <= c <= 122 || 65 <= c <= 90 || 48 <= c <= 57 || c == 46 || c == 95 || c == 45
  }

  predicate NameChars(n: Bytes) {
    n != [] && forall i :: 0 <= i < |n| ==> NameChar(n[i])
  }

  /** `^[a-zA-Z0-9._-]+$` as `re.match` reads it: the `$` also matches before a final newline. */
  predicate NameMatches(n: Bytes) {
    NameChars(n) || (n != [] && n[|n| - 1] == 10 && NameChars(n[..|n| - 1]))
  }

  /** What the pattern lets through beside its own characters: exactly an allowed name with one newline behind it. */
  lemma NewlineNames(n: Bytes)
    ensures NameMatches(n) && !NameChars(n) <==> exists m :: NameChars(m) && n == m + [10]
    ensures NameMatches([97, 10]) && !NameChars([97, 10])
  {
    if NameMatches(n) && !NameChars(n) {
      assert n == n[..|n| - 1] + [10];
    }
    if m :| NameChars(m) && n == m + [10] {
      assert n[..|n| - 1] == m && !NameChar(n[|n| - 1]);
    }
    var a: Bytes := [97, 10];
    assert a[..1] == [97] && !NameChar(a[1]);
  }

  /** `path_to_id` once the first `k` objects have been numbered. */
  function IdMap(es: seq<Entry>, k: nat): map<Bytes, nat>
    requires k <= Count(es)
  {
    if k == 0 then map[[] := 1] else IdMap(es, k - 1)[PathAt(es, k - 1) := k]
  }

  predicate ParentFound(es: seq<Entry>, i: nat)
    requires i < Count(es)
  {
    i == 0 || Dirname(PathAt(es, i)) in IdMap(es, Count(es))
  }

  function ParentAt(es: seq<Entry>, i: nat): nat
    requires i < Count(es) && ParentFound(es, i)
  {
    if i == 0 then 1 else IdMap(es, Count(es))[Dirname(PathAt(es, i))]
  }

  /** The string table once the names of the first `k` objects have been appended. */
  function StringsUpTo(es: seq<Entry>, k: nat): (s: Bytes)
    requires k <= Count(es)
    ensures |s| >= 1
  {
    if k <= 1 then [0] else StringsUpTo(es, k - 1) + NameAt(es, k - 1) + [0]
  }

  function NameOffset(es: seq<Entry>, i: nat): nat
    requires i < Count(es)
  {
    if i == 0 then 0 else |StringsUpTo(es, i)|
  }

  function StringTable(es: seq<Entry>): (s: Bytes)
    ensures |s| % SECTOR == 0
  {
    var raw := StringsUpTo(es, Count(es));
    raw + Zeros(AlignSector(|raw|) - |raw|)
  }

  function TableSize(es: seq<Entry>): nat {
    Count(es) * OBJECT_SIZE
  }

  function StringStart(es: seq<Entry>): nat {
    SECTOR + AlignSector(TableSize(es))
  }

  function DataStart(es: seq<Entry>): nat {
    StringStart(es) + |StringTable(es)|
  }

  /** The sector-padded payloads of the first `k` objects. */
  function DataUpTo(es: seq<Entry>, k: nat): (d: Bytes)
    requires k <= Count(es)
    ensures |d| % SECTOR == 0
  {
    if k == 0 then []
    else
      var p, d := PayloadAt(es, k - 1), DataUpTo(es, k - 1);
      SectorsAdd(|d|, AlignSector(|p|));
      d + p + Zeros(AlignSector(|p|) - |p|)
  }

  lemma SectorsAdd(a: nat, b: nat)
    requires a % SECTOR == 0 && b % SECTOR == 0
    ensures (a + b) % SECTOR == 0
  {
  }

  function DataOffset(es: seq<Entry>, i: nat): nat
    requires i < Count(es)
  {
    if IsDirAt(es, i) then 0 else DataStart(es) + |DataUpTo(es, i)|
  }

  function RecordFor(es: seq<Entry>, i: nat): Record
    requires i < Count(es) && ParentFound(es, i)
  {
    Record(i + 1, ParentAt(es, i), if IsDirAt(es, i) then TYPE_DIR else TYPE_REG, ModeAt(es, i), 0, 0,
           NameOffset(es, i), |NameAt(es, i)|, DataOffset(es, i), |PayloadAt(es, i)|, 0, 0)
  }

  predicate ParentsFound(es: seq<Entry>) {
    forall i :: 0 <= i < Count(es) ==> ParentFound(es, i)
  }

  function TableUpTo(es: seq<Entry>, k: nat): (t: Bytes)
    requires k <= Count(es) && ParentsFound(es)
    ensures |t| == k * OBJECT_SIZE
  {
    if k == 0 then [] else TableUpTo(es, k - 1) + PackRecord(RecordFor(es, k - 1))
  }

  function ImageSize(es: seq<Entry>): nat {
    DataStart(es) + |DataUpTo(es, Count(es))|
  }

  function SuperblockFor(es: seq<Entry>, crc: nat): Superblock {
    Superblock(MAGIC, VERSION, SECTOR, SECTOR, ImageSize(es), Count(es), 1, SECTOR, TableSize(es),
               StringStart(es), |StringTable(es)|, DataStart(es), |DataUpTo(es, Count(es))|, crc, 0)
  }

  function ImageCrc(es: seq<Entry>, crc: Crc): u32
    requires ParentsFound(es)
  {
    MetadataCrc(crc, PackSuperblock(SuperblockFor(es, 0)), TableUpTo(es, Count(es)), StringTable(es))
  }

  function ImageOf(es: seq<Entry>, crc: Crc): (img: Bytes)
    requires ParentsFound(es)
    ensures |img| == ImageSize(es)
  {
    PackSuperblock(SuperblockFor(es, ImageCrc(es, crc)))
    + TableUpTo(es, Count(es)) + Zeros(AlignSector(TableSize(es)) - TableSize(es))
    + StringTable(es) + DataUpTo(es, Count(es))
  }

  function KeyAt(es: seq<Entry>, i: nat): (nat, Bytes)
    requires i < Count(es) && ParentFound(es, i)
  {
    (ParentAt(es, i), NameAt(es, i))
  }

  predicate NamesMatch(es: seq<Entry>) {
    forall i :: 0 < i < Count(es) ==> NameMatches(NameAt(es, i))
  }

  predicate KeysUnique(es: seq<Entry>, n: nat)
    requires n <= Count(es) && ParentsFound(es)
  {
    forall i, j :: 0 < i < j < n ==> KeyAt(es, i) != KeyAt(es, j)
  }

  /** Every value fits the field it is packed into. */
  predicate FieldsFit(es: seq<Entry>)
    requires ParentsFound(es)
  {
    SuperblockFits(SuperblockFor(es, 0)) && forall i :: 0 <= i < Count(es) ==> RecordFits(RecordFor(es, i))
  }

  predicate Buildable(es: seq<Entry>) {
    NamesMatch(es) && ParentsFound(es) && KeysUnique(es, Count(es)) && FieldsFit(es)
  }

  // ----- the build, loop by loop -----

  /** Numbers the objects and checks every name but the root's. */
  method AssignIds(es: seq<Entry>) returns (ok: bool, ids: map<Bytes, nat>)
    ensures ok <==> NamesMatch(es)
    ensures ok ==> ids == IdMap(es, Count(es))
  {
    hide NameMatches, NameAt, PathAt;
    ids := map[[] := 1];
    for i := 0 to Count(es)
      invariant ids == IdMap(es, i)
      invariant forall j :: 0 < j < i ==> NameMatches(NameAt(es, j))
    {
      ids := ids[PathAt(es, i) := i + 1];
      if i > 0 && !NameMatches(NameAt(es, i)) {
        return false, ids;
      }
    }
    return true, ids;
  }

  method AssignParents(es: seq<Entry>, ids: map<Bytes, nat>) returns (ok: bool, parents: seq<nat>)
    requires ids == IdMap(es, Count(es))
    ensures ok <==> ParentsFound(es)
    ensures ok ==> |parents| == Count(es) && forall i :: 0 <= i < Count(es) ==> parents[i] == ParentAt(es, i)
  {
    parents := [];
    for i := 0 to Count(es)
      invariant |parents| == i
      invariant forall j :: 0 <= j < i ==> ParentFound(es, j) && parents[j] == ParentAt(es, j)
    {
      if i == 0 {
        parents := parents + [1];
      } else {
        var dir := Dirname(PathAt(es, i));
        if dir !in ids {
          assert !ParentFound(es, i);
          return false, parents;
        }
        parents := parents + [ids[dir]];
      }
    }
    return true, parents;
  }

  ghost function KeysUpTo(es: seq<Entry>, n: nat): set<(nat, Bytes)>
    requires n <= Count(es) && ParentsFound(es)
  {
    if n <= 1 then {} else KeysUpTo(es, n - 1) + {KeyAt(es, n - 1)}
  }

  lemma {:induction false} KeyListed(es: seq<Entry>, n: nat, i: nat)
    requires 0 < i < n <= Count(es) && ParentsFound(es)
    ensures KeyAt(es, i) in KeysUpTo(es, n)
  {
    hide KeyAt, ParentsFound;
    if i < n - 1 {
      KeyListed(es, n - 1, i);
    }
  }

  lemma {:induction false} KeyOrigin(es: seq<Entry>, n: nat, key: (nat, Bytes)) returns (i: nat)
    requires n <= Count(es) && ParentsFound(es) && key in KeysUpTo(es, n)
    ensures 0 < i < n && KeyAt(es, i) == key
  {
    hide KeyAt;
    if KeyAt(es, n - 1) == key {
      i := n - 1;
    } else {
      i := KeyOrigin(es, n - 1, key);
    }
  }

  lemma KeysExtend(es: seq<Entry>, n: nat)
    requires 0 < n < Count(es) && ParentsFound(es) && KeysUnique(es, n)
    ensures KeysUnique(es, n + 1) <==> KeyAt(es, n) !in KeysUpTo(es, n)
  {
    hide KeyAt;
    if KeyAt(es, n) in KeysUpTo(es, n) {
      var i := KeyOrigin(es, n, KeyAt(es, n));
    } else {
      forall i | 0 < i < n ensures KeyAt(es, i) != KeyAt(es, n) {
        KeyListed(es, n, i);
      }
    }
  }

  lemma KeysShrink(es: seq<Entry>, m: nat, n: nat)
    requires m <= n <= Count(es) && ParentsFound(es) && KeysUnique(es, n)
    ensures KeysUnique(es, m)
  {
  }

  method CheckDuplicates(es: seq<Entry>, parents: seq<nat>) returns (ok: bool)
    requires ParentsFound(es) && |parents| == Count(es)
    requires forall i :: 0 <= i < Count(es) ==> parents[i] == ParentAt(es, i)
    ensures ok <==> KeysUnique(es, Count(es))
  {
    hide KeysUnique, NameAt, ParentAt;
    var seen: set<(nat, Bytes)> := {};
    assert KeysUnique(es, 1) by {
      KeysTrivial(es);
    }
    for i := 1 to Count(es)
      invariant seen == KeysUpTo(es, i)
      invariant KeysUnique(es, i)
    {
      var key := (parents[i], NameAt(es, i));
      KeysExtend(es, i);
      if key in seen {
        if KeysUnique(es, Count(es)) {
          KeysShrink(es, i + 1, Count(es));
        }
        return false;
      }
      seen := seen + {key};
    }
    return true;
  }

  lemma KeysTrivial(es: seq<Entry>)
    requires ParentsFound(es)
    ensures KeysUnique(es, 1)
  {
  }

  method BuildStrings(es: seq<Entry>) returns (table: Bytes, offsets: seq<nat>)
    ensures table == StringTable(es)
    ensures |offsets| == Count(es) && forall i :: 0 <= i < Count(es) ==> offsets[i] == NameOffset(es, i)
  {
    hide NameAt;
    table := [0];
    offsets := [];
    for i := 0 to Count(es)
      invariant table == StringsUpTo(es, i)
      invariant |offsets| == i && forall j :: 0 <= j < i ==> offsets[j] == NameOffset(es, j)
    {
      if i == 0 {
        offsets := offsets + [0];
      } else {
        offsets := offsets + [|table|];
        table := table + NameAt(es, i) + [0];
      }
    }
    table := table + Zeros(AlignSector(|table|) - |table|);
  }

  method AssignData(es: seq<Entry>) returns (end: nat, offsets: seq<nat>)
    ensures end == ImageSize(es)
    ensures |offsets| == Count(es) && forall i :: 0 <= i < Count(es) ==> offsets[i] == DataOffset(es, i)
  {
    hide StringTable;
    end := DataStart(es);
    offsets := [];
    for i := 0 to Count(es)
      invariant end == DataStart(es) + |DataUpTo(es, i)|
      invariant |offsets| == i && forall j :: 0 <= j < i ==> offsets[j] == DataOffset(es, j)
    {
      if IsDirAt(es, i) {
        offsets := offsets + [0];
      } else {
        offsets := offsets + [end];
        end := end + AlignSector(|PayloadAt(es, i)|);
      }
    }
  }

  lemma DataNone(es: seq<Entry>)
    ensures DataUpTo(es, 0) == []
  {
  }

  lemma DataStep(es: seq<Entry>, i: nat)
    requires i < Count(es)
    ensures var p := PayloadAt(es, i);
            DataUpTo(es, i + 1) == if IsDirAt(es, i) then DataUpTo(es, i)
                                   else DataUpTo(es, i) + (p + Zeros(AlignSector(|p|) - |p|))
  {
  }

  method WritePayloads(es: seq<Entry>, before: Bytes) returns (out: Bytes)
    ensures out == before + DataUpTo(es, Count(es))
  {
    hide PayloadAt, AlignSector, DataUpTo;
    out := before;
    assert DataUpTo(es, 0) == [] by {
      DataNone(es);
    }
    for i := 0 to Count(es)
      invariant out == before + DataUpTo(es, i)
    {
      DataStep(es, i);
      if !IsDirAt(es, i) {
        var p := PayloadAt(es, i);
        var pad := AlignSector(|p|) - |p|;
        out := out + p;
        if pad > 0 {
          out := out + Zeros(pad);
        }
      }
    }
  }

  /** Packs the object table; a value too large for its field makes the packing fail. */
  method Serialise(es: seq<Entry>, parents: seq<nat>, names: seq<nat>, data: seq<nat>) returns (ok: bool, table: Bytes)
    requires ParentsFound(es) && |parents| == |names| == |data| == Count(es)
    requires forall i :: 0 <= i < Count(es) ==>
      parents[i] == ParentAt(es, i) && names[i] == NameOffset(es, i) && data[i] == DataOffset(es, i)
    ensures ok <==> forall i :: 0 <= i < Count(es) ==> RecordFits(RecordFor(es, i))
    ensures ok ==> table == TableUpTo(es, Count(es))
  {
    hide RecordFits, PackRecord, ParentAt, NameOffset, DataOffset, NameAt, PayloadAt, ModeAt, ParentFound;
    table := [];
    for i := 0 to Count(es)
      invariant table == TableUpTo(es, i)
      invariant forall j :: 0 <= j < i ==> RecordFits(RecordFor(es, j))
    {
      var r := Record(i + 1, parents[i], if IsDirAt(es, i) then TYPE_DIR else TYPE_REG, ModeAt(es, i), 0, 0,
                      names[i], |NameAt(es, i)|, data[i], |PayloadAt(es, i)|, 0, 0);
      assert r == RecordFor(es, i);
      if !RecordFits(r) {
        return false, table;
      }
      table := table + PackRecord(r);
    }
    return true, table;
  }

  datatype BuildResult = Failed | Built(image: Bytes)

  /** The build as a whole: it fails exactly when a name, a parent, a key or a field width does. */
  method BuildImage(discovered: seq<Entry>, crc: Crc) returns (r: BuildResult)
    ensures r.Built? <==> Buildable(SortByPath(discovered))
    ensures r.Built? ==> r.image == ImageOf(SortByPath(discovered), crc)
  {
    var es := SortByPath(discovered);
    var named, ids := AssignIds(es);
    if !named {
      return Failed;
    }
    var found, parents := AssignParents(es, ids);
    if !found {
      return Failed;
    }
    r := LayOut(es, parents, crc);
  }

  method LayOut(es: seq<Entry>, parents: seq<nat>, crc: Crc) returns (r: BuildResult)
    requires ParentsFound(es) && |parents| == Count(es)
    requires forall i :: 0 <= i < Count(es) ==> parents[i] == ParentAt(es, i)
    ensures r.Built? <==> KeysUnique(es, Count(es)) && FieldsFit(es)
    ensures r.Built? ==> r.image == ImageOf(es, crc)
  {
    hide KeysUnique, ParentsFound, ParentAt, NameOffset, DataOffset, RecordFor, RecordFits, SuperblockFits;
    hide StringTable, TableUpTo, DataUpTo, PackSuperblock;
    var unique := CheckDuplicates(es, parents);
    if !unique {
      return Failed;
    }
    var strings, names := BuildStrings(es);
    var end, data := AssignData(es);
    var ok, table := Serialise(es, parents, names, data);
    if !ok {
      return Failed;
    }
    var padded := table + Zeros(AlignSector(TableSize(es)) - TableSize(es));
    var start := SECTOR + |padded|;
    var sb := Superblock(MAGIC, VERSION, SECTOR, SECTOR, end, Count(es), 1, SECTOR, TableSize(es),
                         start, |strings|, start + |strings|, end - (start + |strings|), 0, 0);
    assert sb == SuperblockFor(es, 0);
    if !SuperblockFits(sb) {
      return Failed;
    }
    var c := MetadataCrc(crc, PackSuperblock(sb), table, strings);
    var image := WritePayloads(es, PackSuperblock(sb.(crc := c)) + padded + strings);
    assert sb.(crc := c) == SuperblockFor(es, c);
    return Built(image);
  }
}
