/** The backup GPT oracle, its parity with the primary map, and the layout both headers describe. */
module GptBackup {
  import opened Bytes
  import opened GptEntries
  import opened Wrappers

  const DISK_SECTORS: nat := 61071360

  function TableSectors(h: Header): nat {
    (h.count * h.entrySize + 511) / 512
  }

  predicate IsPowerOfTwo(n: nat) {
    n == 1 || (n > 1 && n % 2 == 0 && IsPowerOfTwo(n / 2))
  }

  /** The primary entry table lies between its header and the usable range. */
  predicate PrimaryGeometry(h: Header) {
    var last := h.entryLba + TableSectors(h) - 1;
    h.entrySize >= 128 && IsPowerOfTwo(h.entrySize) && h.entryLba >= 2 && last < h.first && last < DISK_SECTORS
  }

  // ----- the oracle's checks -----

  /** The header unpacks and carries the signature. */
  predicate Parses(b: Bytes) {
    ReadAt(b, 0, 8) == SIGNATURE && |b| >= 92
  }

  predicate Reciprocal(pri: Header, bak: Header) {
    && pri.myLba == 1 && pri.altLba == bak.myLba && bak.altLba == pri.myLba
    && pri.revision == bak.revision && pri.first == bak.first && pri.last == bak.last
    && pri.diskGuid == bak.diskGuid && pri.count == bak.count && pri.entrySize == bak.entrySize
    && pri.arrayCrc == bak.arrayCrc
  }

  /** The backup entry table lies between the usable range and its header. */
  predicate BackupGeometry(bak: Header) {
    bak.entryLba > bak.last && bak.entryLba + TableSectors(bak) - 1 < bak.myLba
  }

  predicate HeadersAgree(lba1: Bytes, backup: Bytes, crc: Crc) {
    && Parses(lba1) && Parses(backup) && HeaderCrc(backup, crc) == HeaderOf(backup).crc
    && Reciprocal(HeaderOf(lba1), HeaderOf(backup)) && BackupGeometry(HeaderOf(backup))
  }

  predicate TablesAgree(backup: Bytes, primaryTable: Bytes, backupTable: Bytes, crc: Crc) {
    var h := HeaderOf(backup);
    crc(ReadAt(backupTable, 0, h.count * h.entrySize)) == h.arrayCrc && primaryTable == backupTable
  }

  predicate AllZero(b: Bytes) {
    forall i :: 0 <= i < |b| ==> b[i] == 0
  }

  /** The backup map of the first `k` slots. */
  function ScanBackup(table: Bytes, size: nat, k: nat): Option<seq<Entry>> {
    if k == 0 then Some([])
    else
      match ScanBackup(table, size, k - 1)
      case None => None
      case Some(used) =>
        var b := Slot(table, size, k - 1);
        if AllZero(ReadAt(b, 0, 16)) then Some(used)
        else
          match ReadEntry(k - 1, b, false)
          case None => None
          case Some(e) => Some(used + [e])
  }

  lemma {:induction false} BackupStops(table: Bytes, size: nat, k: nat, n: nat)
    requires ScanBackup(table, size, k).None? && k <= n
    ensures ScanBackup(table, size, n).None?
    decreases n
  {
    hide ReadEntry, AllZero;
    if k < n {
      BackupStops(table, size, k, n - 1);
    }
  }

  method ParseBackupMap(table: Bytes, size: nat, count: nat) returns (r: Option<seq<Entry>>)
    ensures r == ScanBackup(table, size, count)
  {
    hide Int, ReadAt, Canonical, AllZero;
    var used, i := [], 0;
    while i < count
      invariant i <= count && ScanBackup(table, size, i) == Some(used)
    {
      var b := Slot(table, size, i);
      if !AllZero(ReadAt(b, 0, 16)) {
        var read := ReadEntry(i, b, false);
        if read.None? {
          BackupStops(table, size, i + 1, count);
          return None;
        }
        used := used + [read.value];
      }
      i := i + 1;
    }
    r := Some(used);
  }

  /** Compared keys in which two records differ. */
  function KeyDifferences(p: Entry, b: Entry): nat {
    One(p.slot != b.slot) + One(p.typeGuid != b.typeGuid) + One(p.uniqueGuid != b.uniqueGuid) +
    One(p.start != b.start) + One(p.end != b.end) + One(p.sectors != b.sectors) + One(p.sizeBytes != b.sizeBytes) +
    One(p.attributes != b.attributes) + One(p.nameRaw != b.nameRaw) + One(p.name != b.name)
  }

  function MapDifferences(p: seq<Entry>, b: seq<Entry>, k: nat): nat
    requires k <= |p| && k <= |b|
  {
    if k == 0 then 0 else MapDifferences(p, b, k - 1) + KeyDifferences(p[k - 1], b[k - 1])
  }

  lemma {:induction false} NoDifference(p: seq<Entry>, b: seq<Entry>, k: nat)
    requires k <= |p| && k <= |b|
    ensures MapDifferences(p, b, k) == 0 <==> forall i :: 0 <= i < k ==> p[i] == b[i]
  {
    if k > 0 {
      NoDifference(p, b, k - 1);
      assert KeyDifferences(p[k - 1], b[k - 1]) == 0 <==> p[k - 1] == b[k - 1];
    }
  }

  method CompareMaps(p: seq<Entry>, b: seq<Entry>) returns (same: bool)
    ensures same <==> p == b
  {
    hide KeyDifferences;
    if |p| != |b| {
      return false;
    }
    var i, diffs := 0, 0;
    while i < |b|
      invariant i <= |b| && diffs == MapDifferences(p, b, i)
    {
      diffs := diffs + KeyDifferences(p[i], b[i]);
      i := i + 1;
    }
    NoDifference(p, b, i);
    same := diffs == 0;
  }

  predicate BackupPasses(
    lba1: Bytes, backup: Bytes, primaryTable: Bytes, backupTable: Bytes, primaryMap: seq<Entry>, crc: Crc)
  {
    var h := HeaderOf(backup);
    && HeadersAgree(lba1, backup, crc) && TablesAgree(backup, primaryTable, backupTable, crc)
    && ScanBackup(backupTable, h.entrySize, h.count) == Some(primaryMap)
  }

  method BackupOracle(
    lba1: Bytes, backup: Bytes, primaryTable: Bytes, backupTable: Bytes, primaryMap: seq<Entry>, crc: Crc)
    returns (pass: bool)
    ensures pass <==> BackupPasses(lba1, backup, primaryTable, backupTable, primaryMap, crc)
  {
    hide Int, ReadAt, ScanBackup, HeaderOf, HeaderCrc;
    var pri, bak := HeaderOf(lba1), HeaderOf(backup);
    if !Parses(lba1) || !Parses(backup) || HeaderCrc(backup, crc) != bak.crc {
      return false;
    }
    if !Reciprocal(pri, bak) {
      return false;
    }
    var tableBytes := bak.count * bak.entrySize;
    var lastLba := bak.entryLba + (tableBytes + 511) / 512 - 1;
    if !(bak.entryLba > bak.last && lastLba < bak.myLba) {
      return false;
    }
    if crc(ReadAt(backupTable, 0, tableBytes)) != bak.arrayCrc || primaryTable != backupTable {
      return false;
    }
    var used := ParseBackupMap(backupTable, bak.entrySize, bak.count);
    if used.None? {
      return false;
    }
    pass := CompareMaps(primaryMap, used.value);
  }

  // ----- parity -----

  /** The backup record of a primary record: the size is never zeroed. */
  function Uncapped(e: Entry): Entry {
    e.(sizeBytes := e.sectors * 512)
  }

  predicate Uncaps(p: seq<Entry>, b: seq<Entry>) {
    |p| == |b| && forall i :: 0 <= i < |p| ==> b[i] == Uncapped(p[i])
  }

  lemma AllZeroIs(g: Bytes)
    requires |g| == 16
    ensures AllZero(g) == (g == Zeros(16))
  {
  }

  lemma SlotParity(i: nat, b: Bytes)
    requires !InUse(b) || ReadEntry(i, b, true).Some?
    ensures AllZero(ReadAt(b, 0, 16)) == !InUse(b)
    ensures InUse(b) ==> ReadEntry(i, b, false) == Some(Uncapped(ReadEntry(i, b, true).value))
  {
    hide Int, Canonical;
    if InUse(b) {
      AllZeroIs(ReadAt(b, 0, 16));
    }
  }

  /** The two oracles decode the same slots, and every overflowing size is one difference. */
  lemma {:induction false} ScanParity(table: Bytes, h: Header, k: nat)
    requires Scan(table, h, k).Some?
    ensures ScanBackup(table, h.entrySize, k).Some?
    ensures var t, used := Scan(table, h, k).value, ScanBackup(table, h.entrySize, k).value;
            && Uncaps(t.used, used) && MapDifferences(t.used, used, |used|) == t.overflows
  {
    hide ReadEntry, InUse, Slot, AllZero, Uncapped, KeyDifferences;
    if k > 0 {
      ScanParity(table, h, k - 1);
      var t, b, u := Scan(table, h, k - 1).value, Slot(table, h.entrySize, k - 1), ScanBackup(table, h.entrySize, k - 1).value;
      SlotParity(k - 1, b);
      if InUse(b) {
        var e := ReadEntry(k - 1, b, true).value;
        OneDifference(k - 1, b);
        DifferencesGrow(t.used, u, e, Uncapped(e), |u|);
      }
    }
  }

  lemma OneDifference(i: nat, b: Bytes)
    requires ReadEntry(i, b, true).Some?
    ensures var e := ReadEntry(i, b, true).value; KeyDifferences(e, Uncapped(e)) == One(Overflows(e))
  {
    hide Int, ReadAt, Canonical;
  }

  lemma {:induction false} DifferencesGrow(p: seq<Entry>, b: seq<Entry>, e: Entry, f: Entry, k: nat)
    requires |p| == |b| && k <= |p|
    ensures MapDifferences(p + [e], b + [f], k) == MapDifferences(p, b, k)
    ensures MapDifferences(p + [e], b + [f], |p| + 1) ==
            MapDifferences(p + [e], b + [f], |p|) + KeyDifferences(e, f)
  {
    hide KeyDifferences;
    if k > 0 {
      DifferencesGrow(p, b, e, f, k - 1);
    }
  }

  /**
   * After the primary oracle has passed, the backup oracle passes on an identical table
   * exactly when no partition's byte size overflows 64 bits.
   */
  lemma Parity(lba1: Bytes, backup: Bytes, table: Bytes, crc: Crc)
    requires Passes(lba1, table, crc)
    requires HeadersAgree(lba1, backup, crc)
    ensures var t := Scan(table, HeaderOf(lba1), HeaderOf(lba1).count).value;
            BackupPasses(lba1, backup, table, table, t.used, crc) <==> t.overflows == 0
  {
    hide Int, Scan, ScanBackup, HeaderOf, Sound, HeaderCrc, BackupGeometry, Parses;
    var h, bak := HeaderOf(lba1), HeaderOf(backup);
    var t := Scan(table, h, h.count).value;
    ScanParity(table, h, h.count);
    var used := ScanBackup(table, h.entrySize, h.count).value;
    NoDifference(t.used, used, |used|);
    assert t.used == used <==> forall i :: 0 <= i < |used| ==> t.used[i] == used[i];
    assert ReadAt(table, 0, bak.count * bak.entrySize) == table;
  }

  // ----- layout -----

  /** Sector `p` holds one of the two headers or one of the two entry tables. */
  predicate Reserved(pri: Header, bak: Header, p: nat) {
    || p == pri.myLba || pri.entryLba <= p < pri.entryLba + TableSectors(pri)
    || bak.entryLba <= p < bak.entryLba + TableSectors(bak) || p == bak.myLba
  }

  /** Accepted headers: no usable sector is reserved. */
  lemma UsableIsFree(pri: Header, bak: Header, p: nat)
    requires PrimaryGeometry(pri) && Reciprocal(pri, bak) && BackupGeometry(bak)
    requires pri.first <= p <= pri.last
    ensures !Reserved(pri, bak, p)
    ensures pri.myLba < pri.entryLba && pri.entryLba + TableSectors(pri) <= p < bak.entryLba
    ensures bak.entryLba + TableSectors(bak) <= bak.myLba
  {
  }

  /** All three oracles passing: every sector of every used partition is free of GPT structures. */
  lemma Separation(lba1: Bytes, backup: Bytes, table: Bytes, crc: Crc, i: nat, p: nat)
    requires Passes(lba1, table, crc) && HeadersAgree(lba1, backup, crc) && PrimaryGeometry(HeaderOf(lba1))
    requires var used := Scan(table, HeaderOf(lba1), HeaderOf(lba1).count).value.used;
             i < |used| && used[i].start <= p <= used[i].end
    ensures !Reserved(HeaderOf(lba1), HeaderOf(backup), p)
  {
    hide Int, Scan, HeaderOf, HeaderOk, HeaderCrc, GuidsSet, GuidsDistinct, Parses, PrimaryGeometry, BackupGeometry,
         Reciprocal, Reserved;
    var h := HeaderOf(lba1);
    assert ExtentOk(Scan(table, h, h.count).value.used[i], h.first, h.last);
    UsableIsFree(h, HeaderOf(backup), p);
  }
}
