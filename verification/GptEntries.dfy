/** The primary GPT oracle: header, entry slots, and the structural audit of the used partitions. */
module GptEntries {
  import opened Bytes
  import opened Wrappers

  /** `zlib.crc32`; nothing below depends on which checksum it is. */
  type Crc = Bytes -> nat

  const SIGNATURE: Bytes := [0x45, 0x46, 0x49, 0x20, 0x50, 0x41, 0x52, 0x54]
  const MAX_SECTORS: nat := 0xFFFF_FFFF_FFFF_FFFF / 512

  datatype Header = Header(
    revision: nat, size: nat, crc: nat, myLba: nat, altLba: nat, first: nat, last: nat,
    diskGuid: Bytes, entryLba: nat, count: nat, entrySize: nat, arrayCrc: nat)

  function HeaderOf(b: Bytes): Header {
    Header(Int(b, 8, 4), Int(b, 12, 4), Int(b, 16, 4), Int(b, 24, 8), Int(b, 32, 8), Int(b, 40, 8), Int(b, 48, 8),
           ReadAt(b, 56, 16), Int(b, 72, 8), Int(b, 80, 4), Int(b, 84, 4), Int(b, 88, 4))
  }

  /** The checksum of the header with its own checksum field zeroed. */
  function HeaderCrc(b: Bytes, crc: Crc): nat {
    crc(SliceAssign(ReadAt(b, 0, HeaderOf(b).size), 16, 4, Zeros(4)))
  }

  // ----- names -----

  function HexDigit(n: nat): char
    requires n < 16
  {
    "0123456789abcdef"[n]
  }

  function Escape(u: nat): string {
    ['\\', 'u', HexDigit(u / 4096 % 16), HexDigit(u / 256 % 16), HexDigit(u / 16 % 16), HexDigit(u % 16)]
  }

  function Shown(u: nat): string {
    if 0x20 <= u <= 0x7e then [u as char] else Escape(u)
  }

  /** A UTF-16 name up to its NUL; an odd byte at the end does not unpack. */
  function Canonical(name: Bytes): Option<string> {
    if name == [] then Some("")
    else if |name| == 1 then None
    else if Int(name, 0, 2) == 0 then Some("")
    else
      match Canonical(name[2..])
      case None => None
      case Some(rest) => Some(Shown(Int(name, 0, 2)) + rest)
  }

  method DecodeName(name: Bytes) returns (r: Option<string>)
    ensures r == Canonical(name)
  {
    hide Int, Shown;
    var out, i := "", 0;
    assert name[0..] == name;
    ghost var all := Canonical(name);
    assert all.Some? ==> "" + all.value == all.value;
    while i < |name|
      invariant i <= |name|
      invariant Canonical(name) ==
                match Canonical(name[i..]) case None => None case Some(rest) => Some(out + rest)
    {
      if i + 1 == |name| {
        return None;
      }
      var u := Int(name[i..], 0, 2);
      if u == 0 {
        assert out + "" == out;
        return Some(out);
      }
      assert name[i..][2..] == name[i + 2..];
      ghost var tail := Canonical(name[i + 2..]);
      assert tail.Some? ==> out + (Shown(u) + tail.value) == out + Shown(u) + tail.value;
      out, i := out + Shown(u), i + 2;
    }
    assert name[i..] == [] && out + "" == out;
    r := Some(out);
  }

  // ----- entries -----

  datatype Entry = Entry(
    slot: nat, typeGuid: Bytes, uniqueGuid: Bytes, start: nat, end: nat,
    sectors: nat, sizeBytes: nat, attributes: nat, nameRaw: Bytes, name: string)

  function Slot(table: Bytes, size: nat, i: nat): Bytes {
    ReadAt(table, i * size, size)
  }

  function SectorCount(start: nat, end: nat): nat {
    if end >= start then end - start + 1 else 0
  }

  predicate Overflows(e: Entry) {
    e.sectors > MAX_SECTORS
  }

  /** The record of slot bytes `b`; `capped` is the primary oracle's size rule. */
  function ReadEntry(i: nat, b: Bytes, capped: bool): Option<Entry> {
    var n := SectorCount(Int(b, 32, 8), Int(b, 40, 8));
    if |b| < 56 then None
    else
      match Canonical(ReadAt(b, 56, 72))
      case None => None
      case Some(name) =>
        Some(Entry(i, ReadAt(b, 0, 16), ReadAt(b, 16, 16), Int(b, 32, 8), Int(b, 40, 8), n,
                   if capped && n > MAX_SECTORS then 0 else n * 512, Int(b, 48, 8), ReadAt(b, 56, 72), name))
  }

  predicate InUse(b: Bytes) {
    ReadAt(b, 0, 16) != Zeros(16)
  }

  predicate ExtentOk(e: Entry, first: nat, last: nat) {
    e.start <= e.end && e.start >= first && e.end <= last
  }

  predicate Overlap(a: Entry, b: Entry) {
    a.start <= b.end && b.start <= a.end
  }

  /** What the slot loop has found so far. */
  datatype Tally = Tally(used: seq<Entry>, unused: nat, zeroGuids: nat, duplicates: nat, badExtents: nat, overflows: nat)

  predicate Seen(used: seq<Entry>, guid: Bytes) {
    exists j :: 0 <= j < |used| && used[j].uniqueGuid == guid
  }

  function One(b: bool): nat {
    if b then 1 else 0
  }

  function Count(t: Tally, e: Entry, first: nat, last: nat): Tally {
    Tally(t.used + [e], t.unused, t.zeroGuids + One(e.uniqueGuid == Zeros(16)),
          t.duplicates + One(Seen(t.used, e.uniqueGuid)), t.badExtents + One(!ExtentOk(e, first, last)),
          t.overflows + One(Overflows(e)))
  }

  function Scan(table: Bytes, h: Header, k: nat): Option<Tally> {
    if k == 0 then Some(Tally([], 0, 0, 0, 0, 0))
    else
      match Scan(table, h, k - 1)
      case None => None
      case Some(t) =>
        var b := Slot(table, h.entrySize, k - 1);
        if !InUse(b) then Some(t.(unused := t.unused + 1))
        else
          match ReadEntry(k - 1, b, true)
          case None => None
          case Some(e) => Some(Count(t, e, h.first, h.last))
  }

  lemma {:induction false} ScanStops(table: Bytes, h: Header, k: nat, n: nat)
    requires Scan(table, h, k).None? && k <= n
    ensures Scan(table, h, n).None?
    decreases n
  {
    hide ReadEntry, InUse, Count;
    if k < n {
      ScanStops(table, h, k, n - 1);
    }
  }

  method ScanSlots(table: Bytes, h: Header) returns (r: Option<Tally>)
    ensures r == Scan(table, h, h.count)
  {
    hide Int, ReadAt, Canonical;
    var t, guids: set<Bytes>, i := Tally([], 0, 0, 0, 0, 0), {}, 0;
    while i < h.count
      invariant i <= h.count && Scan(table, h, i) == Some(t)
      invariant forall g :: g in guids <==> Seen(t.used, g)
    {
      var b := Slot(table, h.entrySize, i);
      if !InUse(b) {
        t := t.(unused := t.unused + 1);
      } else {
        var read := ReadEntry(i, b, true);
        if read.None? {
          ScanStops(table, h, i + 1, h.count);
          return None;
        }
        var e := read.value;
        var zero, dup := One(e.uniqueGuid == Zeros(16)), One(e.uniqueGuid in guids);
        GuidAdded(t.used, e, guids);
        guids := guids + {e.uniqueGuid};
        t := Tally(t.used + [e], t.unused, t.zeroGuids + zero, t.duplicates + dup,
                   t.badExtents + One(!ExtentOk(e, h.first, h.last)), t.overflows + One(Overflows(e)));
      }
      i := i + 1;
    }
    r := Some(t);
  }

  lemma GuidAdded(used: seq<Entry>, e: Entry, guids: set<Bytes>)
    requires forall g :: g in guids <==> Seen(used, g)
    ensures forall g :: g in guids + {e.uniqueGuid} <==> Seen(used + [e], g)
  {
    var more := used + [e];
    forall g ensures Seen(more, g) <==> Seen(used, g) || g == e.uniqueGuid {
      if Seen(used, g) {
        var j :| 0 <= j < |used| && used[j].uniqueGuid == g;
        assert more[j].uniqueGuid == g;
      }
      assert more[|used|].uniqueGuid == e.uniqueGuid;
      if Seen(more, g) && g != e.uniqueGuid {
        var j :| 0 <= j < |more| && more[j].uniqueGuid == g;
        assert used[j].uniqueGuid == g;
      }
    }
  }

  // ----- overlaps -----

  /** The overlapping pairs of `used[i]` with entries from `j` on. */
  function Row(used: seq<Entry>, i: nat, j: nat): seq<(nat, nat)>
    requires i < |used| && j <= |used|
    decreases |used| - j
  {
    if j == |used| then []
    else (if Overlap(used[i], used[j]) then [(used[i].slot, used[j].slot)] else []) + Row(used, i, j + 1)
  }

  function Rows(used: seq<Entry>, i: nat): seq<(nat, nat)>
    requires i <= |used|
    decreases |used| - i
  {
    if i == |used| then [] else Row(used, i, i + 1) + Rows(used, i + 1)
  }

  method AuditOverlaps(used: seq<Entry>) returns (pairs: seq<(nat, nat)>)
    ensures pairs == Rows(used, 0)
  {
    hide Overlap;
    pairs := [];
    var i := 0;
    while i < |used|
      invariant i <= |used| && pairs + Rows(used, i) == Rows(used, 0)
    {
      var j := i + 1;
      while j < |used|
        invariant i < j <= |used| && pairs + (Row(used, i, j) + Rows(used, i + 1)) == Rows(used, 0)
      {
        ghost var before, rest := pairs, Row(used, i, j + 1);
        if Overlap(used[i], used[j]) {
          pairs := pairs + [(used[i].slot, used[j].slot)];
          assert before + (([(used[i].slot, used[j].slot)] + rest) + Rows(used, i + 1)) == pairs + (rest + Rows(used, i + 1));
        } else {
          assert [] + rest == rest;
        }
        j := j + 1;
      }
      assert [] + Rows(used, i + 1) == Rows(used, i + 1);
      i := i + 1;
    }
    assert pairs + [] == pairs;
  }

  predicate Apart(used: seq<Entry>) {
    forall i, j :: 0 <= i < j < |used| ==> !Overlap(used[i], used[j])
  }

  lemma {:induction false} RowEmpty(used: seq<Entry>, i: nat, j: nat)
    requires i < |used| && j <= |used|
    ensures Row(used, i, j) == [] <==> forall k :: j <= k < |used| ==> !Overlap(used[i], used[k])
    decreases |used| - j
  {
    hide Overlap;
    if j < |used| {
      RowEmpty(used, i, j + 1);
    }
  }

  lemma {:induction false} RowsEmpty(used: seq<Entry>, i: nat)
    requires i <= |used|
    ensures Rows(used, i) == [] <==> forall j, k :: i <= j < k < |used| ==> !Overlap(used[j], used[k])
    decreases |used| - i
  {
    hide Overlap;
    if i < |used| {
      RowEmpty(used, i, i + 1);
      RowsEmpty(used, i + 1);
    }
  }

  // ----- what the counters mean -----

  predicate GuidsSet(used: seq<Entry>) {
    forall i :: 0 <= i < |used| ==> used[i].uniqueGuid != Zeros(16)
  }

  predicate GuidsDistinct(used: seq<Entry>) {
    forall i, j :: 0 <= i < j < |used| ==> used[i].uniqueGuid != used[j].uniqueGuid
  }

  predicate ExtentsOk(used: seq<Entry>, first: nat, last: nat) {
    forall i :: 0 <= i < |used| ==> ExtentOk(used[i], first, last)
  }

  /** The slots in use below `k`. */
  function UsedSlots(table: Bytes, size: nat, k: nat): seq<nat> {
    if k == 0 then []
    else UsedSlots(table, size, k - 1) + if InUse(Slot(table, size, k - 1)) then [k - 1] else []
  }

  function SlotsOf(used: seq<Entry>): (s: seq<nat>)
    ensures |s| == |used| && forall i :: 0 <= i < |s| ==> s[i] == used[i].slot
  {
    seq(|used|, i requires 0 <= i < |used| => used[i].slot)
  }

  predicate Tallied(t: Tally, h: Header) {
    && (t.zeroGuids == 0 <==> GuidsSet(t.used))
    && (t.duplicates == 0 <==> GuidsDistinct(t.used))
    && (t.badExtents == 0 <==> ExtentsOk(t.used, h.first, h.last))
    && (t.overflows == 0 <==> forall i :: 0 <= i < |t.used| ==> !Overflows(t.used[i]))
  }

  lemma CountTallied(t: Tally, e: Entry, h: Header)
    requires Tallied(t, h)
    ensures Tallied(Count(t, e, h.first, h.last), h)
  {
    hide ExtentOk, Overflows;
    var u := t.used + [e];
    assert u[|t.used|] == e && forall i :: 0 <= i < |t.used| ==> u[i] == t.used[i];
    assert GuidsSet(u) <==> GuidsSet(t.used) && e.uniqueGuid != Zeros(16);
    assert ExtentsOk(u, h.first, h.last) <==> ExtentsOk(t.used, h.first, h.last) && ExtentOk(e, h.first, h.last);
    assert GuidsDistinct(u) <==> GuidsDistinct(t.used) && !Seen(t.used, e.uniqueGuid);
  }

  /** Entry `e` is what its slot of the table holds. */
  predicate Faithful(e: Entry, table: Bytes, size: nat, capped: bool) {
    InUse(Slot(table, size, e.slot)) && ReadEntry(e.slot, Slot(table, size, e.slot), capped) == Some(e)
  }

  lemma {:induction false} ScanMeans(table: Bytes, h: Header, k: nat)
    requires Scan(table, h, k).Some?
    ensures var t := Scan(table, h, k).value;
            && Tallied(t, h) && |t.used| + t.unused == k && SlotsOf(t.used) == UsedSlots(table, h.entrySize, k)
            && forall i :: 0 <= i < |t.used| ==> Faithful(t.used[i], table, h.entrySize, true)
  {
    hide ReadEntry, InUse, Slot, Count, Tallied;
    if k == 0 {
      EmptyTallied(h);
    } else {
      ScanMeans(table, h, k - 1);
      var t, b := Scan(table, h, k - 1).value, Slot(table, h.entrySize, k - 1);
      if !InUse(b) {
        UnusedTallied(t, h);
      } else {
        var e := ReadEntry(k - 1, b, true).value;
        EntrySlot(k - 1, b, true);
        CountTallied(t, e, h);
        CountUses(t, e, h);
        assert SlotsOf(t.used + [e]) == SlotsOf(t.used) + [e.slot];
      }
    }
  }

  lemma EmptyTallied(h: Header)
    ensures Tallied(Tally([], 0, 0, 0, 0, 0), h)
  {
  }

  lemma UnusedTallied(t: Tally, h: Header)
    requires Tallied(t, h)
    ensures Tallied(t.(unused := t.unused + 1), h)
  {
    hide GuidsSet, GuidsDistinct, ExtentsOk, Overflows;
  }

  lemma CountUses(t: Tally, e: Entry, h: Header)
    ensures Count(t, e, h.first, h.last).used == t.used + [e] && Count(t, e, h.first, h.last).unused == t.unused
  {
  }

  lemma EntrySlot(i: nat, b: Bytes, capped: bool)
    requires ReadEntry(i, b, capped).Some?
    ensures ReadEntry(i, b, capped).value.slot == i
  {
  }

  // ----- the oracle -----

  predicate HeaderOk(lba1: Bytes, table: Bytes, crc: Crc) {
    && |lba1| == 512 && ReadAt(lba1, 0, 8) == SIGNATURE
    && HeaderCrc(lba1, crc) == HeaderOf(lba1).crc
    && |table| == HeaderOf(lba1).count * HeaderOf(lba1).entrySize
    && crc(table) == HeaderOf(lba1).arrayCrc
  }

  /** What the audit certifies of the used partitions. */
  predicate Sound(used: seq<Entry>, first: nat, last: nat) {
    GuidsSet(used) && GuidsDistinct(used) && ExtentsOk(used, first, last) && Apart(used)
  }

  predicate Passes(lba1: Bytes, table: Bytes, crc: Crc) {
    var h := HeaderOf(lba1);
    && HeaderOk(lba1, table, crc)
    && Scan(table, h, h.count).Some?
    && Sound(Scan(table, h, h.count).value.used, h.first, h.last)
  }

  /** The oracle passes exactly on sound partition maps and then reports the map; overflow is not gated. */
  method EntriesOracle(lba1: Bytes, table: Bytes, crc: Crc) returns (r: Option<Tally>)
    ensures r.Some? <==> Passes(lba1, table, crc)
    ensures r.Some? ==> r == Scan(table, HeaderOf(lba1), HeaderOf(lba1).count)
  {
    hide Int, ReadAt, Scan, Rows, GuidsSet, GuidsDistinct, ExtentsOk, HeaderOf, SliceAssign;
    var h := HeaderOf(lba1);
    if |lba1| != 512 || ReadAt(lba1, 0, 8) != SIGNATURE {
      return None;
    }
    if HeaderCrc(lba1, crc) != h.crc || |table| != h.count * h.entrySize || crc(table) != h.arrayCrc {
      return None;
    }
    var scan := ScanSlots(table, h);
    if scan.None? {
      return None;
    }
    var t := scan.value;
    var pairs := AuditOverlaps(t.used);
    ScanMeans(table, h, h.count);
    RowsEmpty(t.used, 0);
    if t.zeroGuids != 0 || t.duplicates != 0 || t.badExtents != 0 || |pairs| != 0 {
      return None;
    }
    r := scan;
  }

  // ----- packing -----

  function TotalSectors(used: seq<Entry>): nat {
    if used == [] then 0 else TotalSectors(used[..|used| - 1]) + used[|used| - 1].sectors
  }

  predicate Between(a: nat, p: nat, b: nat) {
    a <= p <= b
  }

  function Range(a: nat, b: nat): set<nat> {
    set p: nat | a <= p <= b && Between(a, p, b)
  }

  lemma {:induction false} RangeSize(a: nat, b: nat)
    requires a <= b + 1
    ensures |Range(a, b)| == b + 1 - a
    decreases b + 1 - a
  {
    if a == b + 1 {
      assert Range(a, b) == {};
    } else {
      RangeSize(a + 1, b);
      assert Range(a, b) == {a} + Range(a + 1, b);
    }
  }

  /** Some used entry holds sector `p`. */
  predicate Taken(used: seq<Entry>, p: nat) {
    exists i :: 0 <= i < |used| && used[i].start <= p <= used[i].end
  }

  ghost function TakenSet(used: seq<Entry>, first: nat, last: nat): set<nat> {
    set p: nat | first <= p <= last && Taken(used, p)
  }

  lemma TakenSplits(used: seq<Entry>, first: nat, last: nat)
    requires used != [] && ExtentsOk(used, first, last) && Apart(used)
    ensures var n := |used| - 1;
            && TakenSet(used, first, last) == TakenSet(used[..n], first, last) + Range(used[n].start, used[n].end)
            && TakenSet(used[..n], first, last) !! Range(used[n].start, used[n].end)
  {
    var n := |used| - 1;
    var less, e := used[..n], used[n];
    forall p: nat | first <= p <= last ensures Taken(used, p) <==> Taken(less, p) || e.start <= p <= e.end {
      if Taken(less, p) {
        var i :| 0 <= i < |less| && less[i].start <= p <= less[i].end;
        assert used[i].start <= p <= used[i].end;
      }
      if Taken(used, p) && !(e.start <= p <= e.end) {
        var i :| 0 <= i < |used| && used[i].start <= p <= used[i].end;
        assert less[i].start <= p <= less[i].end;
      }
    }
    forall p: nat | Taken(less, p) ensures !(e.start <= p <= e.end) {
      var i :| 0 <= i < |less| && less[i].start <= p <= less[i].end;
      assert !Overlap(used[i], used[n]);
    }
    assert ExtentOk(e, first, last);
  }

  predicate SectorsRight(used: seq<Entry>) {
    forall i :: 0 <= i < |used| ==> used[i].sectors == SectorCount(used[i].start, used[i].end)
  }

  /** Disjoint extents: the sector counts add up to the sectors taken. */
  lemma {:induction false} SectorsAddUp(used: seq<Entry>, first: nat, last: nat)
    requires ExtentsOk(used, first, last) && Apart(used) && SectorsRight(used)
    ensures TotalSectors(used) == |TakenSet(used, first, last)|
  {
    if used == [] {
      assert TakenSet(used, first, last) == {};
    } else {
      var n := |used| - 1;
      var less, e := used[..n], used[n];
      assert forall i :: 0 <= i < n ==> less[i] == used[i];
      SectorsAddUp(less, first, last);
      TakenSplits(used, first, last);
      assert ExtentOk(e, first, last);
      RangeSize(e.start, e.end);
    }
  }

  lemma SubsetSize<T>(a: set<T>, b: set<T>)
    requires a <= b
    ensures |a| <= |b|
  {
    assert b == a + (b - a);
  }

  /** A map the oracle accepts never hands out more sectors than the usable range has. */
  lemma Packing(lba1: Bytes, table: Bytes, crc: Crc)
    requires Passes(lba1, table, crc)
    ensures var h := HeaderOf(lba1);
            var used := Scan(table, h, h.count).value.used;
            used != [] ==> h.first <= h.last && TotalSectors(used) <= h.last - h.first + 1
  {
    hide Int, ReadAt, Scan, HeaderOk, HeaderOf, GuidsSet, GuidsDistinct;
    var h := HeaderOf(lba1);
    var used := Scan(table, h, h.count).value.used;
    ScanMeans(table, h, h.count);
    if used != [] {
      assert ExtentOk(used[0], h.first, h.last);
      forall i | 0 <= i < |used| ensures used[i].sectors == SectorCount(used[i].start, used[i].end) {
        assert Faithful(used[i], table, h.entrySize, true);
        FaithfulSectors(used[i], table, h.entrySize, true);
      }
      SectorsAddUp(used, h.first, h.last);
      RangeSize(h.first, h.last);
      SubsetSize(TakenSet(used, h.first, h.last), Range(h.first, h.last));
    }
  }

  lemma FaithfulSectors(e: Entry, table: Bytes, size: nat, capped: bool)
    requires Faithful(e, table, size, capped)
    ensures e.sectors == SectorCount(e.start, e.end)
    ensures e.sizeBytes == if capped && Overflows(e) then 0 else e.sectors * 512
  {
    hide Int, ReadAt, Canonical;
  }
}
