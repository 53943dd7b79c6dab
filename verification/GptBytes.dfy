/** Both GPT oracles restated on the bytes of the headers and of the entry table. */
module GptBytes {
  import opened Bytes
  import opened GptBackup
  import opened GptEntries
  import opened Wrappers

  // ----- slots -----

  function Min(a: nat, b: nat): nat {
    if a <= b then a else b
  }

  /** Where the bytes of slot `i` end: the table may stop inside it. */
  function SlotEnd(table: Bytes, size: nat, i: nat): nat {
    Min(i * size + size, |table|)
  }

  predicate NonZero(table: Bytes, p: nat, end: nat) {
    p < end && p < |table| && table[p] != 0
  }

  /** One of the type bytes of slot `i` is set. */
  ghost predicate TypeSet(table: Bytes, size: nat, i: nat) {
    exists p :: i * size <= p < i * size + 16 && NonZero(table, p, SlotEnd(table, size, i))
  }

  // ----- names -----

  function Unit(name: Bytes, k: nat): nat
    requires 2 * k + 1 < |name|
  {
    var low: nat, high: nat := name[2 * k], name[2 * k + 1];
    low + 256 * high
  }

  /** A name has `n` units: no NUL among them, then a NUL or the end. */
  predicate HasUnits(name: Bytes, n: nat) {
    && 2 * n <= |name| && (forall k :: 0 <= k < n ==> Unit(name, k) != 0)
    && (2 * n == |name| || (2 * n + 1 < |name| && Unit(name, n) == 0))
  }

  ghost predicate Decodable(name: Bytes) {
    exists n :: HasUnits(name, n)
  }

  function Text(name: Bytes, n: nat): string
    requires 2 * n <= |name|
  {
    if n == 0 then "" else Text(name, n - 1) + Shown(Unit(name, n - 1))
  }

  function DigitOf(c: char): nat {
    if '0' <= c <= '9' then c as nat - '0' as nat else if 'a' <= c <= 'f' then c as nat - 'a' as nat + 10 else 16
  }

  /** A printable unit is shown as itself, any other as four hexadecimal digits of its value. */
  lemma ShownMeans(u: nat)
    requires u < 0x1_0000
    ensures var t := Shown(u);
            if 0x20 <= u <= 0x7e then |t| == 1 && t[0] as nat == u
            else && |t| == 6 && t[..2] == ['\\', 'u']
                 && u == 4096 * DigitOf(t[2]) + 256 * DigitOf(t[3]) + 16 * DigitOf(t[4]) + DigitOf(t[5])
                 && DigitOf(t[2]) < 16 && DigitOf(t[3]) < 16 && DigitOf(t[4]) < 16 && DigitOf(t[5]) < 16
  {
    hide HexDigit, DigitOf;
    HexSplit(u);
    DigitBack(u / 4096 % 16);
    DigitBack(u / 256 % 16);
    DigitBack(u / 16 % 16);
    DigitBack(u % 16);
  }

  lemma HexSplit(u: nat)
    requires u < 0x1_0000
    ensures u == 4096 * (u / 4096 % 16) + 256 * (u / 256 % 16) + 16 * (u / 16 % 16) + u % 16
  {
    assert u / 256 == u / 16 / 16 && u / 4096 == u / 16 / 16 / 16;
  }

  lemma DigitBack(d: nat)
    requires d < 16
    ensures DigitOf(HexDigit(d)) == d
  {
  }

  lemma FirstUnit(name: Bytes)
    requires |name| >= 2
    ensures Int(name, 0, 2) == Unit(name, 0)
  {
    var two := ReadAt(name, 0, 2);
    assert two[0] == name[0] && two[1..] == [name[1]];
    assert FromLE(two[1..]) == name[1] + 256 * FromLE([]);
  }

  lemma {:induction false} TextFront(name: Bytes, n: nat)
    requires 0 < n && 2 * n <= |name|
    ensures Text(name, n) == Shown(Unit(name, 0)) + Text(name[2..], n - 1)
  {
    hide Shown;
    if n > 1 {
      TextFront(name, n - 1);
    }
  }

  lemma UnitsFront(name: Bytes, n: nat)
    requires |name| >= 2 && Unit(name, 0) != 0
    ensures HasUnits(name, n + 1) <==> HasUnits(name[2..], n)
  {
    assert forall k :: 0 <= k && 2 * k + 3 < |name| ==> Unit(name[2..], k) == Unit(name, k + 1);
    if HasUnits(name[2..], n) {
      forall k | 0 <= k < n + 1 ensures Unit(name, k) != 0 {
        if k > 0 {
          assert Unit(name[2..], k - 1) != 0;
        }
      }
    }
    if HasUnits(name, n + 1) {
      forall k | 0 <= k < n ensures Unit(name[2..], k) != 0 {
        assert Unit(name, k + 1) != 0;
      }
    }
  }

  /** The decoder shows the units up to the first NUL. */
  lemma {:induction false} CanonicalText(name: Bytes, n: nat)
    requires HasUnits(name, n)
    ensures Canonical(name) == Some(Text(name, n))
    decreases |name|
  {
    hide Shown, Int;
    if name != [] {
      FirstUnit(name);
      if n > 0 {
        assert Unit(name, 0) != 0;
        UnitsFront(name, n - 1);
        CanonicalText(name[2..], n - 1);
        TextFront(name, n);
      }
    }
  }

  lemma {:induction false} CanonicalUnits(name: Bytes)
    requires Canonical(name).Some?
    ensures Decodable(name)
  {
    hide Shown, Int;
    if name == [] {
      assert HasUnits(name, 0);
    } else {
      FirstUnit(name);
      if Unit(name, 0) == 0 {
        assert HasUnits(name, 0);
      } else {
        CanonicalUnits(name[2..]);
        var n: nat :| HasUnits(name[2..], n);
        UnitsFront(name, n);
        assert HasUnits(name, n + 1);
      }
    }
  }

  lemma DecodableIff(name: Bytes)
    ensures Canonical(name).Some? <==> Decodable(name)
    ensures forall t :: Canonical(name) == Some(t) <==> Renders(name, t)
  {
    hide Canonical;
    if Canonical(name).Some? {
      CanonicalUnits(name);
    }
    if Decodable(name) {
      forall n: nat | HasUnits(name, n) ensures Canonical(name) == Some(Text(name, n)) {
        CanonicalText(name, n);
      }
    }
  }

  /** `t` shows the units of `name` before its first NUL. */
  ghost predicate Renders(name: Bytes, t: string) {
    exists n :: HasUnits(name, n) && t == Text(name, n)
  }

  // ----- one entry -----

  /** Entry `e` holds the bytes at 0, 16, 32, 40, 48 and 56 of its slot. */
  ghost predicate EntryBytes(e: Entry, table: Bytes, size: nat, capped: bool) {
    var at, end := e.slot * size, SlotEnd(table, size, e.slot);
    && at + 56 <= end
    && e.typeGuid == table[at..at + 16]
    && e.uniqueGuid == table[at + 16..at + 32]
    && e.start == FromLE(table[at + 32..at + 40])
    && e.end == FromLE(table[at + 40..at + 48])
    && e.attributes == FromLE(table[at + 48..at + 56])
    && e.nameRaw == table[at + 56..Min(at + 128, end)]
    && Renders(e.nameRaw, e.name)
    && e.sectors == (if e.end >= e.start then e.end - e.start + 1 else 0)
    && e.sizeBytes == if capped && e.sectors > 0x7F_FFFF_FFFF_FFFF then 0 else e.sectors * 512
  }

  ghost predicate SlotDecodes(table: Bytes, size: nat, i: nat) {
    var at, end := i * size, SlotEnd(table, size, i);
    at + 56 <= end && Decodable(table[at + 56..Min(at + 128, end)])
  }

  lemma SlotSlice(table: Bytes, size: nat, i: nat, o: nat, n: nat)
    ensures i * size + o <= SlotEnd(table, size, i) ==>
      ReadAt(Slot(table, size, i), o, n) ==
      table[i * size + o..Min(i * size + o + n, SlotEnd(table, size, i))]
    ensures i * size <= |table| ==> |Slot(table, size, i)| == SlotEnd(table, size, i) - i * size
    ensures i * size > |table| ==> Slot(table, size, i) == []
  {
    var at, end := i * size, SlotEnd(table, size, i);
    if at + o <= end {
      assert Slot(table, size, i) == table[at..end];
      SliceSlice(table, at, end, o, Min(o + n, end - at));
    }
  }

  lemma ReadsBytes(table: Bytes, size: nat, i: nat, capped: bool)
    ensures ReadEntry(i, Slot(table, size, i), capped).Some? <==> SlotDecodes(table, size, i)
    ensures forall e :: ReadEntry(i, Slot(table, size, i), capped) == Some(e) <==>
                        e.slot == i && EntryBytes(e, table, size, capped)
  {
    hide Slot, ReadAt, FromLE, Canonical, Decodable, Renders;
    DecodableIff(ReadAt(Slot(table, size, i), 56, 72));
    SlotSlice(table, size, i, 0, 16);
    SlotSlice(table, size, i, 16, 16);
    SlotSlice(table, size, i, 32, 8);
    SlotSlice(table, size, i, 40, 8);
    SlotSlice(table, size, i, 48, 8);
    SlotSlice(table, size, i, 56, 72);
  }

  lemma ZerosIff(b: Bytes)
    ensures b == Zeros(|b|) <==> forall p :: 0 <= p < |b| ==> b[p] == 0
  {
  }

  lemma UnsetIff(table: Bytes, size: nat, i: nat)
    ensures AllZero(ReadAt(Slot(table, size, i), 0, 16)) <==> !TypeSet(table, size, i)
  {
    hide Slot, ReadAt;
    SlotSlice(table, size, i, 0, 16);
    var at, end := i * size, SlotEnd(table, size, i);
    if at <= end {
      var head := table[at..Min(at + 16, end)];
      assert forall p :: 0 <= p < |head| ==> head[p] == table[at + p];
      assert forall p :: at <= p < at + 16 && NonZero(table, p, end) ==> head[p - at] != 0;
      if !AllZero(head) {
        var p :| 0 <= p < |head| && head[p] != 0;
        assert NonZero(table, at + p, end);
      }
    } else {
      EmptyReads();
    }
  }

  lemma EmptyReads()
    ensures ReadAt([], 0, 16) == [] && AllZero([])
  {
  }

  lemma UsedIff(table: Bytes, size: nat, i: nat)
    requires (i + 1) * size <= |table|
    ensures InUse(Slot(table, size, i)) <==> size < 16 || TypeSet(table, size, i)
  {
    hide Slot, TypeSet;
    assert (i + 1) * size == i * size + size;
    SlotSlice(table, size, i, 0, 16);
    UnsetIff(table, size, i);
    var b := ReadAt(Slot(table, size, i), 0, 16);
    assert |b| == Min(16, size);
    ZerosIff(b);
  }

  // ----- the list of used slots -----

  ghost predicate Used(table: Bytes, size: nat, i: nat) {
    size < 16 || TypeSet(table, size, i)
  }

  ghost predicate Listed(used: seq<Entry>, i: nat) {
    exists k :: 0 <= k < |used| && used[k].slot == i
  }

  /** The entries of the slots below `n` that `inUse` selects, in slot order, each as its bytes say. */
  ghost predicate Lists(used: seq<Entry>, table: Bytes, size: nat, n: nat, inUse: nat -> bool, capped: bool) {
    && (forall j, k :: 0 <= j < k < |used| ==> used[j].slot < used[k].slot)
    && (forall i: nat :: Listed(used, i) <==> i < n && inUse(i))
    && (forall k :: 0 <= k < |used| ==> EntryBytes(used[k], table, size, capped))
  }

  lemma ListsNext(used: seq<Entry>, e: Entry, table: Bytes, size: nat, n: nat, inUse: nat -> bool, capped: bool)
    requires inUse(n)
    ensures Lists(used + [e], table, size, n + 1, inUse, capped) <==>
            Lists(used, table, size, n, inUse, capped) && e.slot == n && EntryBytes(e, table, size, capped)
  {
    hide EntryBytes;
    var more := used + [e];
    assert more[|used|] == e && forall k :: 0 <= k < |used| ==> more[k] == used[k];
    forall i: nat ensures Listed(more, i) <==> Listed(used, i) || e.slot == i {
      if Listed(used, i) {
        var k :| 0 <= k < |used| && used[k].slot == i;
        assert more[k].slot == i;
      }
    }
    if Lists(more, table, size, n + 1, inUse, capped) {
      assert Listed(more, n);
      var k :| 0 <= k < |more| && more[k].slot == n;
      assert Listed(more, e.slot);
      assert e.slot == n;
      assert forall j :: 0 <= j < |used| ==> more[j].slot < more[|used|].slot;
      assert forall i: nat :: Listed(used, i) ==> i < n;
    }
    if Lists(used, table, size, n, inUse, capped) && e.slot == n {
      forall j | 0 <= j < |used| ensures used[j].slot < n {
        assert Listed(used, used[j].slot);
      }
    }
  }

  lemma ListsSkip(used: seq<Entry>, table: Bytes, size: nat, n: nat, inUse: nat -> bool, capped: bool)
    requires !inUse(n)
    ensures Lists(used, table, size, n + 1, inUse, capped) <==> Lists(used, table, size, n, inUse, capped)
  {
    hide EntryBytes, Listed;
  }

  lemma NoneListed(table: Bytes, size: nat, inUse: nat -> bool, capped: bool)
    ensures forall used: seq<Entry> :: Lists(used, table, size, 0, inUse, capped) <==> used == []
  {
    hide EntryBytes;
    forall used: seq<Entry> ensures Lists(used, table, size, 0, inUse, capped) <==> used == [] {
      if used != [] {
        assert Listed(used, used[0].slot);
      }
    }
  }

  /** A list that ends in a used slot ends with that slot's entry. */
  lemma ListsLast(used: seq<Entry>, table: Bytes, size: nat, n: nat, inUse: nat -> bool, capped: bool)
    requires inUse(n) && Lists(used, table, size, n + 1, inUse, capped)
    ensures used != []
    ensures var less, e := used[..|used| - 1], used[|used| - 1];
            && used == less + [e] && e.slot == n
            && Lists(less, table, size, n, inUse, capped) && EntryBytes(e, table, size, capped)
  {
    hide EntryBytes;
    assert Listed(used, n);
    var less, e := used[..|used| - 1], used[|used| - 1];
    assert used == less + [e];
    ListsNext(less, e, table, size, n, inUse, capped);
  }

  // ----- the primary oracle -----

  lemma {:induction false} ScanBytes(table: Bytes, h: Header, k: nat)
    requires k * h.entrySize <= |table|
    ensures Scan(table, h, k).Some? <==>
            forall i :: 0 <= i < k && Used(table, h.entrySize, i) ==> SlotDecodes(table, h.entrySize, i)
    ensures Scan(table, h, k).Some? ==>
            Lists(Scan(table, h, k).value.used, table, h.entrySize, k, (i: nat) => Used(table, h.entrySize, i), true)
  {
    hide ReadEntry, InUse, Slot, Count, Used, SlotDecodes, Lists;
    var size := h.entrySize;
    var inUse := (i: nat) => Used(table, size, i);
    if k == 0 {
      NoneListed(table, size, inUse, true);
    } else {
      assert k * size == (k - 1) * size + size;
      ScanBytes(table, h, k - 1);
      UsedIs(table, size, k - 1);
      ReadsBytes(table, size, k - 1, true);
      if Scan(table, h, k - 1).Some? {
        var t, b := Scan(table, h, k - 1).value, Slot(table, size, k - 1);
        if !InUse(b) {
          ListsSkip(t.used, table, size, k - 1, inUse, true);
        } else if ReadEntry(k - 1, b, true).Some? {
          var e := ReadEntry(k - 1, b, true).value;
          CountUses(t, e, h);
          ListsNext(t.used, e, table, size, k - 1, inUse, true);
        }
      }
    }
  }

  lemma UsedIs(table: Bytes, size: nat, i: nat)
    requires (i + 1) * size <= |table|
    ensures InUse(Slot(table, size, i)) == Used(table, size, i)
  {
    hide Slot, TypeSet, InUse;
    UsedIff(table, size, i);
  }

  /** A sound used slot: its bytes at 16, 32 and 40. */
  predicate SlotSound(table: Bytes, size: nat, i: nat, first: nat, last: nat) {
    var at := i * size;
    && at + 48 <= |table|
    && table[at + 16..at + 32] != [0, 0, 0, 0, 0, 0, 0, 0, 0, 0, 0, 0, 0, 0, 0, 0]
    && first <= FromLE(table[at + 32..at + 40]) <= FromLE(table[at + 40..at + 48]) <= last
  }

  /** Two used slots differ in their unique GUIDs and share no sector. */
  predicate SlotsApart(table: Bytes, size: nat, i: nat, j: nat) {
    var a, b := i * size, j * size;
    && a + 48 <= |table| && b + 48 <= |table|
    && table[a + 16..a + 32] != table[b + 16..b + 32]
    && (|| FromLE(table[a + 40..a + 48]) < FromLE(table[b + 32..b + 40])
        || FromLE(table[b + 40..b + 48]) < FromLE(table[a + 32..a + 40]))
  }

  /** Every used slot is whole, decodable and sound, and no two of them collide. */
  ghost predicate TableSound(table: Bytes, size: nat, n: nat, first: nat, last: nat) {
    && (forall i :: 0 <= i < n && Used(table, size, i) ==> SlotDecodes(table, size, i) && SlotSound(table, size, i, first, last))
    && (forall i, j :: 0 <= i < j < n && Used(table, size, i) && Used(table, size, j) ==> SlotsApart(table, size, i, j))
  }

  lemma EntrySound(e: Entry, table: Bytes, size: nat, first: nat, last: nat)
    requires EntryBytes(e, table, size, true)
    ensures SlotDecodes(table, size, e.slot)
    ensures SlotSound(table, size, e.slot, first, last) <==> e.uniqueGuid != Zeros(16) && ExtentOk(e, first, last)
  {
    hide HasUnits, FromLE;
    assert Zeros(16) == [0, 0, 0, 0, 0, 0, 0, 0, 0, 0, 0, 0, 0, 0, 0, 0];
  }

  lemma EntriesApart(e: Entry, f: Entry, table: Bytes, size: nat)
    requires EntryBytes(e, table, size, true) && EntryBytes(f, table, size, true)
    ensures SlotsApart(table, size, e.slot, f.slot) <==> e.uniqueGuid != f.uniqueGuid && !Overlap(e, f)
  {
    hide Decodable, Renders, FromLE;
  }

  lemma ListedEntry(used: seq<Entry>, table: Bytes, size: nat, n: nat, inUse: nat -> bool, i: nat) returns (k: nat)
    requires Lists(used, table, size, n, inUse, true) && i < n && inUse(i)
    ensures k < |used| && used[k].slot == i && EntryBytes(used[k], table, size, true)
  {
    hide EntryBytes;
    assert Listed(used, i);
    k :| 0 <= k < |used| && used[k].slot == i;
  }

  lemma EntryListed(used: seq<Entry>, table: Bytes, size: nat, n: nat, inUse: nat -> bool, k: nat)
    requires Lists(used, table, size, n, inUse, true) && k < |used|
    ensures used[k].slot < n && inUse(used[k].slot) && EntryBytes(used[k], table, size, true)
  {
    hide EntryBytes;
    assert Listed(used, used[k].slot);
  }

  /** Sound entries come from a sound table. */
  lemma SoundForward(used: seq<Entry>, table: Bytes, size: nat, n: nat, first: nat, last: nat)
    requires Lists(used, table, size, n, (i: nat) => Used(table, size, i), true) && Sound(used, first, last)
    ensures TableSound(table, size, n, first, last)
  {
    hide Lists, Used, EntryBytes, SlotDecodes, SlotSound, SlotsApart, ExtentOk, Overlap;
    var inUse := (i: nat) => Used(table, size, i);
    forall i | 0 <= i < n && Used(table, size, i)
      ensures SlotDecodes(table, size, i) && SlotSound(table, size, i, first, last)
    {
      var k := ListedEntry(used, table, size, n, inUse, i);
      EntrySound(used[k], table, size, first, last);
    }
    forall i, j | 0 <= i < j < n && Used(table, size, i) && Used(table, size, j) ensures SlotsApart(table, size, i, j) {
      var k := ListedEntry(used, table, size, n, inUse, i);
      var l := ListedEntry(used, table, size, n, inUse, j);
      SlotsOrdered(used, table, size, n, inUse, k, l);
      EntriesApart(used[k], used[l], table, size);
    }
  }

  lemma SlotsOrdered(used: seq<Entry>, table: Bytes, size: nat, n: nat, inUse: nat -> bool, k: nat, l: nat)
    requires Lists(used, table, size, n, inUse, true) && k < |used| && l < |used|
    ensures used[k].slot < used[l].slot <==> k < l
  {
    hide EntryBytes, Listed;
  }

  /** A sound table has sound entries. */
  lemma SoundBack(used: seq<Entry>, table: Bytes, size: nat, n: nat, first: nat, last: nat)
    requires Lists(used, table, size, n, (i: nat) => Used(table, size, i), true) && TableSound(table, size, n, first, last)
    ensures Sound(used, first, last)
  {
    hide Lists, Used, EntryBytes, SlotDecodes, SlotSound, SlotsApart, ExtentOk, Overlap;
    var inUse := (i: nat) => Used(table, size, i);
    forall k | 0 <= k < |used| ensures used[k].uniqueGuid != Zeros(16) && ExtentOk(used[k], first, last) {
      EntryListed(used, table, size, n, inUse, k);
      EntrySound(used[k], table, size, first, last);
    }
    forall k, l | 0 <= k < l < |used| ensures used[k].uniqueGuid != used[l].uniqueGuid && !Overlap(used[k], used[l]) {
      EntryListed(used, table, size, n, inUse, k);
      EntryListed(used, table, size, n, inUse, l);
      SlotsOrdered(used, table, size, n, inUse, k, l);
      EntriesApart(used[k], used[l], table, size);
    }
  }

  lemma ScanSound(table: Bytes, h: Header)
    requires h.count * h.entrySize <= |table|
    ensures Scan(table, h, h.count).Some? && Sound(Scan(table, h, h.count).value.used, h.first, h.last) <==>
            TableSound(table, h.entrySize, h.count, h.first, h.last)
  {
    hide Scan, Sound, Lists, Used, SlotDecodes, SlotSound, SlotsApart;
    ScanBytes(table, h, h.count);
    if Scan(table, h, h.count).Some? {
      var used := Scan(table, h, h.count).value.used;
      if Sound(used, h.first, h.last) {
        SoundForward(used, table, h.entrySize, h.count, h.first, h.last);
      }
      if TableSound(table, h.entrySize, h.count, h.first, h.last) {
        SoundBack(used, table, h.entrySize, h.count, h.first, h.last);
      }
    }
  }

  /** The header with four zero bytes for its checksum, as far as its own size field reaches. */
  function Cleared(b: Bytes): Bytes
    requires |b| >= 16
  {
    var k := Min(FromLE(b[12..16]), |b|);
    b[..Min(16, k)] + [0, 0, 0, 0] + b[Min(20, k)..k]
  }

  lemma HeaderCrcIs(b: Bytes, crc: Crc)
    requires |b| >= 16
    ensures HeaderCrc(b, crc) == crc(Cleared(b))
  {
    hide FromLE;
    var k := Min(FromLE(b[12..16]), |b|);
    assert ReadAt(b, 12, 4) == b[12..16];
    assert ReadAt(b, 0, FromLE(b[12..16])) == b[..k];
    assert Zeros(4) == [0, 0, 0, 0];
    SliceSlice(b, 0, k, Min(20, k), k);
    assert b[..k][..Min(16, k)] == b[..Min(16, k)];
    assert SliceAssign(b[..k], 16, 4, Zeros(4)) == Cleared(b);
  }

  /** The audit on bytes: signature, the two checksums, the table's size and its used slots. */
  ghost predicate SoundDisk(lba1: Bytes, table: Bytes, crc: Crc) {
    && |lba1| == 512
    && lba1[..8] == [0x45, 0x46, 0x49, 0x20, 0x50, 0x41, 0x52, 0x54]
    && crc(Cleared(lba1)) == FromLE(lba1[16..20])
    && |table| == FromLE(lba1[80..84]) * FromLE(lba1[84..88])
    && crc(table) == FromLE(lba1[88..92])
    && TableSound(table, FromLE(lba1[84..88]), FromLE(lba1[80..84]), FromLE(lba1[40..48]), FromLE(lba1[48..56]))
  }

  /** The primary oracle passes exactly on sound disks. */
  lemma PassesIff(lba1: Bytes, table: Bytes, crc: Crc)
    ensures Passes(lba1, table, crc) <==> SoundDisk(lba1, table, crc)
  {
    hide FromLE, HeaderCrc, Cleared, Scan, Sound, TableSound;
    if |lba1| == 512 {
      HeaderCrcIs(lba1, crc);
      if |table| == FromLE(lba1[80..84]) * FromLE(lba1[84..88]) {
        ScanSound(table, HeaderOf(lba1));
      }
    }
  }

  /** What a passing primary oracle reports: the used slots in order, every field the slot's bytes. */
  lemma ReportIs(lba1: Bytes, table: Bytes, crc: Crc)
    requires Passes(lba1, table, crc)
    ensures var h := HeaderOf(lba1);
            && |lba1| == 512 && Scan(table, h, h.count).Some?
            && var size, n, t := FromLE(lba1[84..88]), FromLE(lba1[80..84]), Scan(table, h, h.count).value;
               && Lists(t.used, table, size, n, (i: nat) => Used(table, size, i), true)
               && |t.used| + t.unused == n
  {
    hide FromLE, HeaderCrc, Scan, Sound, Lists, Used, Tallied;
    var h := HeaderOf(lba1);
    ScanBytes(table, h, h.count);
    ScanMeans(table, h, h.count);
  }

  // ----- the backup oracle -----

  /** The backup oracle's map is exactly the list of the slots whose type bytes are set. */
  lemma {:induction false} BackupBytes(table: Bytes, size: nat, k: nat, map0: seq<Entry>)
    ensures ScanBackup(table, size, k) == Some(map0) <==>
            Lists(map0, table, size, k, (i: nat) => TypeSet(table, size, i), false)
  {
    hide ReadEntry, Slot, TypeSet, Lists, AllZero, EntryBytes;
    var inUse := (i: nat) => TypeSet(table, size, i);
    if k == 0 {
      NoneListed(table, size, inUse, false);
    } else {
      UnsetIff(table, size, k - 1);
      if !TypeSet(table, size, k - 1) {
        BackupBytes(table, size, k - 1, map0);
        ListsSkip(map0, table, size, k - 1, inUse, false);
      } else {
        ReadsBytes(table, size, k - 1, false);
        if Lists(map0, table, size, k, inUse, false) {
          ListsLast(map0, table, size, k - 1, inUse, false);
          BackupBytes(table, size, k - 1, map0[..|map0| - 1]);
        }
        if ScanBackup(table, size, k) == Some(map0) {
          var used, e := ScanBackup(table, size, k - 1).value, ReadEntry(k - 1, Slot(table, size, k - 1), false).value;
          BackupBytes(table, size, k - 1, used);
          ListsNext(used, e, table, size, k - 1, inUse, false);
        }
      }
    }
  }

  /** The two headers on bytes: own and alternate sectors cross, everything else that both hold is equal. */
  predicate HeadersMatch(lba1: Bytes, backup: Bytes)
    requires |lba1| >= 92 && |backup| >= 92
  {
    && FromLE(lba1[24..32]) == 1
    && FromLE(lba1[32..40]) == FromLE(backup[24..32])
    && FromLE(backup[32..40]) == FromLE(lba1[24..32])
    && FromLE(lba1[8..12]) == FromLE(backup[8..12])
    && FromLE(lba1[40..48]) == FromLE(backup[40..48])
    && FromLE(lba1[48..56]) == FromLE(backup[48..56])
    && lba1[56..72] == backup[56..72]
    && FromLE(lba1[80..84]) == FromLE(backup[80..84])
    && FromLE(lba1[84..88]) == FromLE(backup[84..88])
    && FromLE(lba1[88..92]) == FromLE(backup[88..92])
  }

  /** The backup table starts behind the last usable sector and ends before its header's sector. */
  predicate BehindData(backup: Bytes)
    requires |backup| >= 92
  {
    var start, bytes := FromLE(backup[72..80]), FromLE(backup[80..84]) * FromLE(backup[84..88]);
    FromLE(backup[48..56]) < start && start + (bytes + 511) / 512 - 1 < FromLE(backup[24..32])
  }

  ghost predicate SoundBackup(
    lba1: Bytes, backup: Bytes, primaryTable: Bytes, backupTable: Bytes, primaryMap: seq<Entry>, crc: Crc)
  {
    && |lba1| >= 92 && |backup| >= 92
    && lba1[..8] == [0x45, 0x46, 0x49, 0x20, 0x50, 0x41, 0x52, 0x54] == backup[..8]
    && crc(Cleared(backup)) == FromLE(backup[16..20])
    && HeadersMatch(lba1, backup) && BehindData(backup)
    && primaryTable == backupTable
    && var size, n := FromLE(backup[84..88]), FromLE(backup[80..84]);
       && crc(backupTable[..Min(n * size, |backupTable|)]) == FromLE(backup[88..92])
       && Lists(primaryMap, backupTable, size, n, (i: nat) => TypeSet(backupTable, size, i), false)
  }

  /** The backup oracle passes exactly on a sound backup of the map it is given. */
  lemma BackupPassesIff(
    lba1: Bytes, backup: Bytes, primaryTable: Bytes, backupTable: Bytes, primaryMap: seq<Entry>, crc: Crc)
    ensures BackupPasses(lba1, backup, primaryTable, backupTable, primaryMap, crc) <==>
            SoundBackup(lba1, backup, primaryTable, backupTable, primaryMap, crc)
  {
    hide FromLE, HeaderCrc, Cleared, ScanBackup, Lists, TypeSet, Reciprocal, BackupGeometry, HeadersMatch, BehindData, HeaderOf;
    if |lba1| >= 92 && |backup| >= 92 {
      HeaderCrcIs(backup, crc);
      HeadersIff(lba1, backup);
      var size, n := FromLE(backup[84..88]), FromLE(backup[80..84]);
      BackupBytes(backupTable, size, n, primaryMap);
      assert ReadAt(backupTable, 0, n * size) == backupTable[..Min(n * size, |backupTable|)];
    }
  }

  lemma Field(b: Bytes, o: nat, n: nat)
    requires o + n <= |b|
    ensures ReadAt(b, o, n) == b[o..o + n] && Int(b, o, n) == FromLE(b[o..o + n])
  {
    hide FromLE;
  }

  /** A header is read from its literal offsets. */
  lemma HeaderIs(b: Bytes)
    requires |b| >= 92
    ensures HeaderOf(b) == Header(
              FromLE(b[8..12]), FromLE(b[12..16]), FromLE(b[16..20]), FromLE(b[24..32]), FromLE(b[32..40]),
              FromLE(b[40..48]), FromLE(b[48..56]), b[56..72], FromLE(b[72..80]), FromLE(b[80..84]),
              FromLE(b[84..88]), FromLE(b[88..92]))
  {
    hide FromLE, Int, ReadAt;
    Field(b, 8, 4);
    Field(b, 12, 4);
    Field(b, 16, 4);
    Field(b, 24, 8);
    Field(b, 32, 8);
    Field(b, 40, 8);
    Field(b, 48, 8);
    Field(b, 56, 16);
    Field(b, 72, 8);
    Field(b, 80, 4);
    Field(b, 84, 4);
    Field(b, 88, 4);
  }

  lemma HeadersIff(lba1: Bytes, backup: Bytes)
    requires |lba1| >= 92 && |backup| >= 92
    ensures Reciprocal(HeaderOf(lba1), HeaderOf(backup)) <==> HeadersMatch(lba1, backup)
    ensures BackupGeometry(HeaderOf(backup)) <==> BehindData(backup)
    ensures var h := HeaderOf(backup);
            && h.crc == FromLE(backup[16..20]) && h.count == FromLE(backup[80..84])
            && h.entrySize == FromLE(backup[84..88]) && h.arrayCrc == FromLE(backup[88..92])
  {
    hide FromLE, HeaderOf;
    HeaderIs(lba1);
    HeaderIs(backup);
  }
}
