/** A disk on which the primary oracle passes and the backup oracle does not. */
module GptExample {
  import opened Bytes
  import opened GptBackup
  import opened GptEntries
  import opened Wrappers

  const FIRST: nat := 34
  const LAST: nat := 34 + 0x1000_0000_0000_0000

  // ----- the entry table: one partition of 2^60 + 1 sectors -----

  function WideSlot(): (b: Bytes)
    ensures |b| == 128
  {
    seq(32, _ => 1) + LE(FIRST, 8) + LE(LAST, 8) + Zeros(80)
  }

  lemma SlotParts(guids: Bytes, start: nat, end: nat, tail: Bytes)
    requires |guids| == 32 && |tail| == 80 && start < Pow256(8) && end < Pow256(8)
    ensures var b := guids + LE(start, 8) + LE(end, 8) + tail;
            && ReadAt(b, 0, 16) == guids[..16] && ReadAt(b, 16, 16) == guids[16..] && ReadAt(b, 56, 72) == tail[8..]
            && Int(b, 32, 8) == start && Int(b, 40, 8) == end
  {
    hide LE, FromLE, Pow256;
    var b := guids + LE(start, 8) + LE(end, 8) + tail;
    assert ReadAt(b, 32, 8) == LE(start, 8) && ReadAt(b, 40, 8) == LE(end, 8);
    LERoundTrip(start, 8);
    LERoundTrip(end, 8);
  }

  lemma NoName(name: Bytes)
    requires |name| >= 2 && name[0] == 0 && name[1] == 0
    ensures Canonical(name) == Some("")
  {
    assert ReadAt(name, 0, 2) == Zeros(2);
    LEZero(2);
    LERoundTrip(0, 2);
  }

  lemma WideSlotReads()
    ensures InUse(WideSlot()) && ReadAt(WideSlot(), 16, 16) != Zeros(16)
    ensures Int(WideSlot(), 32, 8) == FIRST && Int(WideSlot(), 40, 8) == LAST
    ensures Canonical(ReadAt(WideSlot(), 56, 72)) == Some("")
  {
    hide LE, Int, Canonical, ReadAt;
    var ones: Bytes := seq(32, _ => 1);
    Pow256Values();
    SlotParts(ones, FIRST, LAST, Zeros(80));
    assert ones[..16][0] == 1 && ones[16..][0] == 1 && Zeros(16)[0] == 0;
    NoName(Zeros(80)[8..]);
  }

  lemma OneSlot(b: Bytes, h: Header)
    requires |b| == h.entrySize == 128 && InUse(b) && ReadEntry(0, b, true).Some?
    ensures Scan(b, h, 1) == Some(Count(Tally([], 0, 0, 0, 0, 0), ReadEntry(0, b, true).value, h.first, h.last))
  {
    hide InUse, ReadEntry, Count;
    assert Slot(b, h.entrySize, 0) == b;
    assert Scan(b, h, 0) == Some(Tally([], 0, 0, 0, 0, 0));
  }

  lemma WideScan(h: Header)
    requires h.first == FIRST && h.last == LAST && h.entrySize == 128
    ensures var scan := Scan(WideSlot(), h, 1);
            scan.Some? && Sound(scan.value.used, h.first, h.last) && scan.value.overflows == 1
  {
    hide WideSlot, Int, Canonical, Scan, InUse, ReadAt;
    var b := WideSlot();
    WideSlotReads();
    OneSlot(b, h);
    var e := ReadEntry(0, b, true).value;
    assert Scan(b, h, 1).value.used == [e];
  }

  // ----- the headers -----

  function HeaderStart(headerCrc: nat): (b: Bytes)
    ensures |b| == 24
  {
    SIGNATURE + LE(0x10000, 4) + LE(92, 4) + LE(headerCrc, 4) + Zeros(4)
  }

  function HeaderMiddle(myLba: nat, altLba: nat): (b: Bytes)
    ensures |b| == 32
  {
    LE(myLba, 8) + LE(altLba, 8) + LE(FIRST, 8) + LE(LAST, 8)
  }

  function HeaderRest(entryLba: nat, arrayCrc: nat): (b: Bytes)
    ensures |b| == 456
  {
    Zeros(16) + LE(entryLba, 8) + (LE(1, 4) + LE(128, 4)) + (LE(arrayCrc, 4) + Zeros(420))
  }

  /** A header sector with one entry of 128 bytes. */
  function HeaderSector(myLba: nat, altLba: nat, entryLba: nat, headerCrc: nat, arrayCrc: nat): (b: Bytes)
    ensures |b| == 512
  {
    HeaderStart(headerCrc) + HeaderMiddle(myLba, altLba) + HeaderRest(entryLba, arrayCrc)
  }

  lemma StartFields(headerCrc: nat)
    requires headerCrc < Pow256(4)
    ensures var b := HeaderStart(headerCrc);
            ReadAt(b, 0, 8) == SIGNATURE && Int(b, 8, 4) == 0x10000 && Int(b, 12, 4) == 92 && Int(b, 16, 4) == headerCrc
  {
    hide LE, FromLE, Pow256;
    var b := HeaderStart(headerCrc);
    Pow256Values();
    assert ReadAt(b, 8, 4) == LE(0x10000, 4) && ReadAt(b, 12, 4) == LE(92, 4) && ReadAt(b, 16, 4) == LE(headerCrc, 4);
    LERoundTrip(0x10000, 4);
    LERoundTrip(92, 4);
    LERoundTrip(headerCrc, 4);
  }

  lemma MiddleFields(myLba: nat, altLba: nat)
    requires myLba < Pow256(8) && altLba < Pow256(8)
    ensures var b := HeaderMiddle(myLba, altLba);
            Int(b, 0, 8) == myLba && Int(b, 8, 8) == altLba && Int(b, 16, 8) == FIRST && Int(b, 24, 8) == LAST
  {
    hide LE, FromLE, Pow256;
    var b := HeaderMiddle(myLba, altLba);
    Pow256Values();
    assert ReadAt(b, 0, 8) == LE(myLba, 8) && ReadAt(b, 8, 8) == LE(altLba, 8);
    assert ReadAt(b, 16, 8) == LE(FIRST, 8) && ReadAt(b, 24, 8) == LE(LAST, 8);
    LERoundTrip(myLba, 8);
    LERoundTrip(altLba, 8);
    LERoundTrip(FIRST, 8);
    LERoundTrip(LAST, 8);
  }

  lemma RestFields(entryLba: nat, arrayCrc: nat)
    requires entryLba < Pow256(8) && arrayCrc < Pow256(4)
    ensures var b := HeaderRest(entryLba, arrayCrc);
            && ReadAt(b, 0, 16) == Zeros(16) && Int(b, 16, 8) == entryLba && Int(b, 24, 4) == 1 && Int(b, 28, 4) == 128
            && Int(b, 32, 4) == arrayCrc
  {
    hide LE, FromLE, Pow256;
    var b := HeaderRest(entryLba, arrayCrc);
    Pow256Values();
    assert ReadAt(b, 16, 8) == LE(entryLba, 8) && ReadAt(b, 24, 4) == LE(1, 4);
    assert ReadAt(b, 28, 4) == LE(128, 4) && ReadAt(b, 32, 4) == LE(arrayCrc, 4);
    LERoundTrip(entryLba, 8);
    LERoundTrip(1, 4);
    LERoundTrip(128, 4);
    LERoundTrip(arrayCrc, 4);
  }

  lemma Middle(a: Bytes, b: Bytes, c: Bytes, o: nat, n: nat)
    requires o + n <= |b|
    ensures Int(a + b + c, |a| + o, n) == Int(b, o, n) && ReadAt(a + b + c, |a| + o, n) == ReadAt(b, o, n)
  {
    assert ReadAt(a + b + c, |a| + o, n) == ReadAt(b, o, n);
  }

  lemma SectorFields(my: nat, alt: nat, entry: nat, hc: nat, ac: nat)
    requires my < Pow256(8) && alt < Pow256(8) && entry < Pow256(8) && hc < Pow256(4) && ac < Pow256(4)
    ensures var b := HeaderSector(my, alt, entry, hc, ac);
            && ReadAt(b, 0, 8) == SIGNATURE
            && HeaderOf(b) == Header(0x10000, 92, hc, my, alt, FIRST, LAST, Zeros(16), entry, 1, 128, ac)
  {
    hide HeaderStart, HeaderMiddle, HeaderRest, Int, ReadAt, Pow256;
    var b, none: Bytes := HeaderSector(my, alt, entry, hc, ac), [];
    var x, y, z := HeaderStart(hc), HeaderMiddle(my, alt), HeaderRest(entry, ac);
    StartFields(hc);
    MiddleFields(my, alt);
    RestFields(entry, ac);
    assert b == none + x + (y + z) && b == x + y + z && b == (x + y) + z + none;
    Middle(none, x, y + z, 0, 8);
    Middle(none, x, y + z, 8, 4);
    Middle(none, x, y + z, 12, 4);
    Middle(none, x, y + z, 16, 4);
    Middle(x, y, z, 0, 8);
    Middle(x, y, z, 8, 8);
    Middle(x, y, z, 16, 8);
    Middle(x, y, z, 24, 8);
    Middle(x + y, z, none, 0, 16);
    Middle(x + y, z, none, 16, 8);
    Middle(x + y, z, none, 24, 4);
    Middle(x + y, z, none, 28, 4);
    Middle(x + y, z, none, 32, 4);
  }

  /** The bytes the header checksum is taken over do not depend on the stored checksum. */
  lemma ChecksumInput(my: nat, alt: nat, entry: nat, hc: nat, ac: nat)
    ensures SliceAssign(ReadAt(HeaderSector(my, alt, entry, hc, ac), 0, 92), 16, 4, Zeros(4)) ==
            ReadAt(HeaderSector(my, alt, entry, 0, ac), 0, 92)
  {
    hide LE, HeaderMiddle, HeaderRest;
    LEZero(4);
    var a, b := HeaderSector(my, alt, entry, hc, ac), HeaderSector(my, alt, entry, 0, ac);
    var x, y := HeaderStart(hc), HeaderStart(0);
    assert x[..16] == y[..16] && x[20..] == y[20..] && y[16..20] == Zeros(4);
    assert forall i :: 0 <= i < 512 && !(16 <= i < 20) ==> a[i] == b[i];
    assert b[16..20] == Zeros(4);
  }

  /** The sector with its right checksum. */
  function Sealed(my: nat, alt: nat, entry: nat, ac: nat, crc: Crc): Bytes {
    HeaderSector(my, alt, entry, crc(ReadAt(HeaderSector(my, alt, entry, 0, ac), 0, 92)), ac)
  }

  lemma SealedIs(my: nat, alt: nat, entry: nat, ac: nat, crc: Crc)
    requires my < Pow256(8) && alt < Pow256(8) && entry < Pow256(8) && ac < Pow256(4)
    requires forall b :: crc(b) < Pow256(4)
    ensures var b := Sealed(my, alt, entry, ac, crc);
            && |b| == 512 && ReadAt(b, 0, 8) == SIGNATURE && HeaderCrc(b, crc) == HeaderOf(b).crc
            && HeaderOf(b) == Header(0x10000, 92, HeaderOf(b).crc, my, alt, FIRST, LAST, Zeros(16), entry, 1, 128, ac)
  {
    hide HeaderSector, HeaderOf, Pow256, SliceAssign, ReadAt;
    var hc := crc(ReadAt(HeaderSector(my, alt, entry, 0, ac), 0, 92));
    SectorFields(my, alt, entry, hc, ac);
    ChecksumInput(my, alt, entry, hc, ac);
  }

  // ----- the disk -----

  function Primary(crc: Crc): Bytes {
    Sealed(1, LAST + 2, 2, crc(WideSlot()), crc)
  }

  function Backup(crc: Crc): Bytes {
    Sealed(LAST + 2, 1, LAST + 1, crc(WideSlot()), crc)
  }

  lemma SizeIsPower()
    ensures IsPowerOfTwo(128)
  {
    assert IsPowerOfTwo(4);
    assert IsPowerOfTwo(16);
    assert IsPowerOfTwo(64);
  }

  /**
   * With every 32-bit checksum function: header sectors and a table on which the primary oracle passes, the
   * headers agree and both geometries are right, but the backup oracle fails the parity of the maps.
   */
  lemma ParityFails(crc: Crc)
    requires forall b :: crc(b) < 0x1_0000_0000
    ensures var lba1, backup, table := Primary(crc), Backup(crc), WideSlot();
            && Passes(lba1, table, crc) && HeadersAgree(lba1, backup, crc) && PrimaryGeometry(HeaderOf(lba1))
            && !BackupPasses(lba1, backup, table, table, Scan(table, HeaderOf(lba1), HeaderOf(lba1).count).value.used, crc)
  {
    hide Sealed, HeaderOf, HeaderCrc, WideSlot, Scan, Sound, BackupPasses, ReadAt, Int, IsPowerOfTwo;
    var lba1, backup, table := Primary(crc), Backup(crc), WideSlot();
    Pow256Values();
    SealedIs(1, LAST + 2, 2, crc(table), crc);
    SealedIs(LAST + 2, 1, LAST + 1, crc(table), crc);
    WideScan(HeaderOf(lba1));
    SizeIsPower();
    Parity(lba1, backup, table, crc);
  }
}
