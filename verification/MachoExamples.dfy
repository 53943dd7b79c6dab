/** Two small kernels: the smallest well-formed one, and one that a second flattening changes. */
module MachoExamples {
  import opened Bytes
  import opened MachoCommands
  import opened MachoFlatten
  import opened MachoImage
  import opened MachoTheorems
  import opened MachoTwice

  // ----- pieces -----

  /** The file header of a file with `n` load commands. */
  function FileHeader(n: nat): (b: Bytes)
    ensures |b| == 32
  {
    LE(MAGIC_64, 4) + Zeros(12) + LE(n, 4) + Zeros(12)
  }

  lemma FileHeaderFields(n: nat)
    requires n < Pow256(4)
    ensures Int(FileHeader(n), 0, 4) == MAGIC_64 && Int(FileHeader(n), 16, 4) == n
  {
    hide LE, FromLE, Pow256;
    var b := FileHeader(n);
    Pow256Values();
    assert ReadAt(b, 0, 4) == LE(MAGIC_64, 4) && ReadAt(b, 16, 4) == LE(n, 4);
    LERoundTrip(MAGIC_64, 4);
    LERoundTrip(n, 4);
  }

  /** A segment command without sections, up to its name. */
  function SegmentHead(name: Bytes): (b: Bytes)
    ensures |b| == 8 + |name|
  {
    LE(SEGMENT_64, 4) + LE(72, 4) + name
  }

  function SegmentRest(addr: nat, vmsize: nat, off: nat, size: nat): (b: Bytes)
    ensures |b| == 48
  {
    LE(addr, 8) + LE(vmsize, 8) + LE(off, 8) + LE(size, 8) + Zeros(16)
  }

  function Segment(name: Bytes, addr: nat, vmsize: nat, off: nat, size: nat): (b: Bytes)
    ensures |b| == 56 + |name|
  {
    SegmentHead(name) + SegmentRest(addr, vmsize, off, size)
  }

  lemma SegmentHeadFields(name: Bytes)
    requires |name| == 16
    ensures var b := SegmentHead(name); Int(b, 0, 4) == SEGMENT_64 && Int(b, 4, 4) == 72 && ReadAt(b, 8, 16) == name
  {
    hide LE, FromLE, Pow256;
    var b := SegmentHead(name);
    Pow256Values();
    assert ReadAt(b, 0, 4) == LE(SEGMENT_64, 4) && ReadAt(b, 4, 4) == LE(72, 4);
    LERoundTrip(SEGMENT_64, 4);
    LERoundTrip(72, 4);
  }

  lemma SegmentRestFields(addr: nat, vmsize: nat, off: nat, size: nat)
    requires addr < Pow256(8) && vmsize < Pow256(8) && off < Pow256(8) && size < Pow256(8)
    ensures var b := SegmentRest(addr, vmsize, off, size);
            && Int(b, 0, 8) == addr && Int(b, 8, 8) == vmsize && Int(b, 16, 8) == off && Int(b, 24, 8) == size
            && Int(b, 40, 4) == 0
  {
    hide LE, FromLE, Pow256;
    var b := SegmentRest(addr, vmsize, off, size);
    Pow256Values();
    assert ReadAt(b, 0, 8) == LE(addr, 8) && ReadAt(b, 8, 8) == LE(vmsize, 8) && ReadAt(b, 16, 8) == LE(off, 8);
    assert ReadAt(b, 24, 8) == LE(size, 8) && ReadAt(b, 40, 4) == Zeros(4);
    LEZero(4);
    LERoundTrip(addr, 8);
    LERoundTrip(vmsize, 8);
    LERoundTrip(off, 8);
    LERoundTrip(size, 8);
    LERoundTrip(0, 4);
  }

  lemma IntBehind(a: Bytes, b: Bytes, o: nat, n: nat)
    ensures Int(a + b, |a| + o, n) == Int(b, o, n)
  {
    assert ReadAt(a + b, |a| + o, n) == ReadAt(b, o, n);
  }

  /** What the passes read of a segment command, whatever lies behind it. */
  predicate IsSegmentAt(c: Bytes, name: Bytes, addr: nat, vmsize: nat, off: nat, size: nat) {
    && |c| >= 72 && Cmd(c) == SEGMENT_64 && Int(c, 4, 4) == 72 && SegName(c) == name && SectionCount(c) == 0
    && VmAddr(c) == addr && VmSize(c) == vmsize && FileOff(c) == off && FileSize(c) == size
  }

  lemma SegmentAt(name: Bytes, addr: nat, vmsize: nat, off: nat, size: nat, rest: Bytes)
    requires |name| == 16 && addr < Pow256(8) && vmsize < Pow256(8) && off < Pow256(8) && size < Pow256(8)
    ensures IsSegmentAt(Segment(name, addr, vmsize, off, size) + rest, name, addr, vmsize, off, size)
  {
    hide Int, SegmentHead, SegmentRest, Pow256;
    var h, r := SegmentHead(name), SegmentRest(addr, vmsize, off, size);
    var c := Segment(name, addr, vmsize, off, size) + rest;
    SegmentHeadFields(name);
    SegmentRestFields(addr, vmsize, off, size);
    assert c == h + (r + rest);
    FieldExtends(h, r + rest, 0, 4);
    FieldExtends(h, r + rest, 4, 4);
    assert ReadAt(c, 8, 16) == ReadAt(h, 8, 16);
    FieldExtends(r, rest, 0, 8);
    FieldExtends(r, rest, 8, 8);
    FieldExtends(r, rest, 16, 8);
    FieldExtends(r, rest, 24, 8);
    FieldExtends(r, rest, 40, 4);
    IntBehind(h, r + rest, 0, 8);
    IntBehind(h, r + rest, 8, 8);
    IntBehind(h, r + rest, 16, 8);
    IntBehind(h, r + rest, 24, 8);
    IntBehind(h, r + rest, 40, 4);
  }

  lemma SegmentFits(c: Bytes, base: nat, delta: int)
    requires |c| >= 72 && Cmd(c) == SEGMENT_64 && SectionCount(c) == 0
    ensures Holds(c, base) && OffsetsFit(c, base, delta)
  {
    hide Int;
  }

  lemma HeaderFieldsOf(n: nat, rest: Bytes)
    requires n < Pow256(4)
    ensures var b := FileHeader(n) + rest; Int(b, 0, 4) == MAGIC_64 && Count(b) == n
  {
    hide Int, FileHeader;
    FileHeaderFields(n);
    FieldExtends(FileHeader(n), rest, 0, 4);
    FieldExtends(FileHeader(n), rest, 16, 4);
  }

  const TEXT_NAME: Bytes := TEXT + Zeros(10)
  const LINKEDIT_NAME: Bytes := LINKEDIT + Zeros(6)

  lemma Names()
    ensures |TEXT_NAME| == 16 && |LINKEDIT_NAME| == 16
    ensures Stripped(TEXT_NAME) == TEXT && Stripped(LINKEDIT_NAME) == LINKEDIT && TEXT != LINKEDIT
  {
    hide Stripped;
    StrippedOf(TEXT, 10);
    StrippedOf(LINKEDIT, 6);
  }

  // ----- the smallest kernel -----

  /** A file of one load command: a `__TEXT` segment that holds the whole file. */
  function SmallestKernel(base: nat): (b: Bytes)
    ensures |b| == 104
  {
    FileHeader(1) + Segment(TEXT_NAME, base, 104, 0, 104)
  }

  lemma SmallestParts(base: nat)
    requires base < 0x1_0000_0000_0000_0000
    ensures var b := SmallestKernel(base);
            && Int(b, 0, 4) == MAGIC_64 && Count(b) == 1 && CmdOff(b, 0) == 32 && CmdOff(b, 1) == 104
            && IsSegmentAt(CmdAt(b, 0), TEXT_NAME, base, 104, 0, 104) && Command(b, 0) == CmdAt(b, 0)
  {
    hide Int, FileHeader, Segment, IsSegmentAt;
    var b, s := SmallestKernel(base), Segment(TEXT_NAME, base, 104, 0, 104);
    Pow256Values();
    Names();
    HeaderFieldsOf(1, s);
    SegmentAt(TEXT_NAME, base, 104, 0, 104, []);
    assert s + [] == s && Tail(b, 32) == s;
    SizeOfSegment(b, 0, TEXT_NAME, base, 104, 0, 104);
  }

  lemma SizeOfSegment(b: Bytes, k: nat, name: Bytes, addr: nat, vmsize: nat, off: nat, size: nat)
    requires IsSegmentAt(CmdAt(b, k), name, addr, vmsize, off, size)
    ensures CmdOff(b, k + 1) == CmdOff(b, k) + 72 && Int(b, CmdOff(b, k) + 4, 4) == 72
  {
    hide Int;
    NextOffset(b, k);
  }

  /** Well-formed kernels exist, at every base address. */
  lemma SmallestIsWellFormed(base: nat)
    requires base < 0x1_0000_0000_0000_0000
    ensures WellFormed(SmallestKernel(base)) && Base(SmallestKernel(base)) == base && Settles(SmallestKernel(base))
  {
    hide SmallestKernel, Int, Stripped, SegName, CmdAt;
    var b := SmallestKernel(base);
    SmallestParts(base);
    Names();
    var c := CmdAt(b, 0);
    assert FindText(b, 0, 1) == 0;
    SegmentFits(c, base, 0);
    assert Scannable(b, 0) && Scannable(b, 1);
    assert LastLink(b, base, 0) == NoLink && LastLink(b, base, 1) == NoLink;
  }

  // ----- a kernel that drifts -----

  /** A symbol table command with its two table offsets. */
  function Symtab(symbols: nat, strings: nat): (b: Bytes)
    ensures |b| == 24
  {
    LE(SYMTAB, 4) + LE(24, 4) + (LE(symbols, 4) + LE(0, 4)) + (LE(strings, 4) + LE(0, 4))
  }

  predicate IsSymtabAt(c: Bytes, symbols: nat, strings: nat) {
    |c| >= 24 && Cmd(c) == SYMTAB && Int(c, 4, 4) == 24 && Int(c, 8, 4) == symbols && Int(c, 16, 4) == strings
  }

  lemma SymtabAt(symbols: nat, strings: nat)
    requires symbols < Pow256(4) && strings < Pow256(4)
    ensures IsSymtabAt(Symtab(symbols, strings), symbols, strings)
  {
    hide LE, FromLE, Pow256;
    var b := Symtab(symbols, strings);
    Pow256Values();
    assert ReadAt(b, 0, 4) == LE(SYMTAB, 4) && ReadAt(b, 4, 4) == LE(24, 4);
    assert ReadAt(b, 8, 4) == LE(symbols, 4) && ReadAt(b, 16, 4) == LE(strings, 4);
    LERoundTrip(SYMTAB, 4);
    LERoundTrip(24, 4);
    LERoundTrip(symbols, 4);
    LERoundTrip(strings, 4);
  }

  const DRIFT_BASE: nat := 0x1000

  /** `__TEXT` at 0x1000, an empty `__LINKEDIT` at address 0 and file offset 200, and a symbol table. */
  function DriftingKernel(): (b: Bytes)
    ensures |b| == 200
  {
    FileHeader(3) + DriftText() + DriftLink() + Symtab(0x8000, 0x8000)
  }

  function DriftText(): (b: Bytes)
    ensures |b| == 72
  {
    Segment(TEXT_NAME, DRIFT_BASE, 200, 0, 200)
  }

  function DriftLink(): (b: Bytes)
    ensures |b| == 72
  {
    Segment(LINKEDIT_NAME, 0, 0, 200, 0)
  }

  lemma DriftTails()
    ensures var b := DriftingKernel();
            && Tail(b, 32) == DriftText() + (DriftLink() + Symtab(0x8000, 0x8000))
            && Tail(b, 104) == DriftLink() + Symtab(0x8000, 0x8000)
            && Tail(b, 176) == Symtab(0x8000, 0x8000)
            && b == FileHeader(3) + (DriftText() + (DriftLink() + Symtab(0x8000, 0x8000)))
  {
    hide FileHeader, DriftText, DriftLink, Symtab;
    var h, t, l, s := FileHeader(3), DriftText(), DriftLink(), Symtab(0x8000, 0x8000);
    var b := DriftingKernel();
    assert b == h + (t + (l + s)) && b == (h + t) + (l + s) && b == (h + t + l) + s;
  }

  lemma DriftParts()
    ensures var b := DriftingKernel();
            && Int(b, 0, 4) == MAGIC_64 && Count(b) == 3
            && CmdOff(b, 0) == 32 && CmdOff(b, 1) == 104 && CmdOff(b, 2) == 176 && CmdOff(b, 3) == 200
            && IsSegmentAt(CmdAt(b, 0), TEXT_NAME, DRIFT_BASE, 200, 0, 200)
            && IsSegmentAt(CmdAt(b, 1), LINKEDIT_NAME, 0, 0, 200, 0) && IsSymtabAt(CmdAt(b, 2), 0x8000, 0x8000)
  {
    hide Int, FileHeader, Segment, Symtab, IsSegmentAt, DriftingKernel;
    var b, s := DriftingKernel(), Symtab(0x8000, 0x8000);
    Pow256Values();
    Names();
    DriftTails();
    HeaderFieldsOf(3, DriftText() + (DriftLink() + s));
    SegmentAt(TEXT_NAME, DRIFT_BASE, 200, 0, 200, DriftLink() + s);
    SegmentAt(LINKEDIT_NAME, 0, 0, 200, 0, s);
    SymtabAt(0x8000, 0x8000);
    assert CmdOff(b, 0) == 32;
    SizeOfSegment(b, 0, TEXT_NAME, DRIFT_BASE, 200, 0, 200);
    SizeOfSegment(b, 1, LINKEDIT_NAME, 0, 0, 200, 0);
    NextOffset(b, 2);
  }

  /** A command as far as its size reaches keeps the fields it has room for. */
  lemma OwnFields(b: Bytes, n: nat, k: nat, o: nat, m: nat)
    requires CmdOff(b, n) <= |b| && k < n && o + m <= CmdOff(b, k + 1) - CmdOff(b, k)
    ensures |Command(b, k)| == CmdOff(b, k + 1) - CmdOff(b, k) && Int(Command(b, k), o, m) == Int(CmdAt(b, k), o, m)
  {
    hide Int, CmdOff, Command, CmdAt;
    CommandSlice(b, n, k);
    var rest := CommandLeads(b, n, k);
    FieldExtends(Command(b, k), rest, o, m);
  }

  const DRIFT: int := -4296

  lemma DriftCommands()
    ensures CommandsOk(DriftingKernel(), DRIFT_BASE, DRIFT, 3) && Drags(Command(DriftingKernel(), 2), DRIFT)
  {
    hide Int, DriftingKernel, CmdAt, Command, CmdOff, SegName;
    var b := DriftingKernel();
    DriftParts();
    OwnFields(b, 3, 0, 0, 4);
    OwnFields(b, 3, 0, 64, 4);
    OwnFields(b, 3, 1, 0, 4);
    OwnFields(b, 3, 1, 64, 4);
    OwnFields(b, 3, 2, 0, 4);
    OwnFields(b, 3, 2, 8, 4);
    OwnFields(b, 3, 2, 16, 4);
    SegmentFits(Command(b, 0), DRIFT_BASE, DRIFT);
    SegmentFits(Command(b, 1), DRIFT_BASE, DRIFT);
  }

  lemma DriftPasses()
    ensures var b := DriftingKernel();
            && Readable(b) && Base(b) == DRIFT_BASE && FindText(b, 0, 3) == 0
            && LastLink(b, DRIFT_BASE, 3) == Link(200, -4096) && SegmentsOk(b, DRIFT_BASE, 3)
  {
    hide Int, DriftingKernel, CmdAt, CmdOff, SegName, Stripped;
    var b := DriftingKernel();
    DriftParts();
    Names();
    assert Named(CmdAt(b, 0), TEXT) && Named(CmdAt(b, 1), LINKEDIT) && !IsSegment(CmdAt(b, 2));
    assert Scannable(b, 0) && Scannable(b, 1) && Scannable(b, 2) && Scannable(b, 3);
    assert LastLink(b, DRIFT_BASE, 2) == Link(200, -4096);
    assert !Copies(CmdAt(b, 1), DRIFT_BASE) && !Copies(CmdAt(b, 2), DRIFT_BASE);
  }

  /** A well-formed kernel on which flattening is not idempotent: its symbol table offsets move with every run. */
  lemma DriftingChanges()
    ensures WellFormed(DriftingKernel()) && !Settles(DriftingKernel())
    ensures Flattened(DriftingKernel()) == Flat(Image(DriftingKernel()))
    ensures Flattened(Image(DriftingKernel())) != Flat(Image(DriftingKernel()))
  {
    hide Int, DriftingKernel, CmdAt, CmdOff, Readable, Base, CommandsOk, SegmentsOk, Image, Flattened, Command, Drags;
    hide FindText, LastLink;
    var b := DriftingKernel();
    DriftParts();
    DriftPasses();
    DriftCommands();
    FlattenTwice(b);
  }
}
