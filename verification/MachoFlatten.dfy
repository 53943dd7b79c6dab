/**
 * Flattening a 64-bit Mach-O kernel into a linear memory image.
 *
 * Commands are read where they lie: command `k` is everything from its offset on,
 * because the tool unpacks fields there whatever size the command claims.
 */
module MachoFlatten {
  import opened Bytes
  import opened MachoCommands

  const MAGIC_64: nat := 0xfeedfacf
  const TEXT: Bytes := [0x5f, 0x5f, 0x54, 0x45, 0x58, 0x54]
  const LINKEDIT: Bytes := [0x5f, 0x5f, 0x4c, 0x49, 0x4e, 0x4b, 0x45, 0x44, 0x49, 0x54]

  function Tail(b: Bytes, off: nat): Bytes {
    if off <= |b| then b[off..] else []
  }

  function CmdOff(b: Bytes, k: nat): nat {
    if k == 0 then 32 else CmdOff(b, k - 1) + Int(b, CmdOff(b, k - 1) + 4, 4)
  }

  function CmdAt(b: Bytes, k: nat): Bytes {
    Tail(b, CmdOff(b, k))
  }

  function Count(b: Bytes): nat {
    Int(b, 16, 4)
  }

  lemma TailField(b: Bytes, off: nat, o: nat, n: nat)
    ensures Int(Tail(b, off), o, n) == Int(b, off + o, n)
  {
    assert ReadAt(Tail(b, off), o, n) == ReadAt(b, off + o, n);
  }

  // ----- segments -----

  /** A name without its trailing NULs. */
  function Stripped(name: Bytes): Bytes {
    if name != [] && name[|name| - 1] == 0 then Stripped(name[..|name| - 1]) else name
  }

  lemma {:induction false} StrippedOf(name: Bytes, n: nat)
    requires name != [] && name[|name| - 1] != 0
    ensures Stripped(name + Zeros(n)) == name
  {
    if n == 0 {
      assert name + Zeros(0) == name;
    } else {
      StrippedOf(name, n - 1);
      assert (name + Zeros(n))[..|name| + n - 1] == name + Zeros(n - 1);
    }
  }

  predicate IsSegment(c: Bytes) {
    Cmd(c) == SEGMENT_64
  }

  predicate Named(c: Bytes, name: Bytes) {
    IsSegment(c) && Stripped(SegName(c)) == name
  }

  /** The segment is part of the memory image. */
  predicate Kept(c: Bytes, base: nat) {
    IsSegment(c) && VmAddr(c) >= base
  }

  predicate Copies(c: Bytes, base: nat) {
    Kept(c, base) && FileSize(c) > 0
  }

  function MemOff(c: Bytes, base: nat): nat
    requires VmAddr(c) >= base
  {
    VmAddr(c) - base
  }

  /** The first `k` commands unpack: a head each, and 56 bytes where it is a segment. */
  predicate Scannable(raw: Bytes, k: nat) {
    k == 0 || (Scannable(raw, k - 1) && |CmdAt(raw, k - 1)| >= 8 &&
               (IsSegment(CmdAt(raw, k - 1)) ==> |CmdAt(raw, k - 1)| >= 56))
  }

  /** The first `__TEXT` segment among commands `k..n`; `n` when there is none. */
  function FindText(raw: Bytes, k: nat, n: nat): (t: nat)
    requires k <= n
    ensures k <= t <= n
    decreases n - k
  {
    if k == n || Named(CmdAt(raw, k), TEXT) then k else FindText(raw, k + 1, n)
  }

  lemma {:induction false} FindTextFirst(raw: Bytes, k: nat, n: nat)
    requires k <= n
    ensures FindText(raw, k, n) < n ==> Named(CmdAt(raw, FindText(raw, k, n)), TEXT)
    ensures forall j :: k <= j < FindText(raw, k, n) ==> !Named(CmdAt(raw, j), TEXT)
    decreases n - k
  {
    hide CmdAt, Named;
    if k < n && !Named(CmdAt(raw, k), TEXT) {
      FindTextFirst(raw, k + 1, n);
    }
  }

  function MaxEnd(raw: Bytes, base: nat, k: nat): nat {
    if k == 0 then 0
    else
      var m, c := MaxEnd(raw, base, k - 1), CmdAt(raw, k - 1);
      if Kept(c, base) && MemOff(c, base) + VmSize(c) > m then MemOff(c, base) + VmSize(c) else m
  }

  /** `mem` with the file contents of the kept segments among the first `k` commands copied in. */
  function Copied(raw: Bytes, base: nat, mem: Bytes, k: nat): Bytes {
    if k == 0 then mem
    else
      var m, c := Copied(raw, base, mem, k - 1), CmdAt(raw, k - 1);
      if Copies(c, base) then SliceAssign(m, MemOff(c, base), FileSize(c), ReadAt(raw, FileOff(c), FileSize(c))) else m
  }

  function Memory(raw: Bytes, base: nat): Bytes {
    Copied(raw, base, Zeros(MaxEnd(raw, base, Count(raw))), Count(raw))
  }

  // ----- link-edit displacement -----

  datatype Link = NoLink | Link(was: nat, now: int)

  function LastLink(raw: Bytes, base: nat, k: nat): Link {
    if k == 0 then NoLink
    else
      var c := CmdAt(raw, k - 1);
      if Named(c, LINKEDIT) then Link(FileOff(c), VmAddr(c) - base) else LastLink(raw, base, k - 1)
  }

  function Displacement(l: Link): int {
    if l.Link? && l.was != 0 && l.now != 0 then l.now - l.was else 0
  }

  function Delta(raw: Bytes, base: nat): int {
    Displacement(LastLink(raw, base, Count(raw)))
  }

  // ----- rewriting the header in place -----

  datatype Pass = Stopped | At(buf: Bytes, off: nat)

  function RewriteAt(b: Bytes, off: nat, base: nat, delta: int): Pass {
    var c := Tail(b, off);
    if Holds(c, base) && OffsetsFit(c, base, delta) then At(b[..off] + Rewrite(c, base, delta), off + Int(c, 4, 4)) else Stopped
  }

  function Rewritten(buf: Bytes, base: nat, delta: int, k: nat): Pass {
    if k == 0 then At(buf, 32)
    else
      match Rewritten(buf, base, delta, k - 1)
      case Stopped => Stopped
      case At(b, off) => RewriteAt(b, off, base, delta)
  }

  // ----- the whole tool -----

  datatype Outcome = Refused | Flat(image: Bytes)

  predicate Readable(raw: Bytes) {
    && |raw| >= 32 && Int(raw, 0, 4) == MAGIC_64
    && Scannable(raw, Count(raw))
    && FindText(raw, 0, Count(raw)) < Count(raw)
  }

  function Base(raw: Bytes): nat {
    VmAddr(CmdAt(raw, FindText(raw, 0, Count(raw))))
  }

  function Flattened(raw: Bytes): Outcome {
    if !Readable(raw) then Refused
    else
      var base := Base(raw);
      match Rewritten(Memory(raw, base), base, Delta(raw, base), Count(raw))
      case Stopped => Refused
      case At(image, _) => Flat(image)
  }

  lemma {:induction false} ScannableHas(raw: Bytes, n: nat, k: nat)
    requires Scannable(raw, n) && k < n
    ensures |CmdAt(raw, k)| >= 8 && (IsSegment(CmdAt(raw, k)) ==> |CmdAt(raw, k)| >= 56)
    decreases n
  {
    hide Int, CmdAt;
    if k < n - 1 {
      ScannableHas(raw, n - 1, k);
    }
  }

  /** Where the next command starts, as the loops compute it. */
  lemma NextOffset(b: Bytes, k: nat)
    ensures CmdOff(b, k + 1) == CmdOff(b, k) + Int(CmdAt(b, k), 4, 4)
  {
    TailField(b, CmdOff(b, k), 4, 4);
  }

  /** Base detection: the address of the first `__TEXT` segment. */
  method DetectBase(raw: Bytes) returns (found: bool, base: nat)
    requires |raw| >= 32
    ensures Readable(raw) ==> found && base == Base(raw)
    ensures !found ==> !Scannable(raw, Count(raw)) || FindText(raw, 0, Count(raw)) == Count(raw)
    ensures found ==> FindText(raw, 0, Count(raw)) < Count(raw) && base == Base(raw)
  {
    hide Int, Stripped;
    var n, off, k := Count(raw), 32, 0;
    found, base := false, 0;
    while k < n
      invariant k <= n && off == CmdOff(raw, k)
      invariant FindText(raw, 0, n) == FindText(raw, k, n)
    {
      var c := Tail(raw, off);
      if |c| < 8 {
        if Scannable(raw, n) {
          ScannableHas(raw, n, k);
        }
        return;
      }
      if Named(c, TEXT) {
        if |c| < 32 {
          if Scannable(raw, n) {
            ScannableHas(raw, n, k);
          }
          return;
        }
        found, base := true, VmAddr(c);
        return;
      }
      NextOffset(raw, k);
      off, k := off + Int(c, 4, 4), k + 1;
    }
  }

  /** The end of the highest kept segment. */
  method MeasureMemory(raw: Bytes, base: nat) returns (ok: bool, end: nat)
    ensures ok ==> end == MaxEnd(raw, base, Count(raw))
    ensures Scannable(raw, Count(raw)) ==> ok
  {
    hide Int;
    var n, off, k := Count(raw), 32, 0;
    ok, end := true, 0;
    while k < n
      invariant k <= n && off == CmdOff(raw, k) && end == MaxEnd(raw, base, k)
    {
      var c := Tail(raw, off);
      if |c| < 8 || (IsSegment(c) && |c| < 40) {
        if Scannable(raw, n) {
          ScannableHas(raw, n, k);
        }
        return false, 0;
      }
      if IsSegment(c) && VmAddr(c) >= base {
        var memOff := VmAddr(c) - base;
        if memOff + VmSize(c) > end {
          end := memOff + VmSize(c);
        }
      }
      NextOffset(raw, k);
      off, k := off + Int(c, 4, 4), k + 1;
    }
  }

  method CopySegments(raw: Bytes, base: nat, end: nat) returns (ok: bool, buf: Bytes)
    ensures ok == Scannable(raw, Count(raw))
    ensures ok ==> buf == Copied(raw, base, Zeros(end), Count(raw))
  {
    hide Int;
    var n, off, k := Count(raw), 32, 0;
    ok, buf := true, Zeros(end);
    while k < n
      invariant k <= n && off == CmdOff(raw, k) && Scannable(raw, k)
      invariant buf == Copied(raw, base, Zeros(end), k)
    {
      var c := Tail(raw, off);
      if |c| < 8 || (IsSegment(c) && |c| < 56) {
        if Scannable(raw, n) {
          ScannableHas(raw, n, k);
        }
        return false, [];
      }
      if IsSegment(c) && VmAddr(c) >= base && FileSize(c) > 0 {
        buf := SliceAssign(buf, VmAddr(c) - base, FileSize(c), ReadAt(raw, FileOff(c), FileSize(c)));
      }
      NextOffset(raw, k);
      off, k := off + Int(c, 4, 4), k + 1;
    }
  }

  method FindDelta(raw: Bytes, base: nat) returns (delta: int)
    ensures delta == Delta(raw, base)
  {
    hide Int, Stripped;
    var n, off, k := Count(raw), 32, 0;
    var link := NoLink;
    while k < n
      invariant k <= n && off == CmdOff(raw, k) && link == LastLink(raw, base, k)
    {
      var c := Tail(raw, off);
      if Named(c, LINKEDIT) {
        link := Link(FileOff(c), VmAddr(c) - base);
      }
      NextOffset(raw, k);
      off, k := off + Int(c, 4, 4), k + 1;
    }
    delta := Displacement(link);
  }

  // ----- rewriting one command, field by field -----

  lemma SectionAsFound(c: Bytes, base: nat, v: nat, s: nat)
    requires 72 <= |c| && SectionEnd(s + 1) <= |c|
    ensures var d := Put(c, 40, v, 8);
            var r := MoveSections(d, base, s);
            SectionAddr(r, s) == SectionAddr(c, s) && SectionOffset(r, s) == SectionOffset(c, s)
  {
    hide Int, Put, MoveSections;
    var d := Put(c, 40, v, 8);
    PutOther(c, 40, v, 8, SectionStart(s) + 32, 8);
    PutOther(c, 40, v, 8, SectionStart(s) + 48, 4);
    assert SectionStart(s) + 32 + 8 <= SectionStart(s) + 48;
    SectionsKeep(d, base, s, SectionStart(s) + 32, 8);
    SectionsUntouched(d, base, s, s);
  }

  method RewriteSegment(c: Bytes, base: nat, delta: int) returns (ok: bool, r: Bytes)
    requires IsSegment(c)
    ensures ok == (Holds(c, base) && OffsetsFit(c, base, delta))
    ensures ok ==> r == Rewrite(c, base, delta)
  {
    hide Int, Put;
    if |c| < 72 {
      return false, [];
    }
    if VmAddr(c) < base {
      return true, c;
    }
    var n, s := SectionCount(c), 0;
    r := Put(c, 40, VmAddr(c) - base, 8);
    ghost var d := r;
    while s < n
      invariant s <= n && SectionEnd(s) <= |c| && r == MoveSections(d, base, s)
      invariant forall t :: 0 <= t < s && Moves(c, base, t) ==> SectionAddr(c, t) - base < 0x1_0000_0000
    {
      if SectionStart(s) + 52 > |c| {
        return false, [];
      }
      SectionAsFound(c, base, VmAddr(c) - base, s);
      if SectionOffset(r, s) != 0 && SectionAddr(r, s) >= base {
        var moved := SectionAddr(r, s) - base;
        if moved >= 0x1_0000_0000 {
          return false, [];
        }
        r := Put(r, SectionStart(s) + 48, moved, 4);
      }
      s := s + 1;
    }
    ok := true;
  }

  /** The six offsets of a dynamic symbol table command, `k` of them done. */
  function ShiftedTo(c: Bytes, delta: int, k: nat): (r: Bytes)
    requires |c| >= 80 && k <= 6
    ensures |r| == |c|
  {
    if k == 0 then c else ShiftIfSet(ShiftedTo(c, delta, k - 1), 32 + 8 * (k - 1), delta)
  }

  lemma {:induction false} ShiftedAhead(c: Bytes, delta: int, k: nat, j: nat)
    requires |c| >= 80 && k <= j < 6
    ensures Int(ShiftedTo(c, delta, k), 32 + 8 * j, 4) == Int(c, 32 + 8 * j, 4)
    decreases k
  {
    hide Int, ShiftIfSet;
    if k > 0 {
      ShiftedAhead(c, delta, k - 1, j);
      ShiftOther(ShiftedTo(c, delta, k - 1), 32 + 8 * (k - 1), delta, 32 + 8 * j, 4);
    }
  }

  lemma ShiftedAll(c: Bytes, base: nat, delta: int)
    requires Cmd(c) == DYSYMTAB && |c| >= 80
    ensures ShiftedTo(c, delta, 6) == Rewrite(c, base, delta)
  {
    hide Int, ShiftIfSet;
    assert ShiftedTo(c, delta, 1) == ShiftIfSet(c, 32, delta);
    assert ShiftedTo(c, delta, 2) == ShiftIfSet(ShiftedTo(c, delta, 1), 40, delta);
    assert ShiftedTo(c, delta, 3) == ShiftIfSet(ShiftedTo(c, delta, 2), 48, delta);
    assert ShiftedTo(c, delta, 4) == ShiftIfSet(ShiftedTo(c, delta, 3), 56, delta);
    assert ShiftedTo(c, delta, 5) == ShiftIfSet(ShiftedTo(c, delta, 4), 64, delta);
  }

  lemma {:induction false} ShiftedBehind(c: Bytes, delta: int, k: nat, j: nat)
    requires |c| >= 80 && j < k <= 6 && (Int(c, 32 + 8 * j, 4) != 0 ==> Shifts(c, 32 + 8 * j, delta))
    ensures Int(ShiftedTo(c, delta, k), 32 + 8 * j, 4) ==
            if Int(c, 32 + 8 * j, 4) == 0 then 0 else Int(c, 32 + 8 * j, 4) + delta
    decreases k
  {
    hide Int, Shift;
    var d := ShiftedTo(c, delta, k - 1);
    if j < k - 1 {
      ShiftedBehind(c, delta, k - 1, j);
      ShiftOther(d, 32 + 8 * (k - 1), delta, 32 + 8 * j, 4);
    } else {
      ShiftedAhead(c, delta, k - 1, j);
      if Int(c, 32 + 8 * j, 4) != 0 {
        ShiftRead(d, 32 + 8 * j, delta);
      }
    }
  }

  /** Each of the six table offsets that is set moves with the link-edit data. */
  lemma DysymtabOutcome(c: Bytes, base: nat, delta: int, j: nat)
    requires Cmd(c) == DYSYMTAB && Holds(c, base) && OffsetsFit(c, base, delta) && j < 6
    ensures Int(Rewrite(c, base, delta), 32 + 8 * j, 4) ==
            if Int(c, 32 + 8 * j, 4) == 0 then 0 else Int(c, 32 + 8 * j, 4) + delta
  {
    hide Int, ShiftIfSet, ShiftedTo, Rewrite, Shifts;
    assert 32 + 8 * j in {32, 40, 48, 56, 64, 72};
    ShiftedBehind(c, delta, 6, j);
    ShiftedAll(c, base, delta);
  }

  method RewriteDysymtab(c: Bytes, base: nat, delta: int) returns (ok: bool, r: Bytes)
    requires Cmd(c) == DYSYMTAB
    ensures ok == (Holds(c, base) && OffsetsFit(c, base, delta))
    ensures ok ==> r == Rewrite(c, base, delta)
  {
    hide Int, Shift, ShiftIfSet;
    if |c| < 80 {
      return false, [];
    }
    var k := 0;
    r := c;
    while k < 6
      invariant k <= 6 && r == ShiftedTo(c, delta, k)
      invariant forall j :: 0 <= j < k && Int(c, 32 + 8 * j, 4) != 0 ==> Shifts(c, 32 + 8 * j, delta)
    {
      ShiftedAhead(c, delta, k, k);
      if Int(r, 32 + 8 * k, 4) != 0 && !(0 <= Int(r, 32 + 8 * k, 4) + delta < 0x1_0000_0000) {
        assert 32 + 8 * k in {32, 40, 48, 56, 64, 72};
        return false, [];
      }
      r := ShiftIfSet(r, 32 + 8 * k, delta);
      k := k + 1;
    }
    ShiftedAll(c, base, delta);
    forall o: nat | o in {32, 40, 48, 56, 64, 72} && Int(c, o, 4) != 0 ensures Shifts(c, o, delta) {
      var j := (o - 32) / 8;
      assert o == 32 + 8 * j;
    }
    ok := true;
  }

  method RewriteCommand(c: Bytes, base: nat, delta: int) returns (ok: bool, r: Bytes)
    ensures ok == (Holds(c, base) && OffsetsFit(c, base, delta))
    ensures ok ==> r == Rewrite(c, base, delta)
  {
    hide Int, Put;
    if |c| < 8 {
      return false, [];
    }
    if IsSegment(c) {
      ok, r := RewriteSegment(c, base, delta);
    } else if Cmd(c) == SYMTAB {
      if |c| < 24 || !Shifts(c, 8, delta) || !Shifts(c, 16, delta) {
        return false, [];
      }
      var strings := Int(c, 16, 4);
      r := Put(c, 8, Int(c, 8, 4) + delta, 4);
      PutOther(c, 8, Int(c, 8, 4) + delta, 4, 16, 4);
      r := Put(r, 16, strings + delta, 4);
      ok := true;
    } else if Cmd(c) == DYSYMTAB {
      ok, r := RewriteDysymtab(c, base, delta);
    } else if IsLinkeditData(Cmd(c)) {
      if |c| < 16 || (Int(c, 8, 4) != 0 && !Shifts(c, 8, delta)) {
        return false, [];
      }
      r := if Int(c, 8, 4) != 0 then Put(c, 8, Int(c, 8, 4) + delta, 4) else c;
      ok := true;
    } else {
      ok, r := true, c;
    }
  }

  lemma {:induction false} StoppedStays(buf: Bytes, base: nat, delta: int, k: nat, n: nat)
    requires Rewritten(buf, base, delta, k).Stopped? && k <= n
    ensures Rewritten(buf, base, delta, n).Stopped?
    decreases n
  {
    hide RewriteAt;
    if k < n {
      StoppedStays(buf, base, delta, k, n - 1);
    }
  }

  method RewriteHeader(mem: Bytes, base: nat, delta: int, n: nat) returns (r: Outcome)
    ensures r == match Rewritten(mem, base, delta, n) case Stopped => Refused case At(b, _) => Flat(b)
  {
    hide Int, OffsetsFit, Rewrite;
    var buf, off: nat, k := mem, 32, 0;
    while k < n
      invariant k <= n && Rewritten(mem, base, delta, k) == At(buf, off)
    {
      var c := Tail(buf, off);
      var ok, d := RewriteCommand(c, base, delta);
      if !ok {
        StoppedStays(mem, base, delta, k + 1, n);
        return Refused;
      }
      assert off <= |buf|;
      buf, off, k := buf[..off] + d, off + Int(c, 4, 4), k + 1;
    }
    r := Flat(buf);
  }

  /** The tool: refuses exactly the files it cannot unpack, and otherwise writes the flattened image. */
  method Flatten(raw: Bytes) returns (r: Outcome)
    ensures r == Flattened(raw)
  {
    hide Int, Scannable, FindText, Copied, Rewritten, MaxEnd;
    if |raw| < 32 || Int(raw, 0, 4) != MAGIC_64 {
      return Refused;
    }
    var found, base := DetectBase(raw);
    if !found {
      return Refused;
    }
    var ok, end := MeasureMemory(raw, base);
    if !ok {
      return Refused;
    }
    var mem;
    ok, mem := CopySegments(raw, base, end);
    if !ok {
      return Refused;
    }
    var delta := FindDelta(raw, base);
    r := RewriteHeader(mem, base, delta, Count(raw));
  }
}
