/** The flattened image of a well-formed kernel, byte for byte, at the offsets of the Mach-O format. */
module MachoBytes {
  import opened Bytes
  import opened MachoCommands
  import opened MachoFlatten
  import opened MachoImage
  import opened MachoTheorems

  // ----- where the commands start -----

  /** `at` lists where the load commands start, and behind them where the last one ends. */
  predicate Starts(raw: Bytes, at: seq<nat>) {
    && |at| == Int(raw, 16, 4) + 1 && at[0] == 32
    && forall k :: 0 <= k < |at| - 1 ==> at[k + 1] == at[k] + Int(raw, at[k] + 4, 4)
  }

  lemma {:induction false} StartIs(raw: Bytes, at: seq<nat>, k: nat)
    requires Starts(raw, at) && k < |at|
    ensures CmdOff(raw, k) == at[k]
  {
    hide Int;
    if k > 0 {
      StartIs(raw, at, k - 1);
      assert at[(k - 1) + 1] == at[k - 1] + Int(raw, at[k - 1] + 4, 4);
    }
  }

  /** Every file has such a list. */
  lemma StartsExist(raw: Bytes) returns (at: seq<nat>)
    ensures Starts(raw, at)
  {
    at := seq(Count(raw) + 1, k requires 0 <= k <= Count(raw) => CmdOff(raw, k));
  }

  // ----- names -----

  lemma {:induction false} StrippedIs(name: Bytes)
    ensures |Stripped(name)| <= |name| && name == Stripped(name) + Zeros(|name| - |Stripped(name)|)
  {
    if name != [] && name[|name| - 1] == 0 {
      var less := name[..|name| - 1];
      StrippedIs(less);
      assert Zeros(|name| - |Stripped(name)|) == Zeros(|less| - |Stripped(less)|) + [0];
    }
  }

  /** A segment command at `o` with the given padded name. */
  predicate SegmentNamed(raw: Bytes, o: nat, name: Bytes) {
    Int(raw, o, 4) == 0x19 && o + 24 <= |raw| && raw[o + 8..o + 24] == name
  }

  lemma NamedIff(raw: Bytes, o: nat, name: Bytes)
    requires name != [] && name[|name| - 1] != 0 && |name| <= 16
    requires Int(raw, o, 4) == 0x19 ==> o + 24 <= |raw|
    ensures Named(Tail(raw, o), name) <==> SegmentNamed(raw, o, name + Zeros(16 - |name|))
  {
    hide Int, Stripped, SegName, Tail;
    TailField(raw, o, 0, 4);
    if Int(raw, o, 4) == 0x19 {
      SegNameIs(raw, o);
      StrippedIs(raw[o + 8..o + 24]);
      StrippedOf(name, 16 - |name|);
    }
  }

  lemma SegNameIs(raw: Bytes, o: nat)
    requires o + 24 <= |raw|
    ensures SegName(Tail(raw, o)) == raw[o + 8..o + 24]
  {
    SliceSlice(raw, o, |raw|, 8, 24);
  }

  const TEXT_16: Bytes := [0x5f, 0x5f, 0x54, 0x45, 0x58, 0x54, 0, 0, 0, 0, 0, 0, 0, 0, 0, 0]
  const LINKEDIT_16: Bytes := [0x5f, 0x5f, 0x4c, 0x49, 0x4e, 0x4b, 0x45, 0x44, 0x49, 0x54, 0, 0, 0, 0, 0, 0]

  lemma CommandNamed(raw: Bytes, at: seq<nat>, k: nat)
    requires Readable(raw) && Starts(raw, at) && k < |at| - 1
    ensures Named(CmdAt(raw, k), TEXT) <==> SegmentNamed(raw, at[k], TEXT_16)
    ensures Named(CmdAt(raw, k), LINKEDIT) <==> SegmentNamed(raw, at[k], LINKEDIT_16)
  {
    hide Int, CmdOff, Stripped, Starts, Scannable, FindText;
    StartIs(raw, at, k);
    CountIs(raw, at);
    ScannableHas(raw, Count(raw), k);
    TailField(raw, at[k], 0, 4);
    assert TEXT + Zeros(10) == TEXT_16 && LINKEDIT + Zeros(6) == LINKEDIT_16;
    NamedIff(raw, at[k], TEXT);
    NamedIff(raw, at[k], LINKEDIT);
  }

  lemma CountIs(raw: Bytes, at: seq<nat>)
    requires Starts(raw, at)
    ensures Count(raw) == |at| - 1
  {
  }

  // ----- base and displacement -----

  /** The base is the address of the first segment named `__TEXT`. */
  ghost predicate BaseIs(raw: Bytes, at: seq<nat>, base: nat) {
    exists t :: && 0 <= t < |at| - 1 && SegmentNamed(raw, at[t], TEXT_16) && base == Int(raw, at[t] + 24, 8)
                && forall j :: 0 <= j < t ==> !SegmentNamed(raw, at[j], TEXT_16)
  }

  lemma BaseFound(raw: Bytes, at: seq<nat>)
    requires Readable(raw) && Starts(raw, at)
    ensures BaseIs(raw, at, Base(raw))
    ensures forall base :: BaseIs(raw, at, base) ==> base == Base(raw)
  {
    hide Int, CmdOff, Stripped, Scannable, Named, SegmentNamed;
    var n := Count(raw);
    var t := FindText(raw, 0, n);
    FindTextFirst(raw, 0, n);
    forall k | 0 <= k < n ensures Named(CmdAt(raw, k), TEXT) <==> SegmentNamed(raw, at[k], TEXT_16) {
      CommandNamed(raw, at, k);
    }
    StartIs(raw, at, t);
    TailField(raw, at[t], 24, 8);
    assert SegmentNamed(raw, at[t], TEXT_16);
  }

  /** Segment `t` is the last one named `__LINKEDIT`. */
  predicate LinkeditIs(raw: Bytes, at: seq<nat>, t: nat) {
    && t < |at| - 1 && SegmentNamed(raw, at[t], LINKEDIT_16)
    && forall j :: t < j < |at| - 1 ==> !SegmentNamed(raw, at[j], LINKEDIT_16)
  }

  /** How far the segment at `o` moves; not at all when either offset is zero. */
  function DisplacementAt(raw: Bytes, o: nat, base: nat): int {
    var was, now := Int(raw, o + 40, 8), Int(raw, o + 24, 8) - base;
    if was != 0 && now != 0 then now - was else 0
  }

  /** The displacement of the last segment named `__LINKEDIT`; zero without one. */
  ghost predicate DeltaIs(raw: Bytes, at: seq<nat>, base: nat, delta: int) {
    && (forall t: nat :: LinkeditIs(raw, at, t) ==> delta == DisplacementAt(raw, at[t], base))
    && ((forall t: nat :: !LinkeditIs(raw, at, t)) ==> delta == 0)
  }

  ghost predicate LastNamed(raw: Bytes, n: nat, t: nat) {
    && t < n && Named(CmdAt(raw, t), LINKEDIT)
    && forall j :: t < j < n ==> !Named(CmdAt(raw, j), LINKEDIT)
  }

  lemma {:induction false} LastLinkIs(raw: Bytes, base: nat, n: nat, t: nat)
    ensures LastLink(raw, base, n).NoLink? ==> !LastNamed(raw, n, t)
    ensures LastNamed(raw, n, t) ==>
      LastLink(raw, base, n) == Link(FileOff(CmdAt(raw, t)), VmAddr(CmdAt(raw, t)) - base)
  {
    hide Int, CmdOff, Stripped, CmdAt, Named;
    if n > 0 && !Named(CmdAt(raw, n - 1), LINKEDIT) {
      LastLinkIs(raw, base, n - 1, t);
      assert LastNamed(raw, n, t) ==> LastNamed(raw, n - 1, t);
    }
  }

  lemma {:induction false} LinkedBy(raw: Bytes, base: nat, n: nat) returns (t: nat)
    requires LastLink(raw, base, n).Link?
    ensures LastNamed(raw, n, t)
  {
    hide Int, CmdOff, Stripped, CmdAt, Named;
    if Named(CmdAt(raw, n - 1), LINKEDIT) {
      t := n - 1;
    } else {
      t := LinkedBy(raw, base, n - 1);
    }
  }

  lemma LinkeditAt(raw: Bytes, at: seq<nat>, base: nat, t: nat)
    requires Readable(raw) && Starts(raw, at)
    ensures LinkeditIs(raw, at, t) <==> LastNamed(raw, Count(raw), t)
    ensures LastNamed(raw, Count(raw), t) ==>
      DisplacementAt(raw, at[t], base) == Displacement(Link(FileOff(CmdAt(raw, t)), VmAddr(CmdAt(raw, t)) - base))
  {
    hide Int, CmdOff, CmdAt, Named, SegmentNamed, Readable, Starts;
    CountIs(raw, at);
    forall k | 0 <= k < Count(raw) ensures Named(CmdAt(raw, k), LINKEDIT) <==> SegmentNamed(raw, at[k], LINKEDIT_16) {
      CommandNamed(raw, at, k);
    }
    if t < Count(raw) {
      StartIs(raw, at, t);
      CmdAtField(raw, t, 24, 8);
      CmdAtField(raw, t, 40, 8);
    }
  }

  lemma DeltaFound(raw: Bytes, at: seq<nat>, base: nat)
    requires Readable(raw) && Starts(raw, at)
    ensures DeltaIs(raw, at, base, Delta(raw, base))
    ensures forall delta :: DeltaIs(raw, at, base, delta) ==> delta == Delta(raw, base)
  {
    hide Int, LastNamed, SegmentNamed, LastLink, Displacement, Readable, Starts, DisplacementAt, CmdAt;
    var n := Count(raw);
    forall t: nat ensures LinkeditIs(raw, at, t) ==> Delta(raw, base) == DisplacementAt(raw, at[t], base) {
      LinkeditAt(raw, at, base, t);
      LastLinkIs(raw, base, n, t);
    }
    if LastLink(raw, base, n).Link? {
      var t := LinkedBy(raw, base, n);
      LinkeditAt(raw, at, base, t);
      assert LinkeditIs(raw, at, t);
    } else {
      forall t: nat ensures !LinkeditIs(raw, at, t) {
        LinkeditAt(raw, at, base, t);
        LastLinkIs(raw, base, n, t);
      }
      NoDisplacement();
    }
  }

  lemma NoDisplacement()
    ensures Displacement(NoLink) == 0
  {
  }

  // ----- the rewritten commands -----

  /** A well-formed kernel, the image the tool writes for it, and what its commands say. */
  ghost predicate Flattens(raw: Bytes, img: Bytes, at: seq<nat>, base: nat, delta: int) {
    && WellFormed(raw) && Flattened(raw) == Flat(img) && Starts(raw, at)
    && BaseIs(raw, at, base) && DeltaIs(raw, at, base, delta)
  }

  /** Every well-formed kernel has an image, and the list of its commands determines base and displacement. */
  lemma EveryKernel(raw: Bytes) returns (img: Bytes, at: seq<nat>, base: nat, delta: int)
    requires WellFormed(raw)
    ensures Flattens(raw, img, at, base, delta)
  {
    hide Int, Image, Flattened, Readable, CommandsOk, SegmentsOk, TextHoldsHeader, Base, Delta, BaseIs, DeltaIs, Starts;
    hide StartsRewritten, HeaderEnd, MaxEnd, Memory;
    at := StartsExist(raw);
    img, base := Image(raw), Base(raw);
    delta := Delta(raw, base);
    FlattenedIs(raw);
    BaseFound(raw, at);
    DeltaFound(raw, at, base);
  }

  lemma Setting(raw: Bytes, img: Bytes, at: seq<nat>, base: nat, delta: int)
    requires Flattens(raw, img, at, base, delta)
    ensures WellFormed(raw) && Starts(raw, at)
    ensures img == Image(raw) && base == Base(raw) && delta == Delta(raw, base) && |at| - 1 == Count(raw)
    ensures StartsRewritten(raw, img, base, delta, Count(raw))
    ensures CmdOff(raw, Count(raw)) <= |raw| && CmdOff(raw, Count(raw)) == HeaderEnd(raw) <= |img|
  {
    hide Int, CmdOff, Image, Flattened, SegmentsOk, TextHoldsHeader, Readable, Base, Delta, Header, Holds, OffsetsFit;
    hide BaseIs, DeltaIs, Command;
    BaseFound(raw, at);
    DeltaFound(raw, at, base);
    FlattenedIs(raw);
    CountIs(raw, at);
  }

  lemma CommandField(b: Bytes, n: nat, k: nat, o: nat, w: nat)
    requires CmdOff(b, n) <= |b| && k < n && o + w <= |Command(b, k)|
    ensures Int(Command(b, k), o, w) == Int(b, CmdOff(b, k) + o, w)
  {
    hide Int, CmdOff, Command, CmdAt;
    var rest := CommandLeads(b, n, k);
    FieldExtends(Command(b, k), rest, o, w);
    CmdAtField(b, k, o, w);
  }

  lemma CmdAtField(b: Bytes, k: nat, o: nat, w: nat)
    ensures Int(CmdAt(b, k), o, w) == Int(b, CmdOff(b, k) + o, w)
  {
    TailField(b, CmdOff(b, k), o, w);
  }

  /** Command `k` of the file and of the image: same place, same length, one the rewriting of the other. */
  lemma Pair(raw: Bytes, img: Bytes, at: seq<nat>, base: nat, delta: int, k: nat) returns (c: Bytes, d: Bytes)
    requires Flattens(raw, img, at, base, delta) && k < |at| - 1
    ensures at[k] <= at[k + 1] <= |raw| && at[k + 1] <= |img|
    ensures c == raw[at[k]..at[k + 1]] && d == img[at[k]..at[k + 1]] && |c| >= 8
    ensures Holds(c, base) && OffsetsFit(c, base, delta) && d == Rewrite(c, base, delta)
    ensures forall o: nat, w: nat :: o + w <= |c| ==>
              Int(c, o, w) == Int(raw, at[k] + o, w) && Int(d, o, w) == Int(img, at[k] + o, w)
  {
    hide Int, CmdOff, Command, Rewrite, Holds, OffsetsFit, Header, Flattens, Image, Base, Delta;
    Setting(raw, img, at, base, delta);
    var n := Count(raw);
    CommandRewritten(raw, img, base, delta, n, k);
    OffsetsKept(raw, img, base, delta, n, n);
    c, d := Command(raw, k), Command(img, k);
    PairPlace(raw, img, at, base, delta, k);
    HoldsHead(c, base);
    forall o: nat, w: nat | o + w <= |c|
      ensures Int(c, o, w) == Int(raw, at[k] + o, w) && Int(d, o, w) == Int(img, at[k] + o, w)
    {
      CommandField(raw, n, k, o, w);
      CommandField(img, n, k, o, w);
    }
  }

  lemma HoldsHead(c: Bytes, base: nat)
    requires Holds(c, base)
    ensures |c| >= 8
  {
  }

  lemma PairPlace(raw: Bytes, img: Bytes, at: seq<nat>, base: nat, delta: int, k: nat)
    requires Starts(raw, at) && k < |at| - 1 && StartsRewritten(raw, img, base, delta, Count(raw))
    requires CmdOff(raw, Count(raw)) <= |raw| && CmdOff(raw, Count(raw)) <= |img|
    ensures at[k] <= at[k + 1] <= |raw| && at[k + 1] <= |img|
    ensures Command(raw, k) == raw[at[k]..at[k + 1]] && Command(img, k) == img[at[k]..at[k + 1]]
    ensures CmdOff(raw, k) == at[k] == CmdOff(img, k)
  {
    hide Int, CmdOff, Command, Header, Holds, OffsetsFit;
    var n := Count(raw);
    CountIs(raw, at);
    StartIs(raw, at, k);
    StartIs(raw, at, k + 1);
    OffsetsKept(raw, img, base, delta, n, k);
    OffsetsKept(raw, img, base, delta, n, k + 1);
    OffsetsKept(raw, img, base, delta, n, n);
    CommandSlice(raw, n, k);
    CommandSlice(img, n, k);
  }

  /** A kept segment's file offset is its distance from the base; any other segment keeps its own. */
  lemma SegmentOffset(raw: Bytes, img: Bytes, at: seq<nat>, base: nat, delta: int, k: nat)
    requires Flattens(raw, img, at, base, delta) && k < |at| - 1 && Int(raw, at[k], 4) == 0x19
    ensures Int(img, at[k] + 40, 8) ==
            if Int(raw, at[k] + 24, 8) >= base then Int(raw, at[k] + 24, 8) - base else Int(raw, at[k] + 40, 8)
  {
    hide Int, Flattens, OffsetsFit, MoveSegment;
    var c, d := Pair(raw, img, at, base, delta, k);
    assert Cmd(c) == Int(raw, at[k] + 0, 4);
    SegmentMoved(c, base);
    assert VmAddr(c) == Int(raw, at[k] + 24, 8) && FileOff(c) == Int(raw, at[k] + 40, 8);
    assert FileOff(d) == Int(img, at[k] + 40, 8);
  }

  /** Section `s` of a kept segment: it has a place in the image. */
  predicate SectionMoves(raw: Bytes, o: nat, base: nat, s: nat) {
    Int(raw, o + 120 + 80 * s, 4) != 0 && Int(raw, o + 104 + 80 * s, 8) >= base
  }

  /** The section headers of a kept segment; a count with its sign bit set means none. */
  predicate HasSection(raw: Bytes, o: nat, base: nat, s: nat) {
    Int(raw, o, 4) == 0x19 && Int(raw, o + 24, 8) >= base && s < Int(raw, o + 64, 4) < 0x8000_0000
  }

  lemma SectionRead(raw: Bytes, img: Bytes, at: seq<nat>, base: nat, delta: int, k: nat, s: nat)
    requires Flattens(raw, img, at, base, delta) && k < |at| - 1 && HasSection(raw, at[k], base, s)
    ensures Int(img, at[k] + 104 + 80 * s, 8) == Int(raw, at[k] + 104 + 80 * s, 8)
    ensures Int(img, at[k] + 120 + 80 * s, 4) ==
            if SectionMoves(raw, at[k], base, s) then Int(raw, at[k] + 104 + 80 * s, 8) - base
            else Int(raw, at[k] + 120 + 80 * s, 4)
  {
    hide Int, Flattens, MoveSections, Put;
    var c, d := Pair(raw, img, at, base, delta, k);
    assert Cmd(c) == Int(raw, at[k] + 0, 4) && Int(c, 64, 4) == Int(raw, at[k] + 64, 4);
    assert VmAddr(c) == Int(raw, at[k] + 24, 8);
    SectionInside(c, base, s);
    assert SectionAddr(c, s) == Int(raw, at[k] + (104 + 80 * s), 8);
    assert SectionOffset(c, s) == Int(raw, at[k] + (120 + 80 * s), 4);
    assert SectionAddr(d, s) == Int(img, at[k] + (104 + 80 * s), 8);
    assert SectionOffset(d, s) == Int(img, at[k] + (120 + 80 * s), 4);
    var v := VmAddr(c) - base;
    var e := Put(c, 40, v, 8);
    PutOther(c, 40, v, 8, SectionStart(s) + 32, 8);
    PutOther(c, 40, v, 8, SectionStart(s) + 48, 4);
    SectionOutcome(e, base, SectionCount(c), s);
  }

  lemma SectionInside(c: Bytes, base: nat, s: nat)
    requires Holds(c, base) && Cmd(c) == 0x19 && VmAddr(c) >= base && s < Int(c, 64, 4) < 0x8000_0000
    ensures 124 + 80 * s <= |c|
  {
    hide Int;
  }

  /** Field `f` of a command of type `cmd` holds the file offset of link-edit data. */
  predicate OffsetField(cmd: nat, f: nat) {
    || (cmd == 0x2 && f in {8, 16})
    || (cmd == 0xb && f in {32, 40, 48, 56, 64, 72})
    || (cmd in {0x1d, 0x1e, 0x26, 0x29, 0x80000033, 0x80000034} && f == 8)
  }

  /** The offset is displaced: always in a symbol table command, elsewhere unless it is zero. */
  predicate FieldMoves(raw: Bytes, o: nat, f: nat) {
    OffsetField(Int(raw, o, 4), f) && (Int(raw, o, 4) == 0x2 || Int(raw, o + f, 4) != 0)
  }

  lemma OffsetRead(raw: Bytes, img: Bytes, at: seq<nat>, base: nat, delta: int, k: nat, f: nat)
    requires Flattens(raw, img, at, base, delta) && k < |at| - 1 && FieldMoves(raw, at[k], f)
    ensures Int(img, at[k] + f, 4) == Int(raw, at[k] + f, 4) + delta
  {
    hide Int, Flattens, OffsetsFit, Rewrite;
    var c, d := Pair(raw, img, at, base, delta, k);
    assert Cmd(c) == Int(raw, at[k] + 0, 4);
    assert f + 4 <= |c|;
    assert Int(c, f, 4) == Int(raw, at[k] + f, 4) && Int(d, f, 4) == Int(img, at[k] + f, 4);
    PointerMoves(c, base, delta, f);
  }

  // ----- everything else in a command -----

  lemma PutByte(c: Bytes, o: nat, v: nat, n: nat, q: nat)
    requires o + n <= |c| && q < |c| && !(o <= q < o + n)
    ensures Put(c, o, v, n)[q] == c[q]
  {
  }

  lemma ShiftByte(c: Bytes, o: nat, delta: int, q: nat)
    requires o + 4 <= |c| && q < |c| && !(o <= q < o + 4)
    ensures Shift(c, o, delta)[q] == c[q] && ShiftIfSet(c, o, delta)[q] == c[q]
  {
    hide Int, Put;
    if Int(c, o, 4) + delta >= 0 {
      PutByte(c, o, Int(c, o, 4) + delta, 4, q);
    }
  }

  lemma {:induction false} SectionsByte(c: Bytes, base: nat, n: nat, q: nat)
    requires SectionEnd(n) <= |c| && q < |c|
    requires forall s :: 0 <= s < n && Moves(c, base, s) ==> !(SectionStart(s) + 48 <= q < SectionStart(s) + 52)
    ensures MoveSections(c, base, n)[q] == c[q]
  {
    hide Int, Put;
    if n > 0 {
      SectionsByte(c, base, n - 1, q);
      var d, s := MoveSections(c, base, n - 1), n - 1;
      assert SectionStart(s) + 32 + 8 <= SectionStart(s) + 48;
      SectionsKeep(c, base, s, SectionStart(s) + 32, 8);
      SectionsUntouched(c, base, s, s);
      if Moves(d, base, s) {
        assert Moves(c, base, s);
        PutByte(d, SectionStart(s) + 48, SectionAddr(d, s) - base, 4, q);
      }
    }
  }

  /** Byte `q` of the command at `o` belongs to a field the rewrite writes. */
  ghost predicate WrittenAt(raw: Bytes, o: nat, base: nat, q: nat) {
    || (Int(raw, o, 4) == 0x19 && Int(raw, o + 24, 8) >= base && 40 <= q < 48)
    || (exists s: nat :: HasSection(raw, o, base, s) && SectionMoves(raw, o, base, s) && 120 + 80 * s <= q < 124 + 80 * s)
    || (exists f: nat :: FieldMoves(raw, o, f) && f <= q < f + 4)
  }

  lemma SegmentByte(c: Bytes, base: nat, q: nat)
    requires Cmd(c) == 0x19 && Holds(c, base) && q < |c|
    requires VmAddr(c) >= base ==> !(40 <= q < 48)
    requires VmAddr(c) >= base ==>
      forall s :: 0 <= s < SectionCount(c) && Moves(c, base, s) ==> !(SectionStart(s) + 48 <= q < SectionStart(s) + 52)
    ensures MoveSegment(c, base)[q] == c[q]
  {
    hide Int, Put, MoveSections;
    if VmAddr(c) >= base {
      var v, n := VmAddr(c) - base, SectionCount(c);
      var e := Put(c, 40, v, 8);
      PutByte(c, 40, v, 8, q);
      forall s | 0 <= s < n ensures Moves(e, base, s) == Moves(c, base, s) {
        PutOther(c, 40, v, 8, SectionStart(s) + 32, 8);
        PutOther(c, 40, v, 8, SectionStart(s) + 48, 4);
      }
      SectionsByte(e, base, n, q);
    }
  }

  lemma {:induction false} DysymByte(c: Bytes, delta: int, k: nat, q: nat)
    requires |c| >= 80 && k <= 6 && q < |c|
    requires forall j :: 0 <= j < 6 && 32 + 8 * j <= q < 36 + 8 * j ==> Int(c, 32 + 8 * j, 4) == 0
    ensures ShiftedTo(c, delta, k)[q] == c[q]
  {
    hide Int, Shift;
    if k > 0 {
      DysymByte(c, delta, k - 1, q);
      var d, o := ShiftedTo(c, delta, k - 1), 32 + 8 * (k - 1);
      ShiftedAhead(c, delta, k - 1, k - 1);
      if !(o <= q < o + 4) {
        ShiftByte(d, o, delta, q);
      }
    }
  }

  lemma RewriteByte(c: Bytes, base: nat, delta: int, q: nat)
    requires Holds(c, base) && Cmd(c) != 0x19 && q < |c|
    requires forall f: nat :: OffsetField(Cmd(c), f) && f <= q < f + 4 ==> Cmd(c) != 0x2 && Int(c, f, 4) == 0
    ensures Rewrite(c, base, delta)[q] == c[q]
  {
    hide Int, Shift, ShiftedTo;
    if Cmd(c) == 0x2 {
      assert OffsetField(0x2, 8) && OffsetField(0x2, 16);
      ShiftByte(c, 8, delta, q);
      ShiftByte(Shift(c, 8, delta), 16, delta, q);
    } else if Cmd(c) == 0xb {
      forall j | 0 <= j < 6 && 32 + 8 * j <= q < 36 + 8 * j ensures Int(c, 32 + 8 * j, 4) == 0 {
        assert OffsetField(0xb, 32 + 8 * j);
      }
      DysymByte(c, delta, 6, q);
      ShiftedAll(c, base, delta);
    } else if IsLinkeditData(Cmd(c)) {
      assert OffsetField(Cmd(c), 8);
      if !(8 <= q < 12) {
        ShiftByte(c, 8, delta, q);
      }
    }
  }

  /** Every other byte of the load commands is the file's. */
  lemma ByteKept(raw: Bytes, img: Bytes, at: seq<nat>, base: nat, delta: int, k: nat, q: nat)
    requires Flattens(raw, img, at, base, delta) && k < |at| - 1 && at[k] + q < at[k + 1]
    requires !WrittenAt(raw, at[k], base, q)
    ensures at[k] + q < |raw| && at[k] + q < |img| && img[at[k] + q] == raw[at[k] + q]
  {
    hide Int, Flattens, OffsetsFit, Rewrite, MoveSegment;
    var o := at[k];
    var c, d := Pair(raw, img, at, base, delta, k);
    assert Cmd(c) == Int(raw, o + 0, 4);
    if Cmd(c) == 0x19 {
      assert VmAddr(c) == Int(raw, o + 24, 8) && Int(c, 64, 4) == Int(raw, o + 64, 4);
      if VmAddr(c) >= base {
        forall s: nat | 0 <= s < SectionCount(c) && Moves(c, base, s) ensures !(SectionStart(s) + 48 <= q < SectionStart(s) + 52) {
          SectionInside(c, base, s);
          assert SectionAddr(c, s) == Int(raw, o + (104 + 80 * s), 8);
          assert SectionOffset(c, s) == Int(raw, o + (120 + 80 * s), 4);
          assert HasSection(raw, o, base, s) && SectionMoves(raw, o, base, s);
        }
      }
      SegmentByte(c, base, q);
      SegmentRewrite(c, base, delta);
    } else {
      forall f: nat | OffsetField(Cmd(c), f) && f <= q < f + 4 ensures Cmd(c) != 0x2 && Int(c, f, 4) == 0 {
        assert f + 4 <= |c|;
        assert Int(c, f, 4) == Int(raw, o + f, 4);
        assert FieldMoves(raw, o, f) <==> Cmd(c) == 0x2 || Int(c, f, 4) != 0;
      }
      RewriteByte(c, base, delta, q);
    }
  }

  lemma SegmentRewrite(c: Bytes, base: nat, delta: int)
    requires Cmd(c) == 0x19 && Holds(c, base)
    ensures Rewrite(c, base, delta) == MoveSegment(c, base)
  {
  }

  // ----- contents -----

  /** Contents of a kept segment, behind the commands: each byte lies at its address minus the base. */
  lemma ContentsPlaced(raw: Bytes, img: Bytes, at: seq<nat>, base: nat, delta: int, k: nat, x: nat)
    requires Flattens(raw, img, at, base, delta) && k < |at| - 1
    requires Int(raw, at[k], 4) == 0x19 && Int(raw, at[k] + 24, 8) >= base && x < Int(raw, at[k] + 48, 8)
    requires Int(raw, at[k] + 24, 8) - base + x >= at[|at| - 1]
    ensures Int(raw, at[k] + 24, 8) - base + x < |img| && Int(raw, at[k] + 40, 8) + x < |raw|
    ensures img[Int(raw, at[k] + 24, 8) - base + x] == raw[Int(raw, at[k] + 40, 8) + x]
  {
    hide Int, Flattens, Image, CmdOff, WellFormed, StartsRewritten, Base, Delta;
    Setting(raw, img, at, base, delta);
    StartIs(raw, at, k);
    StartIs(raw, at, |at| - 1);
    TailField(raw, at[k], 0, 4);
    TailField(raw, at[k], 24, 8);
    TailField(raw, at[k], 40, 8);
    TailField(raw, at[k], 48, 8);
    SegmentInPlace(raw, k, x);
  }

  /**
   * A section that lies in its segment's contents: the section header of the image points at
   * the same bytes in the image that the original points at in the file.
   */
  lemma SectionFound(raw: Bytes, img: Bytes, at: seq<nat>, base: nat, delta: int, k: nat, s: nat, x: nat)
    requires Flattens(raw, img, at, base, delta) && k < |at| - 1
    requires HasSection(raw, at[k], base, s) && SectionMoves(raw, at[k], base, s)
    requires var vm, off := Int(raw, at[k] + 24, 8), Int(raw, at[k] + 40, 8);
             var addr, was := Int(raw, at[k] + 104 + 80 * s, 8), Int(raw, at[k] + 120 + 80 * s, 4);
             && vm <= addr && was == off + (addr - vm) && addr + x < vm + Int(raw, at[k] + 48, 8)
             && addr - base + x >= at[|at| - 1]
    ensures Int(img, at[k] + 120 + 80 * s, 4) + x < |img| && Int(raw, at[k] + 120 + 80 * s, 4) + x < |raw|
    ensures img[Int(img, at[k] + 120 + 80 * s, 4) + x] == raw[Int(raw, at[k] + 120 + 80 * s, 4) + x]
  {
    hide Int, Flattens;
    SectionRead(raw, img, at, base, delta, k, s);
    ContentsPlaced(raw, img, at, base, delta, k, Int(raw, at[k] + 104 + 80 * s, 8) - Int(raw, at[k] + 24, 8) + x);
  }

  /** The image ends where the highest kept segment ends in memory. */
  lemma ImageEnd(raw: Bytes, img: Bytes, at: seq<nat>, base: nat, delta: int)
    requires Flattens(raw, img, at, base, delta)
    ensures forall k :: 0 <= k < |at| - 1 && Int(raw, at[k], 4) == 0x19 && Int(raw, at[k] + 24, 8) >= base ==>
              Int(raw, at[k] + 24, 8) - base + Int(raw, at[k] + 32, 8) <= |img|
    ensures exists k :: 0 <= k < |at| - 1 && Int(raw, at[k], 4) == 0x19 && Int(raw, at[k] + 24, 8) >= base &&
              Int(raw, at[k] + 24, 8) - base + Int(raw, at[k] + 32, 8) == |img|
  {
    hide Int, Flattens, Image, CmdOff, WellFormed, StartsRewritten, Base, Delta, MaxEnd;
    Setting(raw, img, at, base, delta);
    FlattenedIs(raw);
    var n := Count(raw);
    forall k | 0 <= k < n && Int(raw, at[k], 4) == 0x19 && Int(raw, at[k] + 24, 8) >= base
      ensures Int(raw, at[k] + 24, 8) - base + Int(raw, at[k] + 32, 8) <= |img|
    {
      StartIs(raw, at, k);
      TailField(raw, at[k], 0, 4);
      TailField(raw, at[k], 24, 8);
      TailField(raw, at[k], 32, 8);
      KeptBelowEnd(raw, base, n, k);
    }
    var k := EndIsReached(raw, base, n);
    StartIs(raw, at, k);
    TailField(raw, at[k], 0, 4);
    TailField(raw, at[k], 24, 8);
    TailField(raw, at[k], 32, 8);
  }

  /** What no kept segment's contents cover is zero. */
  lemma ElsewhereZero(raw: Bytes, img: Bytes, at: seq<nat>, base: nat, delta: int, p: nat)
    requires Flattens(raw, img, at, base, delta) && p < |img|
    requires forall k :: 0 <= k < |at| - 1 && Int(raw, at[k], 4) == 0x19 && Int(raw, at[k] + 24, 8) >= base ==>
               !(Int(raw, at[k] + 24, 8) - base <= p < Int(raw, at[k] + 24, 8) - base + Int(raw, at[k] + 48, 8))
    ensures img[p] == 0
  {
    hide Int, Flattens, Image, CmdOff, WellFormed, StartsRewritten, Base, Delta;
    Setting(raw, img, at, base, delta);
    forall k | 0 <= k < Count(raw) ensures !Covers(CmdAt(raw, k), base, p) {
      StartIs(raw, at, k);
      TailField(raw, at[k], 0, 4);
      TailField(raw, at[k], 24, 8);
      TailField(raw, at[k], 48, 8);
    }
    GapIsZero(raw, p);
  }
}
