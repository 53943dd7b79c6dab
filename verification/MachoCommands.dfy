/** Rewriting one Mach-O load command for a flattened kernel image. */
module MachoCommands {
  import opened Bytes

  const SEGMENT_64: nat := 0x19
  const SYMTAB: nat := 0x2
  const DYSYMTAB: nat := 0xb

  /** Commands that point at one blob of link-edit data. */
  predicate IsLinkeditData(cmd: nat) {
    cmd in {0x1d, 0x1e, 0x26, 0x29, 0x80000033, 0x80000034}
  }

  function Cmd(c: Bytes): nat {
    Int(c, 0, 4)
  }

  function VmAddr(c: Bytes): nat {
    Int(c, 24, 8)
  }

  function VmSize(c: Bytes): nat {
    Int(c, 32, 8)
  }

  function FileOff(c: Bytes): nat {
    Int(c, 40, 8)
  }

  function FileSize(c: Bytes): nat {
    Int(c, 48, 8)
  }

  /** The section count; the field is signed, and a negative count means no section. */
  function SectionCount(c: Bytes): nat {
    if Int(c, 64, 4) < 0x8000_0000 then Int(c, 64, 4) else 0
  }

  function SectionStart(s: nat): nat {
    72 + 80 * s
  }

  function SectionAddr(c: Bytes, s: nat): nat {
    Int(c, SectionStart(s) + 32, 8)
  }

  function SectionOffset(c: Bytes, s: nat): nat {
    Int(c, SectionStart(s) + 48, 4)
  }

  /** Where the last field read of the first `n` section headers ends. */
  function SectionEnd(n: nat): nat {
    if n == 0 then 72 else SectionStart(n - 1) + 52
  }

  /** `c` has every field the rewrite unpacks. */
  predicate Holds(c: Bytes, base: nat) {
    && |c| >= 8
    && (Cmd(c) == SEGMENT_64 ==> 72 <= |c| && (VmAddr(c) >= base ==> SectionEnd(SectionCount(c)) <= |c|))
    && (Cmd(c) == SYMTAB ==> |c| >= 24)
    && (Cmd(c) == DYSYMTAB ==> |c| >= 80)
    && (IsLinkeditData(Cmd(c)) ==> |c| >= 16)
  }

  // ----- replacing one field -----

  function Put(c: Bytes, o: nat, v: nat, n: nat): (r: Bytes)
    requires o + n <= |c|
    ensures |r| == |c|
  {
    Splice(c, o, LE(v, n))
  }

  lemma PutSame(c: Bytes, o: nat, n: nat)
    requires o + n <= |c|
    ensures Put(c, o, Int(c, o, n), n) == c
  {
    assert ReadAt(c, o, n) == c[o..o + n];
    LEInverse(c[o..o + n]);
  }

  lemma PutRead(c: Bytes, o: nat, v: nat, n: nat)
    requires o + n <= |c| && v < Pow256(n)
    ensures Int(Put(c, o, v, n), o, n) == v
  {
    var d := Put(c, o, v, n);
    assert ReadAt(d, o, n) == d[o..o + n];
    LERoundTrip(v, n);
  }

  lemma PutOther(c: Bytes, o: nat, v: nat, n: nat, p: nat, m: nat)
    requires o + n <= |c| && (p + m <= o || o + n <= p)
    ensures Int(Put(c, o, v, n), p, m) == Int(c, p, m)
  {
    hide Splice;
    var d := Put(c, o, v, n);
    assert ReadAt(d, p, m) == ReadAt(c, p, m);
  }

  // ----- link-edit offsets -----

  /** `delta` added to a 32-bit offset field. */
  function Shift(c: Bytes, o: nat, delta: int): (r: Bytes)
    requires o + 4 <= |c|
    ensures |r| == |c|
  {
    var v := Int(c, o, 4) + delta;
    if v < 0 then c else Put(c, o, v, 4)
  }

  function ShiftIfSet(c: Bytes, o: nat, delta: int): (r: Bytes)
    requires o + 4 <= |c|
    ensures |r| == |c|
  {
    if Int(c, o, 4) == 0 then c else Shift(c, o, delta)
  }

  lemma ShiftNone(c: Bytes, o: nat)
    requires o + 4 <= |c|
    ensures Shift(c, o, 0) == c && ShiftIfSet(c, o, 0) == c
  {
    PutSame(c, o, 4);
  }

  predicate Shifts(c: Bytes, o: nat, delta: int) {
    0 <= Int(c, o, 4) + delta < 0x1_0000_0000
  }

  // ----- sections -----

  /** The section's file offset is rewritten when it has one and its address is in the image. */
  predicate Moves(c: Bytes, base: nat, s: nat) {
    SectionOffset(c, s) != 0 && SectionAddr(c, s) >= base
  }

  function MoveSection(c: Bytes, base: nat, s: nat): (r: Bytes)
    requires SectionEnd(s + 1) <= |c|
    ensures |r| == |c|
  {
    if Moves(c, base, s) then Put(c, SectionStart(s) + 48, SectionAddr(c, s) - base, 4) else c
  }

  /** The first `n` sections rewritten. */
  function MoveSections(c: Bytes, base: nat, n: nat): (r: Bytes)
    requires SectionEnd(n) <= |c|
    ensures |r| == |c|
  {
    if n == 0 then c else MoveSection(MoveSections(c, base, n - 1), base, n - 1)
  }

  function MoveSegment(c: Bytes, base: nat): (r: Bytes)
    requires Cmd(c) == SEGMENT_64 && Holds(c, base)
    ensures |r| == |c|
  {
    if VmAddr(c) < base then c
    else
      var d := Put(c, 40, VmAddr(c) - base, 8);
      MoveSections(d, base, SectionCount(c))
  }

  /** One load command as the flattened header holds it. */
  function Rewrite(c: Bytes, base: nat, delta: int): (r: Bytes)
    requires Holds(c, base)
    ensures |r| == |c|
  {
    if Cmd(c) == SEGMENT_64 then MoveSegment(c, base)
    else if Cmd(c) == SYMTAB then Shift(Shift(c, 8, delta), 16, delta)
    else if Cmd(c) == DYSYMTAB then
      ShiftIfSet(ShiftIfSet(ShiftIfSet(ShiftIfSet(ShiftIfSet(ShiftIfSet(c, 32, delta), 40, delta), 48, delta),
                                       56, delta), 64, delta), 72, delta)
    else if IsLinkeditData(Cmd(c)) then ShiftIfSet(c, 8, delta)
    else c
  }

  /** Every rewritten field fits its width, as packing it demands. */
  predicate OffsetsFit(c: Bytes, base: nat, delta: int)
    requires Holds(c, base)
  {
    && (Cmd(c) == SEGMENT_64 && VmAddr(c) >= base ==>
          forall s :: 0 <= s < SectionCount(c) && Moves(c, base, s) ==> SectionAddr(c, s) - base < 0x1_0000_0000)
    && (Cmd(c) == SYMTAB ==> Shifts(c, 8, delta) && Shifts(c, 16, delta))
    && (Cmd(c) == DYSYMTAB ==> forall o :: o in {32, 40, 48, 56, 64, 72} && Int(c, o, 4) != 0 ==> Shifts(c, o, delta))
    && (IsLinkeditData(Cmd(c)) && Int(c, 8, 4) != 0 ==> Shifts(c, 8, delta))
  }

  // ----- what a rewrite keeps -----

  lemma ShiftOther(c: Bytes, o: nat, delta: int, p: nat, m: nat)
    requires o + 4 <= |c| && (p + m <= o || o + 4 <= p)
    ensures Int(Shift(c, o, delta), p, m) == Int(c, p, m) && Int(ShiftIfSet(c, o, delta), p, m) == Int(c, p, m)
  {
    hide Int, Put;
    if Int(c, o, 4) + delta >= 0 {
      PutOther(c, o, Int(c, o, 4) + delta, 4, p, m);
    }
  }

  lemma {:induction false} SectionsKeep(c: Bytes, base: nat, n: nat, p: nat, m: nat)
    requires SectionEnd(n) <= |c|
    requires p + m <= 72 || exists s :: p >= SectionStart(s) && p + m <= SectionStart(s) + 48
    ensures Int(MoveSections(c, base, n), p, m) == Int(c, p, m)
  {
    hide Int, Put;
    if n > 0 {
      SectionsKeep(c, base, n - 1, p, m);
      var d, s := MoveSections(c, base, n - 1), n - 1;
      if Moves(d, base, s) {
        assert p + m <= SectionStart(s) + 48 || SectionStart(s) + 52 <= p;
        PutOther(d, SectionStart(s) + 48, SectionAddr(d, s) - base, 4, p, m);
      }
    }
  }

  lemma Bound(c: Bytes, o: nat, n: nat)
    requires o + n <= |c|
    ensures Int(c, o, n) < Pow256(n)
  {
    FromLEBound(ReadAt(c, o, n));
  }

  function SegName(c: Bytes): Bytes {
    ReadAt(c, 8, 16)
  }

  lemma ByteIsField(b: Bytes, p: nat)
    requires p < |b|
    ensures Int(b, p, 1) == b[p]
  {
    var one := [b[p]];
    assert ReadAt(b, p, 1) == one;
    assert FromLE(one) == one[0] + 256 * FromLE(one[1..]) && one[1..] == [];
  }

  /** A moved segment: only its file offset and its sections' file offsets may differ. */
  lemma SegmentMoved(c: Bytes, base: nat)
    requires Cmd(c) == SEGMENT_64 && Holds(c, base)
    ensures var r := MoveSegment(c, base);
            && (forall p, m :: p + m <= 40 || (48 <= p && p + m <= 72) ==> Int(r, p, m) == Int(c, p, m))
            && (VmAddr(c) >= base ==> FileOff(r) == VmAddr(c) - base)
            && (VmAddr(c) < base ==> r == c)
  {
    hide Int, Put, MoveSections, MoveSection;
    if VmAddr(c) >= base {
      var v := VmAddr(c) - base;
      var d := Put(c, 40, v, 8);
      var r := MoveSegment(c, base);
      Pow256Values();
      Bound(c, 24, 8);
      PutRead(c, 40, v, 8);
      SectionsKeep(d, base, SectionCount(c), 40, 8);
      forall p: nat, m: nat | p + m <= 40 || (48 <= p && p + m <= 72) ensures Int(r, p, m) == Int(c, p, m) {
        PutOther(c, 40, v, 8, p, m);
        SectionsKeep(d, base, SectionCount(c), p, m);
      }
    }
  }

  lemma SegmentNameKept(c: Bytes, base: nat)
    requires Cmd(c) == SEGMENT_64 && Holds(c, base)
    ensures SegName(MoveSegment(c, base)) == SegName(c)
  {
    hide Int, MoveSegment;
    var r := MoveSegment(c, base);
    SegmentMoved(c, base);
    forall p | 8 <= p < 24 ensures r[p] == c[p] {
      ByteIsField(r, p);
      ByteIsField(c, p);
    }
  }

  lemma {:induction false} DysymKeeps(c: Bytes, base: nat, delta: int, p: nat, m: nat)
    requires Cmd(c) == DYSYMTAB && Holds(c, base) && p + m <= 32
    ensures Int(Rewrite(c, base, delta), p, m) == Int(c, p, m)
  {
    hide Int, ShiftIfSet;
    var c1 := ShiftIfSet(c, 32, delta);
    var c2 := ShiftIfSet(c1, 40, delta);
    var c3 := ShiftIfSet(c2, 48, delta);
    var c4 := ShiftIfSet(c3, 56, delta);
    var c5 := ShiftIfSet(c4, 64, delta);
    ShiftOther(c, 32, delta, p, m);
    ShiftOther(c1, 40, delta, p, m);
    ShiftOther(c2, 48, delta, p, m);
    ShiftOther(c3, 56, delta, p, m);
    ShiftOther(c4, 64, delta, p, m);
    ShiftOther(c5, 72, delta, p, m);
  }

  /** The command's type and size are never rewritten. */
  lemma RewriteKeepsHead(c: Bytes, base: nat, delta: int)
    requires Holds(c, base)
    ensures Cmd(Rewrite(c, base, delta)) == Cmd(c) && Int(Rewrite(c, base, delta), 4, 4) == Int(c, 4, 4)
    ensures Holds(Rewrite(c, base, delta), base)
  {
    hide Int, Shift, ShiftIfSet, MoveSegment;
    if Cmd(c) == SEGMENT_64 {
      SegmentMoved(c, base);
    } else if Cmd(c) == SYMTAB {
      var c1 := Shift(c, 8, delta);
      ShiftOther(c, 8, delta, 0, 4);
      ShiftOther(c, 8, delta, 4, 4);
      ShiftOther(c1, 16, delta, 0, 4);
      ShiftOther(c1, 16, delta, 4, 4);
    } else if Cmd(c) == DYSYMTAB {
      DysymKeeps(c, base, delta, 0, 4);
      DysymKeeps(c, base, delta, 4, 4);
    } else if IsLinkeditData(Cmd(c)) {
      ShiftOther(c, 8, delta, 0, 4);
      ShiftOther(c, 8, delta, 4, 4);
    }
  }

  // ----- what a rewrite writes -----

  lemma MoveSectionOther(c: Bytes, base: nat, s: nat, t: nat)
    requires SectionEnd(s + 1) <= |c| && s != t
    ensures SectionOffset(MoveSection(c, base, s), t) == SectionOffset(c, t)
  {
    hide Int, Put;
    if Moves(c, base, s) {
      PutOther(c, SectionStart(s) + 48, SectionAddr(c, s) - base, 4, SectionStart(t) + 48, 4);
    }
  }

  /** Every section of a moved segment: address kept; offset moved exactly when it should be. */
  lemma {:induction false} SectionOutcome(c: Bytes, base: nat, n: nat, s: nat)
    requires SectionEnd(n) <= |c| && s < n
    requires Moves(c, base, s) ==> SectionAddr(c, s) - base < 0x1_0000_0000
    ensures var r := MoveSections(c, base, n);
            && SectionAddr(r, s) == SectionAddr(c, s)
            && SectionOffset(r, s) == if Moves(c, base, s) then SectionAddr(c, s) - base else SectionOffset(c, s)
    decreases n
  {
    hide Int, Put;
    var d, r := MoveSections(c, base, n - 1), MoveSections(c, base, n);
    assert SectionStart(s) + 32 + 8 <= SectionStart(s) + 48;
    SectionsKeep(c, base, n, SectionStart(s) + 32, 8);
    SectionsKeep(c, base, n - 1, SectionStart(s) + 32, 8);
    if s < n - 1 {
      SectionOutcome(c, base, n - 1, s);
      MoveSectionOther(d, base, n - 1, s);
    } else {
      SectionsUntouched(c, base, n - 1, s);
      if Moves(d, base, s) {
        Pow256Values();
        PutRead(d, SectionStart(s) + 48, SectionAddr(d, s) - base, 4);
      }
    }
  }

  lemma {:induction false} SectionsUntouched(c: Bytes, base: nat, n: nat, s: nat)
    requires SectionEnd(n) <= |c| && n <= s
    ensures SectionOffset(MoveSections(c, base, n), s) == SectionOffset(c, s)
    decreases n
  {
    hide Int, MoveSection;
    if n > 0 {
      SectionsUntouched(c, base, n - 1, s);
      MoveSectionOther(MoveSections(c, base, n - 1), base, n - 1, s);
    }
  }

  lemma ShiftRead(c: Bytes, o: nat, delta: int)
    requires o + 4 <= |c| && Shifts(c, o, delta)
    ensures Int(Shift(c, o, delta), o, 4) == Int(c, o, 4) + delta
  {
    hide Int, Put;
    Pow256Values();
    PutRead(c, o, Int(c, o, 4) + delta, 4);
  }

  /** The symbol and string table offsets move with the link-edit data. */
  lemma SymtabOutcome(c: Bytes, base: nat, delta: int)
    requires Cmd(c) == SYMTAB && Holds(c, base) && OffsetsFit(c, base, delta)
    ensures var r := Rewrite(c, base, delta);
            Int(r, 8, 4) == Int(c, 8, 4) + delta && Int(r, 16, 4) == Int(c, 16, 4) + delta
            && Int(r, 12, 4) == Int(c, 12, 4) && Int(r, 20, 4) == Int(c, 20, 4)
  {
    hide Int, Shift;
    var d := Shift(c, 8, delta);
    ShiftRead(c, 8, delta);
    ShiftOther(c, 8, delta, 16, 4);
    ShiftOther(c, 8, delta, 12, 4);
    ShiftOther(c, 8, delta, 20, 4);
    ShiftRead(d, 16, delta);
    ShiftOther(d, 16, delta, 8, 4);
    ShiftOther(d, 16, delta, 12, 4);
    ShiftOther(d, 16, delta, 20, 4);
  }

  lemma LinkeditOutcome(c: Bytes, base: nat, delta: int)
    requires IsLinkeditData(Cmd(c)) && Holds(c, base) && OffsetsFit(c, base, delta)
    ensures Int(Rewrite(c, base, delta), 8, 4) == if Int(c, 8, 4) == 0 then 0 else Int(c, 8, 4) + delta
  {
    hide Int, Shift;
    if Int(c, 8, 4) != 0 {
      ShiftRead(c, 8, delta);
    }
  }

  // ----- rewriting twice -----

  /** The section needs no move any more. */
  predicate Placed(c: Bytes, base: nat, s: nat) {
    Moves(c, base, s) ==> SectionOffset(c, s) == SectionAddr(c, s) - base
  }

  lemma {:induction false} PlacedStays(c: Bytes, base: nat, n: nat)
    requires SectionEnd(n) <= |c| && forall s :: 0 <= s < n ==> Placed(c, base, s)
    ensures MoveSections(c, base, n) == c
  {
    hide Int, Put;
    if n > 0 {
      PlacedStays(c, base, n - 1);
      assert Placed(c, base, n - 1);
      if Moves(c, base, n - 1) {
        PutSame(c, SectionStart(n - 1) + 48, 4);
      }
    }
  }

  lemma SegmentPlaced(c: Bytes, base: nat, delta: int, s: nat)
    requires Cmd(c) == SEGMENT_64 && Holds(c, base) && OffsetsFit(c, base, delta)
    requires VmAddr(c) >= base && s < SectionCount(c)
    ensures Placed(MoveSegment(c, base), base, s)
  {
    hide Int, Put, MoveSections, MoveSection;
    var d := Put(c, 40, VmAddr(c) - base, 8);
    PutOther(c, 40, VmAddr(c) - base, 8, SectionStart(s) + 32, 8);
    PutOther(c, 40, VmAddr(c) - base, 8, SectionStart(s) + 48, 4);
    assert Moves(d, base, s) == Moves(c, base, s);
    SectionOutcome(d, base, SectionCount(c), s);
  }

  lemma SegmentTwice(c: Bytes, base: nat, delta: int)
    requires Cmd(c) == SEGMENT_64 && Holds(c, base) && OffsetsFit(c, base, delta)
    ensures Cmd(MoveSegment(c, base)) == SEGMENT_64 && Holds(MoveSegment(c, base), base)
    ensures OffsetsFit(MoveSegment(c, base), base, 0)
    ensures MoveSegment(MoveSegment(c, base), base) == MoveSegment(c, base)
  {
    hide Int, Put, MoveSections, MoveSection;
    SegmentMoved(c, base);
    if VmAddr(c) >= base {
      var r, n := MoveSegment(c, base), SectionCount(c);
      assert Put(r, 40, VmAddr(r) - base, 8) == r by {
        PutSame(r, 40, 8);
      }
      Pow256Values();
      forall s | 0 <= s < n ensures Placed(r, base, s) && SectionOffset(r, s) < 0x1_0000_0000 {
        SegmentPlaced(c, base, delta, s);
        Bound(r, SectionStart(s) + 48, 4);
      }
      PlacedStays(r, base, n);
    }
  }

  /** With the link-edit data already in place, rewriting a rewritten command changes nothing. */
  lemma RewriteTwice(c: Bytes, base: nat, delta: int)
    requires Holds(c, base) && OffsetsFit(c, base, delta)
    ensures Holds(Rewrite(c, base, delta), base) && OffsetsFit(Rewrite(c, base, delta), base, 0)
    ensures Rewrite(Rewrite(c, base, delta), base, 0) == Rewrite(c, base, delta)
  {
    hide Int, Shift, ShiftIfSet, MoveSegment, Holds;
    RewriteKeepsHead(c, base, delta);
    var r := Rewrite(c, base, delta);
    if Cmd(c) == SEGMENT_64 {
      SegmentTwice(c, base, delta);
    } else {
      ShiftsNone(r, base);
    }
  }

  lemma ShiftsNone(r: Bytes, base: nat)
    requires Holds(r, base) && Cmd(r) != SEGMENT_64
    ensures Rewrite(r, base, 0) == r && OffsetsFit(r, base, 0)
  {
    hide Int, Shift, ShiftIfSet;
    Pow256Values();
    forall o: nat | o + 4 <= |r| ensures Shifts(r, o, 0) {
      Bound(r, o, 4);
    }
    if Cmd(r) == SYMTAB {
      ShiftNone(r, 8);
      ShiftNone(r, 16);
    } else if Cmd(r) == DYSYMTAB {
      ShiftNone(r, 32);
      ShiftNone(r, 40);
      ShiftNone(r, 48);
      ShiftNone(r, 56);
      ShiftNone(r, 64);
      ShiftNone(r, 72);
    } else if IsLinkeditData(Cmd(r)) {
      ShiftNone(r, 8);
    }
  }

  // ----- a command with other bytes behind it -----

  lemma FieldExtends(c: Bytes, rest: Bytes, o: nat, n: nat)
    requires o + n <= |c|
    ensures Int(c + rest, o, n) == Int(c, o, n)
  {
    assert ReadAt(c + rest, o, n) == ReadAt(c, o, n);
  }

  lemma PutExtends(c: Bytes, rest: Bytes, o: nat, v: nat, n: nat)
    requires o + n <= |c|
    ensures Put(c + rest, o, v, n) == Put(c, o, v, n) + rest
  {
  }

  lemma ShiftExtends(c: Bytes, rest: Bytes, o: nat, delta: int)
    requires o + 4 <= |c|
    ensures Shift(c + rest, o, delta) == Shift(c, o, delta) + rest
    ensures ShiftIfSet(c + rest, o, delta) == ShiftIfSet(c, o, delta) + rest
    ensures Shifts(c + rest, o, delta) == Shifts(c, o, delta) && Int(c + rest, o, 4) == Int(c, o, 4)
  {
    hide Int, Put;
    FieldExtends(c, rest, o, 4);
    if Int(c, o, 4) + delta >= 0 {
      PutExtends(c, rest, o, Int(c, o, 4) + delta, 4);
    }
  }

  lemma SectionExtends(c: Bytes, rest: Bytes, base: nat, s: nat)
    requires SectionEnd(s + 1) <= |c|
    ensures SectionAddr(c + rest, s) == SectionAddr(c, s) && Moves(c + rest, base, s) == Moves(c, base, s)
    ensures MoveSection(c + rest, base, s) == MoveSection(c, base, s) + rest
  {
    hide Int, Put;
    FieldExtends(c, rest, SectionStart(s) + 32, 8);
    FieldExtends(c, rest, SectionStart(s) + 48, 4);
    if Moves(c, base, s) {
      PutExtends(c, rest, SectionStart(s) + 48, SectionAddr(c, s) - base, 4);
    }
  }

  lemma {:induction false} SectionsExtend(c: Bytes, rest: Bytes, base: nat, n: nat)
    requires SectionEnd(n) <= |c|
    ensures MoveSections(c + rest, base, n) == MoveSections(c, base, n) + rest
    decreases n
  {
    hide MoveSection;
    if n > 0 {
      SectionsExtend(c, rest, base, n - 1);
      SectionExtends(MoveSections(c, base, n - 1), rest, base, n - 1);
    }
  }

  lemma SegmentExtends(c: Bytes, rest: Bytes, base: nat, delta: int)
    requires Cmd(c) == SEGMENT_64 && Holds(c, base)
    ensures Cmd(c + rest) == SEGMENT_64 && Holds(c + rest, base)
    ensures OffsetsFit(c + rest, base, delta) == OffsetsFit(c, base, delta)
    ensures MoveSegment(c + rest, base) == MoveSegment(c, base) + rest
  {
    hide Int, Put, MoveSections, MoveSection;
    FieldExtends(c, rest, 0, 4);
    FieldExtends(c, rest, 24, 8);
    FieldExtends(c, rest, 64, 4);
    if VmAddr(c) >= base {
      var n := SectionCount(c);
      PutExtends(c, rest, 40, VmAddr(c) - base, 8);
      SectionsExtend(Put(c, 40, VmAddr(c) - base, 8), rest, base, n);
      forall s | 0 <= s < n
        ensures Moves(c + rest, base, s) == Moves(c, base, s) && SectionAddr(c + rest, s) == SectionAddr(c, s)
      {
        SectionExtends(c, rest, base, s);
      }
    }
  }

  lemma DysymExtends(c: Bytes, rest: Bytes, base: nat, delta: int)
    requires Cmd(c) == DYSYMTAB && Holds(c, base)
    ensures Cmd(c + rest) == DYSYMTAB && Holds(c + rest, base)
    ensures OffsetsFit(c + rest, base, delta) == OffsetsFit(c, base, delta)
    ensures Rewrite(c + rest, base, delta) == Rewrite(c, base, delta) + rest
  {
    hide Int, Shift, ShiftIfSet, Shifts;
    FieldExtends(c, rest, 0, 4);
    forall o: nat | o in {32, 40, 48, 56, 64, 72}
      ensures Int(c + rest, o, 4) == Int(c, o, 4) && Shifts(c + rest, o, delta) == Shifts(c, o, delta)
    {
      ShiftExtends(c, rest, o, delta);
    }
    var c1 := ShiftIfSet(c, 32, delta);
    var c2 := ShiftIfSet(c1, 40, delta);
    var c3 := ShiftIfSet(c2, 48, delta);
    var c4 := ShiftIfSet(c3, 56, delta);
    var c5 := ShiftIfSet(c4, 64, delta);
    ShiftExtends(c, rest, 32, delta);
    ShiftExtends(c1, rest, 40, delta);
    ShiftExtends(c2, rest, 48, delta);
    ShiftExtends(c3, rest, 56, delta);
    ShiftExtends(c4, rest, 64, delta);
    ShiftExtends(c5, rest, 72, delta);
  }

  /** Rewriting a command in place leaves whatever lies behind it alone. */
  lemma RewriteExtends(c: Bytes, rest: Bytes, base: nat, delta: int)
    requires Holds(c, base)
    ensures Holds(c + rest, base) && OffsetsFit(c + rest, base, delta) == OffsetsFit(c, base, delta)
    ensures Rewrite(c + rest, base, delta) == Rewrite(c, base, delta) + rest
  {
    hide Int, Shift, ShiftIfSet, Shifts, MoveSegment;
    FieldExtends(c, rest, 0, 4);
    if Cmd(c) == SEGMENT_64 {
      SegmentExtends(c, rest, base, delta);
    } else if Cmd(c) == SYMTAB {
      ShiftExtends(c, rest, 8, delta);
      ShiftExtends(c, rest, 16, delta);
      ShiftExtends(Shift(c, 8, delta), rest, 16, delta);
    } else if Cmd(c) == DYSYMTAB {
      DysymExtends(c, rest, base, delta);
    } else if IsLinkeditData(Cmd(c)) {
      ShiftExtends(c, rest, 8, delta);
    }
  }

  // ----- rewriting twice by the same displacement -----

  /** The command carries an offset that a displacement moves, and would move again. */
  predicate Drags(c: Bytes, delta: int) {
    || Cmd(c) == SYMTAB
    || (Cmd(c) == DYSYMTAB && exists o :: o in {32, 40, 48, 56, 64, 72} && Dragged(c, o, delta))
    || (IsLinkeditData(Cmd(c)) && Dragged(c, 8, delta))
  }

  predicate Dragged(c: Bytes, o: nat, delta: int) {
    Int(c, o, 4) != 0 && Int(c, o, 4) + delta != 0
  }
}
