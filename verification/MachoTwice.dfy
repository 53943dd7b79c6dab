/** Flattening a flattened kernel: when it changes nothing, and when it displaces the link-edit offsets again. */
module MachoTwice {
  import opened Bytes
  import opened MachoCommands
  import opened MachoFlatten
  import opened MachoImage
  import opened MachoTheorems

  /** The segments of the image as the passes see them. */
  predicate Mirrors(raw: Bytes, out: Bytes, base: nat, k: nat) {
    var c, d := CmdAt(raw, k), CmdAt(out, k);
    && IsSegment(d) == IsSegment(c) && |d| >= 8
    && (IsSegment(c) ==>
          && |d| >= 72 && SegName(d) == SegName(c) && VmAddr(d) == VmAddr(c) && VmSize(d) == VmSize(c)
          && FileSize(d) == FileSize(c)
          && FileOff(d) == if Kept(c, base) then MemOff(c, base) else FileOff(c))
  }

  predicate MirrorsAll(raw: Bytes, out: Bytes, base: nat, n: nat) {
    forall k :: 0 <= k < n ==> Mirrors(raw, out, base, k)
  }

  lemma ImageMirrors(raw: Bytes)
    requires WellFormed(raw)
    ensures Count(Image(raw)) == Count(raw) && Int(Image(raw), 0, 4) == MAGIC_64
    ensures MirrorsAll(raw, Image(raw), Base(raw), Count(raw))
  {
    hide Int, Memory, MaxEnd, Scannable, Image, LastLink, Stripped, CmdOff, Header, Rewrite, Holds, OffsetsFit, CmdAt;
    FlattenedIs(raw);
    FileHeaderKept(raw);
    var out := Image(raw);
    HeadField(raw, out, 0);
    HeadField(raw, out, 16);
    forall k | 0 <= k < Count(raw) ensures Mirrors(raw, out, Base(raw), k) {
      SegmentOutcome(raw, out, Base(raw), Delta(raw, Base(raw)), Count(raw), k);
    }
  }

  lemma HeadField(a: Bytes, b: Bytes, o: nat)
    requires |a| >= 32 && |b| >= 32 && a[..32] == b[..32] && o <= 28
    ensures Int(a, o, 4) == Int(b, o, 4)
  {
    assert ReadAt(a, o, 4) == a[..32][o..o + 4];
    assert ReadAt(b, o, 4) == b[..32][o..o + 4];
  }

  lemma {:induction false} MirrorScans(raw: Bytes, out: Bytes, base: nat, n: nat, k: nat)
    requires MirrorsAll(raw, out, base, n) && k <= n
    ensures Scannable(out, k) && MaxEnd(out, base, k) == MaxEnd(raw, base, k)
    decreases k
  {
    hide Int, CmdAt, SegName;
    if k > 0 {
      MirrorScans(raw, out, base, n, k - 1);
      assert Mirrors(raw, out, base, k - 1);
    }
  }

  lemma {:induction false} MirrorText(raw: Bytes, out: Bytes, base: nat, n: nat, k: nat)
    requires MirrorsAll(raw, out, base, n) && k <= n
    ensures FindText(out, k, n) == FindText(raw, k, n)
    decreases n - k
  {
    hide Int, CmdAt, SegName, Stripped;
    if k < n {
      assert Mirrors(raw, out, base, k);
      MirrorText(raw, out, base, n, k + 1);
    }
  }

  lemma MirrorSegments(raw: Bytes, out: Bytes, base: nat, n: nat)
    requires MirrorsAll(raw, out, base, n) && SegmentsOk(raw, base, n) && |out| == MaxEnd(raw, base, n)
    ensures SegmentsOk(out, base, n)
  {
    hide Int, CmdAt, SegName, MaxEnd;
    forall k | 0 <= k < n && Copies(CmdAt(out, k), base) ensures InFile(out, CmdAt(out, k)) {
      assert Mirrors(raw, out, base, k);
      KeptBelowEnd(raw, base, n, k);
    }
    forall j, k | 0 <= j < k < n && Copies(CmdAt(out, j), base) && Copies(CmdAt(out, k), base)
      ensures Apart(CmdAt(out, j), CmdAt(out, k))
    {
      assert Mirrors(raw, out, base, j) && Mirrors(raw, out, base, k);
      assert Apart(CmdAt(raw, j), CmdAt(raw, k));
    }
  }

  lemma TextMirrored(raw: Bytes, out: Bytes, base: nat, n: nat, t: nat)
    requires MirrorsAll(raw, out, base, n) && t < n && Named(CmdAt(raw, t), TEXT) && VmAddr(CmdAt(raw, t)) == base
    ensures VmAddr(CmdAt(out, t)) == base && FileOff(CmdAt(out, t)) == 0
    ensures FileSize(CmdAt(out, t)) == FileSize(CmdAt(raw, t))
  {
    hide Int, CmdAt, SegName, Stripped;
    assert Mirrors(raw, out, base, t);
  }

  // ----- the image as input -----

  /** A link-edit segment that is kept has its memory offset as file offset; another one is as before. */
  function LinkAfter(l: Link): Link {
    if l.Link? && l.now >= 0 then Link(l.now, l.now) else l
  }

  lemma {:induction false} MirrorLink(raw: Bytes, out: Bytes, base: nat, n: nat, k: nat)
    requires MirrorsAll(raw, out, base, n) && k <= n
    ensures LastLink(out, base, k) == LinkAfter(LastLink(raw, base, k))
    decreases k
  {
    hide Int, CmdAt, SegName, Stripped;
    if k > 0 {
      assert Mirrors(raw, out, base, k - 1);
      MirrorLink(raw, out, base, n, k - 1);
    }
  }

  /** The last `__LINKEDIT` is missing, at or above the base, or at file offset 0. */
  predicate LinkSettles(raw: Bytes) {
    var l := LastLink(raw, Base(raw), Count(raw));
    l.NoLink? || l.now >= 0 || l.was == 0
  }

  /** The second displacement is zero exactly when the link-edit segment settles; otherwise it is the first again. */
  lemma SecondDelta(raw: Bytes)
    requires WellFormed(raw)
    ensures LinkSettles(raw) ==> Delta(Image(raw), Base(raw)) == 0
    ensures !LinkSettles(raw) ==> Delta(Image(raw), Base(raw)) == Delta(raw, Base(raw)) < 0
  {
    hide Int, Image, LastLink, Base, WellFormed;
    ImageMirrors(raw);
    MirrorLink(raw, Image(raw), Base(raw), Count(raw), Count(raw));
  }

  lemma ImageByte(raw: Bytes, out: Bytes, base: nat, n: nat, p: nat)
    requires WellFormed(raw) && out == Image(raw) && base == Base(raw) && n == Count(raw) == Count(out)
    requires MirrorsAll(raw, out, base, n) && SegmentsOk(out, base, n) && p < |out| == MaxEnd(out, base, n)
    ensures |Memory(out, base)| == |out| && Memory(out, base)[p] == out[p]
  {
    hide Int, Copied, MaxEnd, SegmentsOk, Image, CmdAt, WellFormed, Base;
    var zeros := Zeros(MaxEnd(out, base, n));
    CopiedSize(out, base, zeros, n, n);
    if j :| 0 <= j < n && Covers(CmdAt(raw, j), base, p) {
      assert Mirrors(raw, out, base, j);
      CopiedHas(out, base, zeros, n, n, j, p - MemOff(CmdAt(raw, j), base));
    } else {
      GapIsZero(raw, p);
      forall j | 0 <= j < n ensures !Covers(CmdAt(out, j), base, p) {
        assert Mirrors(raw, out, base, j);
        assert !Covers(CmdAt(raw, j), base, p);
      }
      CopiedGap(out, base, zeros, n, n, p);
    }
  }

  /** Loaded by its own load commands, the image gives itself. */
  lemma ImageLoadsItself(raw: Bytes)
    requires WellFormed(raw)
    ensures Memory(Image(raw), Base(raw)) == Image(raw)
  {
    hide Int, Memory, MaxEnd, Scannable, SegmentsOk, CommandsOk, Image, CmdOff, LastLink, Stripped, CmdAt, Readable,
         StartsRewritten, TextHoldsHeader, Delta;
    var out, base, n := Image(raw), Base(raw), Count(raw);
    FlattenedIs(raw);
    ImageMirrors(raw);
    MirrorScans(raw, out, base, n, n);
    MirrorSegments(raw, out, base, n);
    if out == [] {
      HeaderCopied(raw);
    }
    ImageByte(raw, out, base, n, 0);
    forall p | 0 <= p < |out| ensures Memory(out, base)[p] == out[p] {
      ImageByte(raw, out, base, n, p);
    }
  }

  lemma ImageReadable(raw: Bytes)
    requires WellFormed(raw)
    ensures Readable(Image(raw)) && Base(Image(raw)) == Base(raw) && Count(Image(raw)) == Count(raw)
    ensures TextHoldsHeader(Image(raw)) && HeaderEnd(Image(raw)) == HeaderEnd(raw) <= |Image(raw)|
  {
    hide Int, Memory, MaxEnd, Scannable, SegmentsOk, Image, Header, CmdOff, LastLink, Stripped, CmdAt, SegName, Mirrors,
         Rewrite, Holds, OffsetsFit;
    var out, base, n := Image(raw), Base(raw), Count(raw);
    FlattenedIs(raw);
    ImageMirrors(raw);
    OffsetsKept(raw, out, base, Delta(raw, base), n, n);
    MirrorScans(raw, out, base, n, n);
    MirrorText(raw, out, base, n, 0);
    FindTextFirst(raw, 0, n);
    TextMirrored(raw, out, base, n, FindText(raw, 0, n));
  }

  /** A second run only has the header left to rewrite. */
  lemma FlattenedAgain(raw: Bytes)
    requires WellFormed(raw)
    ensures Flattened(Image(raw)) ==
            match Rewritten(Image(raw), Base(raw), Delta(Image(raw), Base(raw)), Count(raw))
            case Stopped => Refused
            case At(b, _) => Flat(b)
  {
    hide Int, Memory, Readable, Image, Rewritten, Delta, Base;
    ImageReadable(raw);
    ImageLoadsItself(raw);
  }

  // ----- one file rewritten in place -----

  predicate CommandsHold(b: Bytes, base: nat, n: nat) {
    CmdOff(b, n) <= |b| && forall k :: 0 <= k < n ==> Holds(Command(b, k), base)
  }

  /** Command `k` fits and comes out unchanged. */
  predicate Idle(b: Bytes, base: nat, delta: int, k: nat) {
    var c := Command(b, k);
    Holds(c, base) && OffsetsFit(c, base, delta) && Rewrite(c, base, delta) == c
  }

  lemma {:induction false} IdleHeader(b: Bytes, base: nat, delta: int, n: nat, k: nat)
    requires CmdOff(b, n) <= |b| && k <= n && forall j :: 0 <= j < n ==> Idle(b, base, delta, j)
    ensures CmdOff(b, k) <= |b| && Header(b, base, delta, k) == b[..CmdOff(b, k)]
    decreases k
  {
    hide Int, CmdOff, Rewrite, Holds, OffsetsFit, Command;
    OffsetsGrow(b, k, n);
    OffsetsGrow(b, 0, k);
    if k == 0 {
      FirstOffset(b);
    } else {
      IdleHeader(b, base, delta, n, k - 1);
      assert Idle(b, base, delta, k - 1);
      CommandSlice(b, n, k - 1);
    }
  }

  lemma FirstOffset(b: Bytes)
    ensures CmdOff(b, 0) == 32
  {
  }

  lemma IdleFits(b: Bytes, base: nat, delta: int, n: nat)
    requires CmdOff(b, n) <= |b| && forall j :: 0 <= j < n ==> Idle(b, base, delta, j)
    ensures CommandsOk(b, base, delta, n)
  {
    hide Int, CmdOff, Rewrite, Holds, OffsetsFit, Command;
    forall j | 0 <= j < n ensures Holds(Command(b, j), base) && OffsetsFit(Command(b, j), base, delta) {
      assert Idle(b, base, delta, j);
    }
  }

  lemma AllIdle(b: Bytes, base: nat, delta: int, n: nat)
    requires CmdOff(b, n) <= |b| && forall j :: 0 <= j < n ==> Idle(b, base, delta, j)
    ensures Rewritten(b, base, delta, n) == At(b, CmdOff(b, n))
  {
    hide Int, CmdOff, Rewrite, Holds, OffsetsFit, Command, Header, Rewritten;
    IdleFits(b, base, delta, n);
    RewrittenIs(b, b, base, delta, n, n);
    IdleHeader(b, base, delta, n, n);
    assert b[..CmdOff(b, n)] + b[CmdOff(b, n)..] == b;
  }

  lemma {:induction false} FirstUnfit(b: Bytes, base: nat, delta: int, k: nat) returns (j: nat)
    requires forall i :: 0 <= i <= k ==> Holds(Command(b, i), base)
    requires !OffsetsFit(Command(b, k), base, delta)
    ensures j <= k && !OffsetsFit(Command(b, j), base, delta)
    ensures forall i :: 0 <= i < j ==> OffsetsFit(Command(b, i), base, delta)
    decreases k
  {
    hide Holds, OffsetsFit, Command;
    if i :| 0 <= i < k && !OffsetsFit(Command(b, i), base, delta) {
      j := FirstUnfit(b, base, delta, i);
    } else {
      j := k;
    }
  }

  /** A command whose offsets do not fit stops the pass. */
  lemma UnfitStops(b: Bytes, base: nat, delta: int, n: nat, k: nat)
    requires CommandsHold(b, base, n) && k < n && !OffsetsFit(Command(b, k), base, delta)
    ensures Rewritten(b, base, delta, n).Stopped?
  {
    hide Int, CmdOff, Rewrite, Holds, OffsetsFit, Command, Header, RewriteAt;
    var j := FirstUnfit(b, base, delta, k);
    OffsetsGrow(b, j, n);
    assert CommandsOk(b, base, delta, j);
    RewrittenIs(b, b, base, delta, j, j);
    StopsThere(b, base, delta, n, j);
    StoppedStays(b, base, delta, j + 1, n);
  }

  lemma StopsThere(b: Bytes, base: nat, delta: int, n: nat, j: nat)
    requires CommandsHold(b, base, n) && j < n && !OffsetsFit(Command(b, j), base, delta) && CmdOff(b, j) <= |b|
    ensures RewriteAt(Header(b, base, delta, j) + b[CmdOff(b, j)..], CmdOff(b, j), base, delta).Stopped?
  {
    hide Int, CmdOff, Rewrite, Holds, OffsetsFit, Command, Header;
    var off, c, head := CmdOff(b, j), Command(b, j), Header(b, base, delta, j);
    HeaderSize(b, base, delta, n, j);
    var rest := CommandLeads(b, n, j);
    assert b[off..] == c + rest;
    assert Tail(head + b[off..], off) == c + rest;
    RewriteExtends(c, rest, base, delta);
  }

  /** A command that fits and changes makes the pass change the file. */
  lemma MovedShows(b: Bytes, base: nat, delta: int, n: nat, k: nat)
    requires CommandsOk(b, base, delta, n) && k < n && Rewrite(Command(b, k), base, delta) != Command(b, k)
    ensures Rewritten(b, base, delta, n).At? && Rewritten(b, base, delta, n).buf != b
  {
    hide Int, CmdOff, Rewrite, Holds, OffsetsFit, Header, Rewritten, Command;
    RewrittenIs(b, b, base, delta, n, n);
    HeaderHas(b, base, delta, n, n, k);
    CommandSlice(b, n, k);
    var h, head := CmdOff(b, n), Header(b, base, delta, n);
    var i, j := CmdOff(b, k), CmdOff(b, k + 1);
    assert NewCommand(b, base, delta, k) == Rewrite(Command(b, k), base, delta);
    assert (head + b[h..])[i..j] == head[i..j];
  }

  /** So a command that either does not fit or changes is enough for a different result. */
  lemma NotIdleShows(b: Bytes, base: nat, delta: int, n: nat, k: nat)
    requires CommandsHold(b, base, n) && k < n && !Idle(b, base, delta, k)
    ensures Rewritten(b, base, delta, n).Stopped? || Rewritten(b, base, delta, n).buf != b
  {
    hide Int, CmdOff, Rewrite, OffsetsFit, Header, Rewritten, Command, Holds;
    if j :| 0 <= j < n && !OffsetsFit(Command(b, j), base, delta) {
      UnfitStops(b, base, delta, n, j);
    } else {
      MovedShows(b, base, delta, n, k);
    }
  }

  // ----- one command rewritten again -----

  lemma SymtabAgain(c: Bytes, base: nat, delta: int)
    requires Cmd(c) == SYMTAB && Holds(c, base) && OffsetsFit(c, base, delta) && delta != 0
    ensures var r := Rewrite(c, base, delta);
            Holds(r, base) && (OffsetsFit(r, base, delta) ==> Rewrite(r, base, delta) != r)
  {
    hide Int, Rewrite;
    RewriteKeepsHead(c, base, delta);
    var r := Rewrite(c, base, delta);
    if OffsetsFit(r, base, delta) {
      SymtabOutcome(r, base, delta);
    }
  }

  lemma DysymtabAgain(c: Bytes, base: nat, delta: int)
    requires Cmd(c) == DYSYMTAB && Holds(c, base) && OffsetsFit(c, base, delta) && delta != 0
    ensures var r := Rewrite(c, base, delta);
            && Holds(r, base)
            && (Drags(c, delta) ==> OffsetsFit(r, base, delta) ==> Rewrite(r, base, delta) != r)
            && (!Drags(c, delta) ==> OffsetsFit(r, base, delta) && Rewrite(r, base, delta) == r)
  {
    hide Int, Rewrite, ShiftedTo, Shifts;
    RewriteKeepsHead(c, base, delta);
    var r := Rewrite(c, base, delta);
    if o :| o in {32, 40, 48, 56, 64, 72} && Dragged(c, o, delta) {
      var j := (o - 32) / 8;
      assert o == 32 + 8 * j;
      DysymtabOutcome(c, base, delta, j);
      if OffsetsFit(r, base, delta) {
        DysymtabOutcome(r, base, delta, j);
      }
    } else {
      forall o: nat | o in {32, 40, 48, 56, 64, 72} ensures Int(r, o, 4) == 0 {
        var j := (o - 32) / 8;
        assert o == 32 + 8 * j;
        DysymtabOutcome(c, base, delta, j);
        assert !Dragged(c, o, delta);
      }
      NothingSet(r, base, delta);
    }
  }

  lemma NothingSet(r: Bytes, base: nat, delta: int)
    requires Cmd(r) == DYSYMTAB && Holds(r, base) && forall o: nat :: o in {32, 40, 48, 56, 64, 72} ==> Int(r, o, 4) == 0
    ensures OffsetsFit(r, base, delta) && Rewrite(r, base, delta) == r
  {
    hide Int, Shift, Shifts;
    assert Int(r, 32, 4) == 0 && Int(r, 40, 4) == 0 && Int(r, 48, 4) == 0;
    assert Int(r, 56, 4) == 0 && Int(r, 64, 4) == 0 && Int(r, 72, 4) == 0;
  }

  lemma LinkeditAgain(c: Bytes, base: nat, delta: int)
    requires IsLinkeditData(Cmd(c)) && Holds(c, base) && OffsetsFit(c, base, delta) && delta != 0
    ensures var r := Rewrite(c, base, delta);
            && Holds(r, base)
            && (Drags(c, delta) ==> OffsetsFit(r, base, delta) ==> Rewrite(r, base, delta) != r)
            && (!Drags(c, delta) ==> OffsetsFit(r, base, delta) && Rewrite(r, base, delta) == r)
  {
    hide Int, Shift, Shifts;
    RewriteKeepsHead(c, base, delta);
    var r := Rewrite(c, base, delta);
    LinkeditOutcome(c, base, delta);
    if OffsetsFit(r, base, delta) {
      LinkeditOutcome(r, base, delta);
    }
  }

  /** Displaced again by the same amount, a command changes (or no longer fits) exactly when it drags an offset. */
  lemma RewriteAgain(c: Bytes, base: nat, delta: int)
    requires Holds(c, base) && OffsetsFit(c, base, delta) && delta != 0
    ensures var r := Rewrite(c, base, delta);
            Holds(r, base) && (OffsetsFit(r, base, delta) && Rewrite(r, base, delta) == r <==> !Drags(c, delta))
  {
    hide Int, Shift, ShiftIfSet, MoveSegment, Shifts;
    if Cmd(c) == SEGMENT_64 {
      SegmentTwice(c, base, delta);
    } else if Cmd(c) == SYMTAB {
      SymtabAgain(c, base, delta);
    } else if Cmd(c) == DYSYMTAB {
      DysymtabAgain(c, base, delta);
    } else if IsLinkeditData(Cmd(c)) {
      LinkeditAgain(c, base, delta);
    }
  }

  // ----- flattening twice -----

  /** Nothing is left for a second run: the displacement is zero, or no command carries an offset it would move. */
  predicate Settles(raw: Bytes) {
    LinkSettles(raw) || forall k :: 0 <= k < Count(raw) ==> !Drags(Command(raw, k), Delta(raw, Base(raw)))
  }

  lemma ImageCommand(raw: Bytes, k: nat)
    requires WellFormed(raw) && k < Count(raw)
    ensures var d := Delta(Image(raw), Base(raw));
            Idle(Image(raw), Base(raw), d, k) <==> LinkSettles(raw) || !Drags(Command(raw, k), Delta(raw, Base(raw)))
    ensures Holds(Command(Image(raw), k), Base(raw))
  {
    hide Int, Memory, MaxEnd, Readable, SegmentsOk, TextHoldsHeader, Image, Header, Rewrite, Holds, OffsetsFit, CmdOff;
    hide Drags, LinkSettles, Delta, Base, Command;
    var out, base, delta, n := Image(raw), Base(raw), Delta(raw, Base(raw)), Count(raw);
    FlattenedIs(raw);
    CommandRewritten(raw, out, base, delta, n, k);
    SecondDelta(raw);
    var c := Command(raw, k);
    RewriteTwice(c, base, delta);
    if !LinkSettles(raw) {
      RewriteAgain(c, base, delta);
    }
  }

  lemma ImageHolds(raw: Bytes)
    requires WellFormed(raw)
    ensures CommandsHold(Image(raw), Base(raw), Count(raw))
  {
    hide Image, WellFormed, CmdOff, Holds, Command, Base;
    ImageReadable(raw);
    forall k | 0 <= k < Count(raw) ensures Holds(Command(Image(raw), k), Base(raw)) {
      ImageCommand(raw, k);
    }
  }

  /** Flattening a flattened kernel changes nothing if and only if nothing is left for a second run. */
  lemma FlattenTwice(raw: Bytes)
    requires WellFormed(raw)
    ensures Flattened(raw) == Flat(Image(raw))
    ensures Flattened(Image(raw)) == Flat(Image(raw)) <==> Settles(raw)
  {
    hide Image, WellFormed, CmdOff, Base, Delta, Rewritten, Flattened, Idle, Drags, LinkSettles, CommandsHold, Command, Int;
    var out, base, n := Image(raw), Base(raw), Count(raw);
    var d := Delta(out, base);
    FlattenedIs(raw);
    FlattenedAgain(raw);
    ImageHolds(raw);
    ImageReadable(raw);
    forall k | 0 <= k < n ensures Idle(out, base, d, k) <==> LinkSettles(raw) || !Drags(Command(raw, k), Delta(raw, base)) {
      ImageCommand(raw, k);
    }
    if Settles(raw) {
      AllIdle(out, base, d, n);
    } else {
      var k :| 0 <= k < n && Drags(Command(raw, k), Delta(raw, base));
      NotIdleShows(out, base, d, n, k);
    }
  }

  /** The image of a kernel that settles is again a well-formed kernel, with the same base. */
  lemma ImageWellFormed(raw: Bytes)
    requires WellFormed(raw) && Settles(raw)
    ensures WellFormed(Image(raw)) && Base(Image(raw)) == Base(raw)
  {
    hide Int, Memory, MaxEnd, Readable, Image, Header, CmdOff, LastLink, TextHoldsHeader, Base, Delta, Drags, LinkSettles;
    hide Command, StartsRewritten, CommandsOk, SegmentsOk, Idle;
    var out, base, n := Image(raw), Base(raw), Count(raw);
    FlattenedIs(raw);
    ImageMirrors(raw);
    ImageReadable(raw);
    MirrorSegments(raw, out, base, n);
    forall k | 0 <= k < n ensures Idle(out, base, Delta(out, base), k) {
      ImageCommand(raw, k);
    }
    IdleFits(out, base, Delta(out, base), n);
  }
}
