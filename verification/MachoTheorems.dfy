/** Flattening a well-formed kernel: the image, its segments and its link-edit data. */
module MachoTheorems {
  import opened Bytes
  import opened MachoCommands
  import opened MachoFlatten
  import opened MachoImage

  /** Where the load commands end. */
  function HeaderEnd(raw: Bytes): nat {
    CmdOff(raw, Count(raw))
  }

  function Image(raw: Bytes): Bytes {
    var base := Base(raw);
    Header(raw, base, Delta(raw, base), Count(raw)) + Tail(Memory(raw, base), HeaderEnd(raw))
  }

  /** Memory starts with the file's own header, brought there by `__TEXT`. */
  lemma HeaderCopied(raw: Bytes)
    requires WellFormed(raw)
    ensures SameHeader(raw, Memory(raw, Base(raw)), HeaderEnd(raw))
    ensures |Memory(raw, Base(raw))| == MaxEnd(raw, Base(raw), Count(raw))
    ensures HeaderEnd(raw) >= 32
  {
    hide Int, Copied, MaxEnd, FindText, Scannable, CommandsOk, SegmentsOk;
    var base, n, h := Base(raw), Count(raw), HeaderEnd(raw);
    var t := FindText(raw, 0, n);
    var zeros, mem := Zeros(MaxEnd(raw, base, n)), Memory(raw, base);
    FindTextFirst(raw, 0, n);
    OffsetsGrow(raw, 0, n);
    CopiedSize(raw, base, zeros, n, n);
    CopiedHas(raw, base, zeros, n, n, t, h - 1);
    forall p | 0 <= p < h ensures p < |mem| && p < |raw| && mem[p] == raw[p] {
      CopiedHas(raw, base, zeros, n, n, t, p);
    }
  }

  /** A well-formed kernel is never refused; its image is the memory image under a rewritten header. */
  lemma FlattenedIs(raw: Bytes)
    requires WellFormed(raw)
    ensures Flattened(raw) == Flat(Image(raw))
    ensures |Image(raw)| == MaxEnd(raw, Base(raw), Count(raw)) >= HeaderEnd(raw) >= 32
    ensures StartsRewritten(raw, Image(raw), Base(raw), Delta(raw, Base(raw)), Count(raw))
    ensures Tail(Image(raw), HeaderEnd(raw)) == Tail(Memory(raw, Base(raw)), HeaderEnd(raw))
  {
    hide Int, Memory, MaxEnd, Readable, SegmentsOk, CommandsOk, Header, Rewritten, TextHoldsHeader, Base, Delta, CmdOff;
    var base, n, h := Base(raw), Count(raw), HeaderEnd(raw);
    HeaderCopied(raw);
    CommandsEndInside(raw);
    HeaderSize(raw, base, Delta(raw, base), n, n);
    RewrittenIs(raw, Memory(raw, base), base, Delta(raw, base), n, n);
    var head, mem := Header(raw, base, Delta(raw, base), n), Memory(raw, base);
    assert (head + mem[h..])[..h] == head && (head + mem[h..])[h..] == mem[h..];
  }

  lemma CommandsEndInside(raw: Bytes)
    requires WellFormed(raw)
    ensures HeaderEnd(raw) <= |raw|
  {
  }

  /** Every byte of a kept segment's contents is where the segment's address puts it. */
  lemma SegmentInPlace(raw: Bytes, k: nat, x: nat)
    requires WellFormed(raw) && k < Count(raw) && Copies(CmdAt(raw, k), Base(raw)) && x < FileSize(CmdAt(raw, k))
    requires MemOff(CmdAt(raw, k), Base(raw)) + x >= HeaderEnd(raw)
    ensures MemOff(CmdAt(raw, k), Base(raw)) + x < |Image(raw)| && FileOff(CmdAt(raw, k)) + x < |raw|
    ensures Image(raw)[MemOff(CmdAt(raw, k), Base(raw)) + x] == raw[FileOff(CmdAt(raw, k)) + x]
  {
    hide Int, Copied, MaxEnd, FindText, Scannable, CommandsOk, SegmentsOk, Image, StartsRewritten, TextHoldsHeader;
    var base, n, h := Base(raw), Count(raw), HeaderEnd(raw);
    FlattenedIs(raw);
    HeaderCopied(raw);
    CopiedHas(raw, base, Zeros(MaxEnd(raw, base, n)), n, n, k, x);
    var p := MemOff(CmdAt(raw, k), base) + x;
    assert Image(raw)[h..][p - h] == Memory(raw, base)[h..][p - h];
  }

  /** Only the load commands differ from plain memory; what no segment covers is zero. */
  lemma GapIsZero(raw: Bytes, p: nat)
    requires WellFormed(raw) && p < |Image(raw)|
    requires forall k :: 0 <= k < Count(raw) ==> !Covers(CmdAt(raw, k), Base(raw), p)
    ensures HeaderEnd(raw) <= p && Image(raw)[p] == 0
  {
    hide Int, Copied, MaxEnd, FindText, Scannable, CommandsOk, SegmentsOk, Image, StartsRewritten;
    var base, n, h := Base(raw), Count(raw), HeaderEnd(raw);
    FlattenedIs(raw);
    HeaderCopied(raw);
    var t := FindText(raw, 0, n);
    FindTextFirst(raw, 0, n);
    assert !Covers(CmdAt(raw, t), base, p);
    CopiedGap(raw, base, Zeros(MaxEnd(raw, base, n)), n, n, p);
    assert Image(raw)[h..][p - h] == Memory(raw, base)[h..][p - h];
  }

  /** The file header in front of the load commands is copied as it is. */
  lemma FileHeaderKept(raw: Bytes)
    requires WellFormed(raw)
    ensures |Image(raw)| >= 32 && Image(raw)[..32] == raw[..32]
  {
    hide Int, Memory, MaxEnd, FindText, Scannable, SegmentsOk, TextHoldsHeader, NewCommand, Image;
    FlattenedIs(raw);
    var base, n := Base(raw), Count(raw);
    HeaderBegins(raw, base, Delta(raw, base), n);
    var h := HeaderEnd(raw);
    assert Image(raw)[..h][..32] == Image(raw)[..32];
  }

  lemma {:induction false} HeaderBegins(raw: Bytes, base: nat, delta: int, k: nat)
    requires |raw| >= 32
    ensures |Header(raw, base, delta, k)| >= 32 && Header(raw, base, delta, k)[..32] == raw[..32]
  {
    hide NewCommand, Command;
    if k > 0 {
      HeaderBegins(raw, base, delta, k - 1);
    }
  }

  // ----- link-edit data -----

  /** The kernel's link-edit segment: kept, and neither at the start of the file nor of memory. */
  predicate LinkAt(raw: Bytes, k: nat) {
    && k < Count(raw) && Copies(CmdAt(raw, k), Base(raw)) && FileOff(CmdAt(raw, k)) != 0
    && Named(CmdAt(raw, k), LINKEDIT)
    && LastLink(raw, Base(raw), Count(raw)) == Link(FileOff(CmdAt(raw, k)), VmAddr(CmdAt(raw, k)) - Base(raw))
  }

  /** A link-edit file offset plus the displacement finds the same byte in the image. */
  lemma LinkeditFound(raw: Bytes, k: nat, o: nat)
    requires WellFormed(raw) && LinkAt(raw, k)
    requires FileOff(CmdAt(raw, k)) <= o < FileOff(CmdAt(raw, k)) + FileSize(CmdAt(raw, k))
    ensures 0 <= o + Delta(raw, Base(raw)) < |Image(raw)| && o < |raw|
    ensures Image(raw)[o + Delta(raw, Base(raw))] == raw[o]
  {
    hide Int, Memory, MaxEnd, Scannable, CommandsOk, Image, LastLink, Stripped, CmdOff;
    var base, n := Base(raw), Count(raw);
    var t := FindText(raw, 0, n);
    FindTextFirst(raw, 0, n);
    OffsetsGrow(raw, 0, n);
    assert t != k;
    assert Apart(CmdAt(raw, t), CmdAt(raw, k));
    assert MemOff(CmdAt(raw, k), base) >= HeaderEnd(raw);
    SegmentInPlace(raw, k, o - FileOff(CmdAt(raw, k)));
  }

  /** Field `f` of the command is the file offset of a piece of link-edit data: a table or a blob. */
  predicate Points(c: Bytes, f: nat) {
    || (Cmd(c) == SYMTAB && (f == 8 || f == 16))
    || (Cmd(c) == DYSYMTAB && f in {32, 40, 48, 56, 64, 72} && Int(c, f, 4) != 0)
    || (IsLinkeditData(Cmd(c)) && f == 8 && Int(c, f, 4) != 0)
  }

  lemma PointerMoves(c: Bytes, base: nat, delta: int, f: nat)
    requires Holds(c, base) && OffsetsFit(c, base, delta) && Points(c, f)
    ensures Int(Rewrite(c, base, delta), f, 4) == Int(c, f, 4) + delta
  {
    hide Int, Rewrite, Holds, OffsetsFit;
    if Cmd(c) == SYMTAB {
      SymtabOutcome(c, base, delta);
    } else if Cmd(c) == DYSYMTAB {
      var j := (f - 32) / 8;
      assert f == 32 + 8 * j;
      DysymtabOutcome(c, base, delta, j);
    } else {
      LinkeditOutcome(c, base, delta);
    }
  }

  /** Whatever table or blob a command points to, the rewritten command points to the same bytes in the image. */
  lemma PointedFound(raw: Bytes, k: nat, s: nat, f: nat, x: nat)
    requires WellFormed(raw) && LinkAt(raw, k) && s < Count(raw) && Points(Command(raw, s), f)
    requires FileOff(CmdAt(raw, k)) <= Int(Command(raw, s), f, 4) + x
    requires Int(Command(raw, s), f, 4) + x < FileOff(CmdAt(raw, k)) + FileSize(CmdAt(raw, k))
    ensures Int(Command(Image(raw), s), f, 4) + x < |Image(raw)| && Int(Command(raw, s), f, 4) + x < |raw|
    ensures Image(raw)[Int(Command(Image(raw), s), f, 4) + x] == raw[Int(Command(raw, s), f, 4) + x]
  {
    hide Int, Memory, MaxEnd, Scannable, Image, LastLink, Stripped, CmdOff, Header, Rewrite, Holds, OffsetsFit, Command;
    hide Points;
    var base, delta, n := Base(raw), Delta(raw, Base(raw)), Count(raw);
    FlattenedIs(raw);
    CommandRewritten(raw, Image(raw), base, delta, n, s);
    PointerMoves(Command(raw, s), base, delta, f);
    LinkeditFound(raw, k, Int(Command(raw, s), f, 4) + x);
  }
}
