/** What flattening means: the image holds every segment where memory wants it, and is its own image. */
module MachoImage {
  import opened Bytes
  import opened MachoCommands
  import opened MachoFlatten

  /** Command `k` as far as its own size reaches. */
  function Command(b: Bytes, k: nat): Bytes {
    ReadAt(b, CmdOff(b, k), Int(b, CmdOff(b, k) + 4, 4))
  }

  predicate Covers(c: Bytes, base: nat, p: nat) {
    Copies(c, base) && MemOff(c, base) <= p < MemOff(c, base) + FileSize(c)
  }

  predicate InFile(raw: Bytes, c: Bytes) {
    FileOff(c) + FileSize(c) <= |raw| && FileSize(c) <= VmSize(c)
  }

  predicate Apart(c: Bytes, d: Bytes) {
    VmAddr(c) + FileSize(c) <= VmAddr(d) || VmAddr(d) + FileSize(d) <= VmAddr(c)
  }

  /** The contents of the kept segments lie in the file and do not overlap in memory. */
  predicate SegmentsOk(raw: Bytes, base: nat, n: nat) {
    && (forall k :: 0 <= k < n && Copies(CmdAt(raw, k), base) ==> InFile(raw, CmdAt(raw, k)))
    && (forall j, k :: 0 <= j < k < n && Copies(CmdAt(raw, j), base) && Copies(CmdAt(raw, k), base) ==>
          Apart(CmdAt(raw, j), CmdAt(raw, k)))
  }

  predicate CommandsOk(raw: Bytes, base: nat, delta: int, n: nat) {
    && CmdOff(raw, n) <= |raw|
    && forall k :: 0 <= k < n ==> Holds(Command(raw, k), base) && OffsetsFit(Command(raw, k), base, delta)
  }

  /** `__TEXT` starts the file and holds the header with all load commands. */
  predicate TextHoldsHeader(raw: Bytes) {
    var c := CmdAt(raw, FindText(raw, 0, Count(raw)));
    FileOff(c) == 0 && FileSize(c) >= CmdOff(raw, Count(raw))
  }

  predicate WellFormed(raw: Bytes) {
    && Readable(raw)
    && CommandsOk(raw, Base(raw), Delta(raw, Base(raw)), Count(raw))
    && TextHoldsHeader(raw)
    && SegmentsOk(raw, Base(raw), Count(raw))
  }

  // ----- the memory image -----

  lemma {:induction false} KeptBelowEnd(raw: Bytes, base: nat, n: nat, k: nat)
    requires k < n && Kept(CmdAt(raw, k), base)
    ensures MemOff(CmdAt(raw, k), base) + VmSize(CmdAt(raw, k)) <= MaxEnd(raw, base, n)
    decreases n
  {
    hide Int;
    if k < n - 1 {
      KeptBelowEnd(raw, base, n - 1, k);
    }
  }

  /** The buffer is no longer than some kept segment needs. */
  lemma {:induction false} EndIsReached(raw: Bytes, base: nat, n: nat) returns (k: nat)
    requires MaxEnd(raw, base, n) > 0
    ensures k < n && Kept(CmdAt(raw, k), base)
    ensures MaxEnd(raw, base, n) == MemOff(CmdAt(raw, k), base) + VmSize(CmdAt(raw, k))
  {
    hide Int;
    if MaxEnd(raw, base, n) == MaxEnd(raw, base, n - 1) {
      k := EndIsReached(raw, base, n - 1);
    } else {
      k := n - 1;
    }
  }

  /** Inside the buffer a Python slice assignment of equal length is a plain overwrite. */
  lemma AssignIsSplice(b: Bytes, lo: nat, s: Bytes)
    requires lo + |s| <= |b|
    ensures SliceAssign(b, lo, |s|, s) == Splice(b, lo, s)
  {
  }

  lemma CopyStep(raw: Bytes, base: nat, mem: Bytes, n: nat, k: nat)
    requires SegmentsOk(raw, base, n) && k < n && Copies(CmdAt(raw, k), base)
    requires |Copied(raw, base, mem, k)| == MaxEnd(raw, base, n)
    ensures var c := CmdAt(raw, k);
            && MemOff(c, base) + FileSize(c) <= MaxEnd(raw, base, n)
            && InFile(raw, c)
            && Copied(raw, base, mem, k + 1) ==
               Splice(Copied(raw, base, mem, k), MemOff(c, base), raw[FileOff(c)..FileOff(c) + FileSize(c)])
  {
    hide Int, SliceAssign, Splice;
    var c := CmdAt(raw, k);
    KeptBelowEnd(raw, base, n, k);
    assert ReadAt(raw, FileOff(c), FileSize(c)) == raw[FileOff(c)..FileOff(c) + FileSize(c)];
    AssignIsSplice(Copied(raw, base, mem, k), MemOff(c, base), raw[FileOff(c)..FileOff(c) + FileSize(c)]);
  }

  lemma {:induction false} CopiedSize(raw: Bytes, base: nat, mem: Bytes, n: nat, k: nat)
    requires SegmentsOk(raw, base, n) && k <= n && |mem| == MaxEnd(raw, base, n)
    ensures |Copied(raw, base, mem, k)| == MaxEnd(raw, base, n)
    decreases k
  {
    hide Int, SliceAssign, SegmentsOk;
    if k > 0 {
      CopiedSize(raw, base, mem, n, k - 1);
      if Copies(CmdAt(raw, k - 1), base) {
        CopyStep(raw, base, mem, n, k - 1);
      }
    }
  }

  lemma {:induction false} CopiedHas(raw: Bytes, base: nat, mem: Bytes, n: nat, k: nat, j: nat, x: nat)
    requires SegmentsOk(raw, base, n) && j < k <= n && |mem| == MaxEnd(raw, base, n)
    requires Copies(CmdAt(raw, j), base) && x < FileSize(CmdAt(raw, j))
    ensures |Copied(raw, base, mem, k)| == MaxEnd(raw, base, n)
    ensures MemOff(CmdAt(raw, j), base) + x < MaxEnd(raw, base, n)
    ensures FileOff(CmdAt(raw, j)) + x < |raw|
    ensures Copied(raw, base, mem, k)[MemOff(CmdAt(raw, j), base) + x] == raw[FileOff(CmdAt(raw, j)) + x]
    decreases k
  {
    hide Int, SliceAssign, Splice, Copied;
    CopiedSize(raw, base, mem, n, k - 1);
    CopiedSize(raw, base, mem, n, k);
    var d, c := CmdAt(raw, j), CmdAt(raw, k - 1);
    if j == k - 1 {
      CopyStep(raw, base, mem, n, j);
      var was, s := Copied(raw, base, mem, j), raw[FileOff(d)..FileOff(d) + FileSize(d)];
      var now := Splice(was, MemOff(d, base), s);
      assert now[MemOff(d, base)..MemOff(d, base) + |s|][x] == s[x];
    } else {
      CopiedHas(raw, base, mem, n, k - 1, j, x);
      CopiedElse(raw, base, mem, n, k - 1, MemOff(d, base) + x);
    }
  }

  /** One copy leaves what it does not cover. */
  lemma CopiedElse(raw: Bytes, base: nat, mem: Bytes, n: nat, k: nat, p: nat)
    requires SegmentsOk(raw, base, n) && k < n && |mem| == MaxEnd(raw, base, n)
    requires p < MaxEnd(raw, base, n) && !Covers(CmdAt(raw, k), base, p)
    ensures |Copied(raw, base, mem, k)| == |Copied(raw, base, mem, k + 1)| == MaxEnd(raw, base, n)
    ensures Copied(raw, base, mem, k + 1)[p] == Copied(raw, base, mem, k)[p]
  {
    hide Int, SliceAssign, Splice, SegmentsOk;
    CopiedSize(raw, base, mem, n, k);
    CopiedSize(raw, base, mem, n, k + 1);
    if Copies(CmdAt(raw, k), base) {
      CopyStep(raw, base, mem, n, k);
    }
  }

  lemma {:induction false} CopiedGap(raw: Bytes, base: nat, mem: Bytes, n: nat, k: nat, p: nat)
    requires SegmentsOk(raw, base, n) && k <= n && |mem| == MaxEnd(raw, base, n)
    requires p < |mem| && forall j :: 0 <= j < k ==> !Covers(CmdAt(raw, j), base, p)
    ensures |Copied(raw, base, mem, k)| == |mem| && Copied(raw, base, mem, k)[p] == mem[p]
    decreases k
  {
    hide Int, SegmentsOk, Covers;
    CopiedSize(raw, base, mem, n, k);
    if k > 0 {
      CopiedGap(raw, base, mem, n, k - 1, p);
      CopiedElse(raw, base, mem, n, k - 1, p);
    }
  }

  // ----- the header -----

  lemma {:induction false} OffsetsGrow(b: Bytes, j: nat, k: nat)
    requires j <= k
    ensures 32 <= CmdOff(b, j) <= CmdOff(b, k)
    decreases k
  {
    hide Int;
    if j < k {
      OffsetsGrow(b, j, k - 1);
    } else if j > 0 {
      OffsetsGrow(b, j - 1, k - 1);
    }
  }

  lemma CommandSlice(raw: Bytes, n: nat, k: nat)
    requires CmdOff(raw, n) <= |raw| && k < n
    ensures CmdOff(raw, k) <= CmdOff(raw, k + 1) <= CmdOff(raw, n)
    ensures Command(raw, k) == raw[CmdOff(raw, k)..CmdOff(raw, k + 1)]
  {
    hide Int;
    OffsetsGrow(raw, k, k + 1);
    OffsetsGrow(raw, k + 1, n);
  }

  /** Command `k` as the flattened header holds it. */
  function NewCommand(raw: Bytes, base: nat, delta: int, k: nat): (c: Bytes)
    ensures |c| == |Command(raw, k)|
  {
    var c := Command(raw, k);
    if Holds(c, base) then Rewrite(c, base, delta) else c
  }

  /** The header with its first `k` commands rewritten. */
  function Header(raw: Bytes, base: nat, delta: int, k: nat): Bytes {
    if k == 0 then ReadAt(raw, 0, 32) else Header(raw, base, delta, k - 1) + NewCommand(raw, base, delta, k - 1)
  }

  lemma {:induction false} HeaderSize(raw: Bytes, base: nat, delta: int, n: nat, k: nat)
    requires CmdOff(raw, n) <= |raw| && k <= n
    ensures |Header(raw, base, delta, k)| == CmdOff(raw, k)
    decreases k
  {
    hide Int, Command, NewCommand;
    OffsetsGrow(raw, 0, n);
    if k > 0 {
      HeaderSize(raw, base, delta, n, k - 1);
      CommandSlice(raw, n, k - 1);
    }
  }

  /** The header region of `a` is that of `b`. */
  predicate SameHeader(a: Bytes, b: Bytes, h: nat) {
    h <= |a| && h <= |b| && a[..h] == b[..h]
  }

  /** Rewriting in place from any buffer that starts with the file's header. */
  lemma {:induction false} RewrittenIs(raw: Bytes, mem: Bytes, base: nat, delta: int, n: nat, k: nat)
    requires CommandsOk(raw, base, delta, n) && k <= n && SameHeader(raw, mem, CmdOff(raw, n))
    ensures CmdOff(raw, k) <= |mem|
    ensures Rewritten(mem, base, delta, k) ==
            At(Header(raw, base, delta, k) + mem[CmdOff(raw, k)..], CmdOff(raw, k))
    decreases k
  {
    hide Int, Rewrite, Holds, OffsetsFit, Header, Command;
    OffsetsGrow(raw, k, n);
    OffsetsGrow(raw, 0, n);
    if k == 0 {
      HeaderStart(raw, mem, base, delta, CmdOff(raw, n));
    } else {
      RewrittenIs(raw, mem, base, delta, n, k - 1);
      RewriteOne(raw, mem, base, delta, n, k - 1);
    }
  }

  lemma HeaderStart(raw: Bytes, mem: Bytes, base: nat, delta: int, h: nat)
    requires SameHeader(raw, mem, h) && h >= 32
    ensures Header(raw, base, delta, 0) + mem[32..] == mem
  {
    assert mem[..32] == mem[..h][..32] == raw[..h][..32] == raw[..32];
  }

  lemma RewriteOne(raw: Bytes, mem: Bytes, base: nat, delta: int, n: nat, k: nat)
    requires CommandsOk(raw, base, delta, n) && k < n && SameHeader(raw, mem, CmdOff(raw, n))
    requires CmdOff(raw, k) <= CmdOff(raw, k + 1) <= CmdOff(raw, n)
    ensures RewriteAt(Header(raw, base, delta, k) + mem[CmdOff(raw, k)..], CmdOff(raw, k), base, delta) ==
            At(Header(raw, base, delta, k + 1) + mem[CmdOff(raw, k + 1)..], CmdOff(raw, k + 1))
  {
    hide Int, Rewrite, Holds, OffsetsFit, CmdOff, Command;
    var off, next, h := CmdOff(raw, k), CmdOff(raw, k + 1), CmdOff(raw, n);
    var head, c, rest := Header(raw, base, delta, k), Command(raw, k), mem[next..];
    CommandSlice(raw, n, k);
    HeaderSize(raw, base, delta, n, k);
    assert mem[off..] == c + rest by {
      assert mem[off..next] == mem[..h][off..next] == raw[..h][off..next] == raw[off..next];
    }
    assert Tail(head + mem[off..], off) == c + rest;
    assert (head + mem[off..])[..off] == head;
    RewriteExtends(c, rest, base, delta);
    SizeField(raw, base, n, k);
    FieldExtends(c, rest, 4, 4);
    assert head + (Rewrite(c, base, delta) + rest) == head + Rewrite(c, base, delta) + rest;
  }

  lemma SizeField(raw: Bytes, base: nat, n: nat, k: nat)
    requires CmdOff(raw, n) <= |raw| && k < n && Holds(Command(raw, k), base)
    ensures |Command(raw, k)| >= 8
    ensures CmdOff(raw, k + 1) == CmdOff(raw, k) + Int(Command(raw, k), 4, 4)
  {
    hide Int, CmdOff;
    CommandSlice(raw, n, k);
    var c, off := Command(raw, k), CmdOff(raw, k);
    assert Tail(raw, off) == c + raw[CmdOff(raw, k + 1)..];
    FieldExtends(c, raw[CmdOff(raw, k + 1)..], 4, 4);
    NextOffset(raw, k);
  }

  lemma CommandLeads(b: Bytes, n: nat, k: nat) returns (rest: Bytes)
    requires CmdOff(b, n) <= |b| && k < n
    ensures CmdAt(b, k) == Command(b, k) + rest
  {
    hide Int, CmdOff;
    CommandSlice(b, n, k);
    rest := b[CmdOff(b, k + 1)..];
  }

  /** What every pass reads of a segment agrees with the segment's own command. */
  lemma SegmentFields(b: Bytes, n: nat, k: nat)
    requires CmdOff(b, n) <= |b| && k < n && |Command(b, k)| >= 8
    requires Cmd(Command(b, k)) == SEGMENT_64 ==> |Command(b, k)| >= 72
    ensures IsSegment(CmdAt(b, k)) == IsSegment(Command(b, k)) && |CmdAt(b, k)| >= |Command(b, k)|
    ensures IsSegment(CmdAt(b, k)) ==>
              && SegName(CmdAt(b, k)) == SegName(Command(b, k)) && VmAddr(CmdAt(b, k)) == VmAddr(Command(b, k))
              && VmSize(CmdAt(b, k)) == VmSize(Command(b, k)) && FileOff(CmdAt(b, k)) == FileOff(Command(b, k))
              && FileSize(CmdAt(b, k)) == FileSize(Command(b, k))
  {
    hide Int, CmdOff, Command, CmdAt;
    var c := Command(b, k);
    var rest := CommandLeads(b, n, k);
    FieldExtends(c, rest, 0, 4);
    if IsSegment(c) {
      FieldExtends(c, rest, 24, 8);
      FieldExtends(c, rest, 32, 8);
      FieldExtends(c, rest, 40, 8);
      FieldExtends(c, rest, 48, 8);
      assert ReadAt(c + rest, 8, 16) == ReadAt(c, 8, 16);
    }
  }

  lemma {:induction false} HeaderHas(raw: Bytes, base: nat, delta: int, n: nat, m: nat, k: nat)
    requires CmdOff(raw, n) <= |raw| && k < m <= n
    ensures CmdOff(raw, k) <= CmdOff(raw, k + 1) <= |Header(raw, base, delta, m)| == CmdOff(raw, m)
    ensures Header(raw, base, delta, m)[CmdOff(raw, k)..CmdOff(raw, k + 1)] == NewCommand(raw, base, delta, k)
    decreases m
  {
    hide Int, Command, NewCommand, CmdOff;
    HeaderSize(raw, base, delta, n, m);
    HeaderSize(raw, base, delta, n, m - 1);
    CommandSlice(raw, n, k);
    OffsetsGrow(raw, k + 1, m);
    if k < m - 1 {
      HeaderHas(raw, base, delta, n, m - 1, k);
      OffsetsGrow(raw, k + 1, m - 1);
    }
  }

  /** `out` starts with the rewritten header of `raw`. */
  predicate StartsRewritten(raw: Bytes, out: Bytes, base: nat, delta: int, n: nat) {
    && CommandsOk(raw, base, delta, n)
    && CmdOff(raw, n) == |Header(raw, base, delta, n)| <= |out|
    && out[..CmdOff(raw, n)] == Header(raw, base, delta, n)
  }

  lemma NewCommandAt(raw: Bytes, out: Bytes, base: nat, delta: int, n: nat, k: nat)
    requires StartsRewritten(raw, out, base, delta, n) && k < n
    ensures CmdOff(raw, k) <= CmdOff(raw, k + 1) <= |out|
    ensures out[CmdOff(raw, k)..CmdOff(raw, k + 1)] == Rewrite(Command(raw, k), base, delta)
  {
    hide Int, Command, CmdOff, Rewrite, Holds, OffsetsFit;
    HeaderHas(raw, base, delta, n, n, k);
    var h, i, j := CmdOff(raw, n), CmdOff(raw, k), CmdOff(raw, k + 1);
    assert out[..h][i..j] == out[i..j];
  }

  /** The commands of the flattened header start where the originals do and are their rewritings. */
  lemma {:induction false} OffsetsKept(raw: Bytes, out: Bytes, base: nat, delta: int, n: nat, k: nat)
    requires StartsRewritten(raw, out, base, delta, n) && k <= n
    ensures CmdOff(out, k) == CmdOff(raw, k)
    decreases k
  {
    hide Int, Command, Rewrite, Holds, OffsetsFit, Header;
    if k > 0 {
      OffsetsKept(raw, out, base, delta, n, k - 1);
      SizeKept(raw, out, base, delta, n, k - 1);
    }
  }

  lemma SizeKept(raw: Bytes, out: Bytes, base: nat, delta: int, n: nat, k: nat)
    requires StartsRewritten(raw, out, base, delta, n) && k < n
    ensures Int(out, CmdOff(raw, k) + 4, 4) == CmdOff(raw, k + 1) - CmdOff(raw, k)
  {
    hide Int, Command, CmdOff, Rewrite, Holds, OffsetsFit, Header;
    NewCommandAt(raw, out, base, delta, n, k);
    SizeField(raw, base, n, k);
    var c := Command(raw, k);
    RewriteKeepsHead(c, base, delta);
    var r, rest := Rewrite(c, base, delta), out[CmdOff(raw, k + 1)..];
    assert Tail(out, CmdOff(raw, k)) == r + rest;
    FieldExtends(r, rest, 4, 4);
    TailField(out, CmdOff(raw, k), 4, 4);
  }

  lemma CommandRewritten(raw: Bytes, out: Bytes, base: nat, delta: int, n: nat, k: nat)
    requires StartsRewritten(raw, out, base, delta, n) && k < n
    ensures CmdOff(out, k) == CmdOff(raw, k) && Command(out, k) == Rewrite(Command(raw, k), base, delta)
  {
    hide Int, CmdOff, Rewrite, Holds, OffsetsFit, Header;
    OffsetsKept(raw, out, base, delta, n, k);
    OffsetsKept(raw, out, base, delta, n, k + 1);
    OffsetsKept(raw, out, base, delta, n, n);
    NewCommandAt(raw, out, base, delta, n, k);
    CommandSlice(out, n, k);
  }

  /** A flattened segment: same name, addresses and sizes; its file offset is its memory offset. */
  lemma SegmentOutcome(raw: Bytes, out: Bytes, base: nat, delta: int, n: nat, k: nat)
    requires StartsRewritten(raw, out, base, delta, n) && k < n
    ensures var c, d := CmdAt(raw, k), CmdAt(out, k);
            && IsSegment(d) == IsSegment(c) && |d| >= 8
            && (IsSegment(c) ==>
                  && |d| >= 72 && SegName(d) == SegName(c) && VmAddr(d) == VmAddr(c) && VmSize(d) == VmSize(c)
                  && FileSize(d) == FileSize(c)
                  && FileOff(d) == if Kept(c, base) then MemOff(c, base) else FileOff(c))
  {
    hide Int, CmdOff, CmdAt, MoveSegment, Header;
    CommandRewritten(raw, out, base, delta, n, k);
    OffsetsKept(raw, out, base, delta, n, n);
    var c := Command(raw, k);
    RewriteKeepsHead(c, base, delta);
    SegmentFields(raw, n, k);
    SegmentFields(out, n, k);
    if IsSegment(c) {
      SegmentMoved(c, base);
      SegmentNameKept(c, base);
    }
  }
}
