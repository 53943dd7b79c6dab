/** The encoder's run-length state machine, its batched fast path, and the conversion of a volume. */
module SparseEncode {
  import opened Bytes
  import opened SparseFormat
  import opened Wrappers

  // ----- the state machine, one block at a time -----

  datatype Item = Free | Zero | Data(block: Bytes)

  /** Finished runs and the run being collected. */
  datatype State = State(done: seq<Chunk>, open: Option<Chunk>)

  function Flush(s: State): State {
    if s.open.None? then s else State(s.done + [s.open.value], None)
  }

  /** Adds `n` blocks of kind `k`: to the open run if it has that kind and room, else to a new one. */
  function Extend(s: State, k: Kind, n: nat, raw: Bytes): State {
    if s.open.Some? && s.open.value.kind == k && (k == Raw ==> s.open.value.count < MAX_RAW)
    then State(s.done, Some(Chunk(k, s.open.value.count + n, s.open.value.raw + raw)))
    else State(Flush(s).done, Some(Chunk(k, n, raw)))
  }

  function Step(s: State, x: Item): State {
    match x
    case Free => Extend(s, DontCare, 1, [])
    case Zero => Extend(s, Fill, 1, [])
    case Data(b) => Extend(s, Raw, 1, b)
  }

  function Fold(items: seq<Item>): State {
    if items == [] then State([], None) else Step(Fold(items[..|items| - 1]), items[|items| - 1])
  }

  /** The plain encoder: fold, then flush. */
  function Encode(items: seq<Item>): seq<Chunk> {
    Flush(Fold(items)).done
  }

  function Frees(n: nat): seq<Item> {
    seq(n, _ => Free)
  }

  /** Adding a whole batch of free blocks at once is adding them one by one. */
  lemma {:induction false} BatchIsFold(items: seq<Item>, n: nat)
    requires n > 0
    ensures Extend(Fold(items), DontCare, n, []) == Fold(items + Frees(n))
  {
    var all := items + Frees(n);
    assert all[..|all| - 1] == items + Frees(n - 1) && all[|all| - 1] == Free;
    if n == 1 {
      assert items + Frees(0) == items;
    } else {
      BatchIsFold(items, n - 1);
      ExtendTwice(Fold(items), n - 1);
    }
  }

  lemma ExtendTwice(s: State, n: nat)
    ensures Extend(Extend(s, DontCare, n, []), DontCare, 1, []) == Extend(s, DontCare, n + 1, [])
  {
    if s.open.Some? {
      var raw := s.open.value.raw;
      assert raw + [] + [] == raw + [];
    }
    var none: Bytes := [];
    assert none + none == none;
  }

  // ----- the runs are right, maximal and bounded -----

  predicate ItemOk(x: Item) {
    x.Data? ==> |x.block| == BLOCK
  }

  function Meaning(x: Item): Option<Bytes> {
    match x case Free => None case Zero => Some(Zeros(BLOCK)) case Data(b) => Some(b)
  }

  predicate ItemsOk(items: seq<Item>) {
    forall i :: 0 <= i < |items| ==> ItemOk(items[i])
  }

  function Meanings(items: seq<Item>): seq<Option<Bytes>> {
    seq(|items|, i requires 0 <= i < |items| => Meaning(items[i]))
  }

  /** A run next to another of its kind must be a full raw run followed by a raw run. */
  predicate Neighbours(a: Chunk, b: Chunk) {
    a.kind == b.kind ==> a.kind == Raw && a.count == MAX_RAW
  }

  predicate Maximal(cs: seq<Chunk>) {
    forall i :: 0 <= i < |cs| - 1 ==> Neighbours(cs[i], cs[i + 1])
  }

  predicate RunsOk(cs: seq<Chunk>) {
    forall i :: 0 <= i < |cs| ==> ChunkOk(cs[i]) && (cs[i].kind == Raw ==> cs[i].count <= MAX_RAW)
  }

  lemma ExpandGrows(c: Chunk, n: nat, raw: Bytes, tail: seq<Option<Bytes>>)
    requires ChunkOk(c) && n == 1 && |raw| == (if c.kind == Raw then BLOCK else 0)
    requires tail == [if c.kind == Raw then Some(raw) else if c.kind == Fill then Some(Zeros(BLOCK)) else None]
    ensures ChunkOk(Chunk(c.kind, c.count + n, c.raw + raw))
    ensures Expand(Chunk(c.kind, c.count + n, c.raw + raw)) == Expand(c) + tail
  {
    var d := Chunk(c.kind, c.count + n, c.raw + raw);
    forall i | 0 <= i < d.count ensures Expand(d)[i] == (Expand(c) + tail)[i] {
      if c.kind == Raw {
        if i < c.count {
          assert (i + 1) * BLOCK <= c.count * BLOCK;
          assert d.raw[i * BLOCK..(i + 1) * BLOCK] == c.raw[i * BLOCK..(i + 1) * BLOCK];
        } else {
          assert d.raw[i * BLOCK..(i + 1) * BLOCK] == raw;
        }
      }
    }
  }

  lemma ExpandOne(k: Kind, raw: Bytes)
    requires |raw| == (if k == Raw then BLOCK else 0)
    ensures ChunkOk(Chunk(k, 1, raw))
    ensures Expand(Chunk(k, 1, raw)) == [if k == Raw then Some(raw) else if k == Fill then Some(Zeros(BLOCK)) else None]
  {
    if k == Raw {
      assert raw[0 * BLOCK..(0 + 1) * BLOCK] == raw;
    }
  }

  function All(s: State): seq<Chunk> {
    Flush(s).done
  }

  lemma ExpandSnoc(cs: seq<Chunk>, c: Chunk)
    requires ChunksOk(cs) && ChunkOk(c)
    ensures ChunksOk(cs + [c]) && ExpandAll(cs + [c]) == ExpandAll(cs) + Expand(c)
  {
    assert (cs + [c])[..|cs|] == cs;
  }

  /** What the next block must do to the runs so far. */
  predicate Appends(before: seq<Chunk>, after: seq<Chunk>, m: Option<Bytes>) {
    && RunsOk(before) && RunsOk(after) && Maximal(after)
    && ChunksOk(before) && ChunksOk(after) && ExpandAll(after) == ExpandAll(before) + [m]
  }

  lemma GrowKeeps(done: seq<Chunk>, c: Chunk, raw: Bytes, m: Option<Bytes>)
    requires RunsOk(done + [c]) && Maximal(done + [c]) && (c.kind == Raw ==> c.count < MAX_RAW)
    requires |raw| == (if c.kind == Raw then BLOCK else 0)
    requires m == if c.kind == Raw then Some(raw) else if c.kind == Fill then Some(Zeros(BLOCK)) else None
    ensures Appends(done + [c], done + [Chunk(c.kind, c.count + 1, c.raw + raw)], m)
  {
    hide Expand, ExpandAll;
    var d := Chunk(c.kind, c.count + 1, c.raw + raw);
    var all := done + [c];
    assert all[|done|] == c;
    forall i | 0 <= i < |done| ensures all[i] == done[i] && ChunkOk(done[i]) {
      assert ChunkOk(all[i]);
    }
    ExpandGrows(c, 1, raw, [m]);
    ExpandSnoc(done, c);
    ExpandSnoc(done, d);
    MaximalReplace(done, c, d);
    assert ExpandAll(done) + (Expand(c) + [m]) == ExpandAll(done) + Expand(c) + [m];
  }

  lemma OpenKeeps(done: seq<Chunk>, k: Kind, raw: Bytes, m: Option<Bytes>)
    requires RunsOk(done) && Maximal(done) && |raw| == (if k == Raw then BLOCK else 0)
    requires done != [] ==> Neighbours(done[|done| - 1], Chunk(k, 1, raw))
    requires m == if k == Raw then Some(raw) else if k == Fill then Some(Zeros(BLOCK)) else None
    ensures Appends(done, done + [Chunk(k, 1, raw)], m)
  {
    hide Expand, ExpandAll;
    ExpandOne(k, raw);
    ExpandSnoc(done, Chunk(k, 1, raw));
  }

  /** One step appends one block's meaning and keeps the runs bounded and maximal. */
  lemma StepKeeps(s: State, x: Item)
    requires RunsOk(All(s)) && Maximal(All(s)) && ItemOk(x) && (s.open.None? ==> s.done == [])
    ensures Appends(All(s), All(Step(s, x)), Meaning(x))
  {
    hide Appends, RunsOk, Maximal;
    var k: Kind := match x case Free => DontCare case Zero => Fill case Data(_) => Raw;
    var raw := if x.Data? then x.block else [];
    if s.open.Some? && s.open.value.kind == k && (k == Raw ==> s.open.value.count < MAX_RAW) {
      GrowKeeps(s.done, s.open.value, raw, Meaning(x));
    } else {
      if s.open.Some? {
        LastBounded(s.done, s.open.value);
      }
      OpenKeeps(All(s), k, raw, Meaning(x));
    }
  }
  lemma LastBounded(done: seq<Chunk>, c: Chunk)
    requires RunsOk(done + [c])
    ensures c.kind == Raw ==> c.count <= MAX_RAW
  {
    assert (done + [c])[|done|] == c;
  }

  lemma MaximalReplace(cs: seq<Chunk>, c: Chunk, d: Chunk)
    requires Maximal(cs + [c]) && c.kind == d.kind
    ensures Maximal(cs + [d])
  {
    forall i | 0 <= i < |cs| ensures Neighbours((cs + [d])[i], (cs + [d])[i + 1]) {
      assert Neighbours((cs + [c])[i], (cs + [c])[i + 1]);
    }
  }

  /** Expanding the encoded runs gives every block back: its contents if allocated, nothing if free. */
  lemma {:induction false} EncodeCorrect(items: seq<Item>)
    requires ItemsOk(items)
    ensures var cs := Encode(items);
            RunsOk(cs) && Maximal(cs) && ChunksOk(cs) && ExpandAll(cs) == Meanings(items)
    ensures items != [] ==> Fold(items).open.Some?
    ensures items == [] ==> Fold(items) == State([], None)
  {
    hide RunsOk, Maximal, ChunksOk, Step;
    if items == [] {
      EmptyRuns();
    } else {
      var init, last := items[..|items| - 1], items[|items| - 1];
      EncodeCorrect(init);
      StepKeeps(Fold(init), last);
      StepOpens(Fold(init), last);
      assert Meanings(items) == Meanings(init) + [Meaning(last)];
    }
  }

  lemma StepOpens(s: State, x: Item)
    ensures Step(s, x).open.Some?
  {
  }

  lemma EmptyRuns()
    ensures RunsOk([]) && Maximal([]) && ChunksOk([])
  {
  }

  lemma {:induction false} RunsWithin(cs: seq<Chunk>, i: nat)
    requires ChunksOk(cs) && i < |cs|
    ensures cs[i].count <= |ExpandAll(cs)| && |cs| <= |ExpandAll(cs)|
  {
    var init := cs[..|cs| - 1];
    if i < |cs| - 1 {
      RunsWithin(init, i);
      assert ChunkOk(cs[|cs| - 1]);
    } else if |cs| > 1 {
      RunsWithin(init, 0);
    }
  }

  /** A volume of fewer than 2^32 blocks encodes into chunks whose fields all fit. */
  lemma EncodeFits(items: seq<Item>)
    requires ItemsOk(items) && |items| < 0x1_0000_0000
    ensures |Encode(items)| < 0x1_0000_0000
    ensures forall i :: 0 <= i < |Encode(items)| ==> ChunkFits(Encode(items)[i])
  {
    hide Encode, Maximal, ExpandAll;
    EncodeCorrect(items);
    var cs := Encode(items);
    if cs != [] {
      RunsWithin(cs, 0);
    }
    forall i | 0 <= i < |cs| ensures ChunkFits(cs[i]) {
      RunsWithin(cs, i);
    }
  }
}
