/** The HFS+ catalog file as it lies on disk: up to eight extents of allocation blocks. */
module HfsStore {
  import opened Bytes
  import opened Wrappers
  import opened Arithmetic

  datatype Extent = Extent(start: nat, count: nat)

  // ----- logical block to disk block -----

  function Locate(exts: seq<Extent>, blk: nat): Option<nat> {
    if exts == [] then None
    else if blk < exts[0].count then Some(exts[0].start + blk)
    else Locate(exts[1..], blk - exts[0].count)
  }

  function Covered(exts: seq<Extent>): nat {
    if exts == [] then 0 else exts[0].count + Covered(exts[1..])
  }

  lemma {:induction false} LocateIffCovered(exts: seq<Extent>, blk: nat)
    ensures Locate(exts, blk).Some? <==> blk < Covered(exts)
  {
    if exts != [] && blk >= exts[0].count {
      LocateIffCovered(exts[1..], blk - exts[0].count);
    }
  }

  predicate Inside(e: Extent, b: nat) {
    e.start <= b < e.start + e.count
  }

  /** No disk block belongs to two extents. */
  predicate DisjointExtents(exts: seq<Extent>) {
    forall i, j :: 0 <= i < j < |exts| ==>
      exts[i].start + exts[i].count <= exts[j].start || exts[j].start + exts[j].count <= exts[i].start
  }

  lemma {:induction false} LocateInside(exts: seq<Extent>, blk: nat) returns (i: nat)
    requires Locate(exts, blk).Some?
    ensures i < |exts| && Inside(exts[i], Locate(exts, blk).value)
  {
    if blk < exts[0].count {
      i := 0;
    } else {
      var k := LocateInside(exts[1..], blk - exts[0].count);
      i := k + 1;
    }
  }

  /** Over disjoint extents, different logical blocks lie in different disk blocks. */
  lemma {:induction false} LocateInjective(exts: seq<Extent>, a: nat, b: nat)
    requires DisjointExtents(exts) && Locate(exts, a).Some? && Locate(exts, a) == Locate(exts, b)
    ensures a == b
  {
    var c := exts[0].count;
    if a < c && b >= c {
      var i := LocateInside(exts[1..], b - c);
    } else if b < c && a >= c {
      var i := LocateInside(exts[1..], a - c);
    } else if a >= c {
      LocateInjective(exts[1..], a - c, b - c);
    }
  }

  // ----- logical byte to disk byte -----

  /** Where a catalog lies on a volume image. */
  datatype Map = Map(blockSize: nat, exts: seq<Extent>)

  predicate Sound(m: Map) {
    m.blockSize > 0 && DisjointExtents(m.exts)
  }

  function Size(m: Map): nat {
    Covered(m.exts) * m.blockSize
  }

  /** `cat_to_disk`, where the offset is in range. */
  function Pos(m: Map, off: nat): nat
    requires m.blockSize > 0 && off < Size(m)
  {
    DivLess(off, m.blockSize, Covered(m.exts));
    LocateIffCovered(m.exts, off / m.blockSize);
    Locate(m.exts, off / m.blockSize).value * m.blockSize + off % m.blockSize
  }

  function LocateByte(m: Map, off: nat): (r: (nat, nat))
    requires m.blockSize > 0 && off < Size(m)
    ensures Locate(m.exts, off / m.blockSize) == Some(r.0) && r.1 == off % m.blockSize
    ensures Pos(m, off) == r.0 * m.blockSize + r.1
  {
    DivLess(off, m.blockSize, Covered(m.exts));
    LocateIffCovered(m.exts, off / m.blockSize);
    (Locate(m.exts, off / m.blockSize).value, off % m.blockSize)
  }

  /** The mapping is injective on the covered range. */
  lemma PosInjective(m: Map, a: nat, b: nat)
    requires Sound(m) && a < Size(m) && b < Size(m) && Pos(m, a) == Pos(m, b)
    ensures a == b
  {
    hide Locate, Covered, DisjointExtents;
    var k := m.blockSize;
    var x, y := LocateByte(m, a), LocateByte(m, b);
    DivModUnique(x.0, x.1, y.0, y.1, k);
    LocateInjective(m.exts, a / k, b / k);
    DivSplit(a, k);
    DivSplit(b, k);
  }

  /** Within one block, logical neighbours are disk neighbours. */
  lemma PosStep(m: Map, off: nat, i: nat)
    requires m.blockSize > 0 && off + i < Size(m) && off % m.blockSize + i < m.blockSize
    ensures Pos(m, off + i) == Pos(m, off) + i
  {
    var k := m.blockSize;
    var q := off / k;
    DivSplit(off, k);
    DivSplit(off + i, k);
    DivModUnique(q, off % k + i, (off + i) / k, (off + i) % k, k);
  }

  /** The extent loop of `cat_to_disk`; an offset past the last extent is an error. */
  method CatToDisk(m: Map, off: nat) returns (r: Option<nat>)
    requires m.blockSize > 0
    ensures r.Some? <==> off < Size(m)
    ensures r.Some? ==> r.value == Pos(m, off)
  {
    hide Size, Covered, Pos;
    var blk := off / m.blockSize;
    BlockRange(m, off);
    var cur := 0;
    for i := 0 to |m.exts|
      invariant cur <= blk
      invariant Locate(m.exts, blk) == Locate(m.exts[i..], blk - cur)
    {
      var e := m.exts[i];
      if blk < cur + e.count {
        PosFrom(m, off, e.start + (blk - cur));
        return Some((e.start + (blk - cur)) * m.blockSize + off % m.blockSize);
      }
      cur := cur + e.count;
      assert m.exts[i..][1..] == m.exts[i + 1..];
    }
    return None;
  }

  lemma PosFrom(m: Map, off: nat, blk: nat)
    requires m.blockSize > 0 && off < Size(m) && Locate(m.exts, off / m.blockSize) == Some(blk)
    ensures Pos(m, off) == blk * m.blockSize + off % m.blockSize
  {
    hide Locate, Covered;
  }

  lemma BlockRange(m: Map, off: nat)
    requires m.blockSize > 0
    ensures off < Size(m) <==> Locate(m.exts, off / m.blockSize).Some?
  {
    LocateIffCovered(m.exts, off / m.blockSize);
    var q, k := off / m.blockSize, m.blockSize;
    DivSplit(off, k);
    if off < Size(m) {
      DivLess(off, k, Covered(m.exts));
    } else if q < Covered(m.exts) {
      MulNext(q, Covered(m.exts), k);
    }
  }

  // ----- the catalog as one logical byte string -----

  predicate OnDisk(m: Map, data: Bytes) {
    forall i :: 0 <= i < |m.exts| ==> (m.exts[i].start + m.exts[i].count) * m.blockSize <= |data|
  }

  lemma PosOnDisk(m: Map, data: Bytes, off: nat)
    requires m.blockSize > 0 && OnDisk(m, data) && off < Size(m)
    ensures Pos(m, off) < |data|
  {
    var x := LocateByte(m, off);
    var i := LocateInside(m.exts, off / m.blockSize);
    MulNext(x.0, m.exts[i].start + m.exts[i].count, m.blockSize);
  }

  ghost function Logical(m: Map, data: Bytes): (cat: Bytes)
    requires m.blockSize > 0 && OnDisk(m, data)
    ensures |cat| == Size(m)
    ensures forall l :: 0 <= l < Size(m) ==> Pos(m, l) < |data| && cat[l] == data[Pos(m, l)]
  {
    forall l | 0 <= l < Size(m) ensures Pos(m, l) < |data| {
      PosOnDisk(m, data, l);
    }
    seq(Size(m), l requires 0 <= l < Size(m) => data[Pos(m, l)])
  }

  /** No byte outside the catalog's blocks differs. */
  ghost predicate SameOutside(m: Map, d: Bytes, e: Bytes)
    requires m.blockSize > 0
  {
    |d| == |e| && forall p :: 0 <= p < |d| && d[p] != e[p] ==> exists l :: 0 <= l < Size(m) && Pos(m, l) == p
  }

  lemma StepInRange(m: Map, off: nat, step: nat)
    requires m.blockSize > 0 && off < Size(m) && off % m.blockSize + step <= m.blockSize
    ensures off + step <= Size(m)
  {
    var k := m.blockSize;
    DivSplit(off, k);
    DivLess(off, k, Covered(m.exts));
    MulNext(off / k, Covered(m.exts), k);
  }

  /** A run of bytes inside one block is read off the disk in one piece. */
  lemma ChunkRead(m: Map, data: Bytes, off: nat, step: nat)
    requires m.blockSize > 0 && OnDisk(m, data) && 0 < step && off + step <= Size(m)
    requires off % m.blockSize + step <= m.blockSize
    ensures Pos(m, off) + step <= |data|
    ensures data[Pos(m, off)..Pos(m, off) + step] == Logical(m, data)[off..off + step]
  {
    var cat, p := Logical(m, data), Pos(m, off);
    hide Pos;
    PosStep(m, off, step - 1);
    var t, u := data[p..p + step], cat[off..off + step];
    forall i | 0 <= i < step ensures t[i] == u[i] {
      PosStep(m, off, i);
      assert u[i] == cat[off + i] == data[p + i] == t[i];
    }
  }

  /** ... and written in one piece, touching no other logical byte. */
  lemma ChunkWrite(m: Map, data: Bytes, off: nat, s: Bytes)
    requires Sound(m) && OnDisk(m, data) && s != [] && off + |s| <= Size(m)
    requires off % m.blockSize + |s| <= m.blockSize
    ensures Pos(m, off) + |s| <= |data|
    ensures var e := Splice(data, Pos(m, off), s);
            OnDisk(m, e) && Logical(m, e) == Splice(Logical(m, data), off, s) && SameOutside(m, data, e)
  {
    hide Pos, DisjointExtents, Splice, Logical;
    ChunkRead(m, data, off, |s|);
    var p := Pos(m, off);
    var e := Splice(data, p, s);
    var cat := Splice(Logical(m, data), off, s);
    forall l | 0 <= l < Size(m) ensures Logical(m, e)[l] == cat[l] {
      if off <= l < off + |s| {
        PosStep(m, off, l - off);
        assert e[p + (l - off)] == e[p..p + |s|][l - off];
        assert cat[l] == cat[off..off + |s|][l - off];
      } else {
        ChunkMiss(m, off, |s|, l);
      }
    }
    forall q | 0 <= q < |data| && data[q] != e[q] ensures exists l :: 0 <= l < Size(m) && Pos(m, l) == q {
      PosStep(m, off, q - p);
    }
  }

  lemma ChunkMiss(m: Map, off: nat, n: nat, l: nat)
    requires Sound(m) && off + n <= Size(m) && off % m.blockSize + n <= m.blockSize && l < Size(m)
    requires n > 0 && !(off <= l < off + n)
    ensures !(Pos(m, off) <= Pos(m, l) < Pos(m, off) + n)
  {
    if Pos(m, off) <= Pos(m, l) < Pos(m, off) + n {
      var i := Pos(m, l) - Pos(m, off);
      PosStep(m, off, i);
      PosInjective(m, l, off + i);
    }
  }

  lemma SliceGrows(s: Bytes, a: nat, b: nat, c: nat)
    requires a <= b <= c <= |s|
    ensures s[a..b] + s[b..c] == s[a..c] && s[a..a] == []
  {
  }

  lemma SameOutsideTrans(m: Map, a: Bytes, b: Bytes, c: Bytes)
    requires m.blockSize > 0 && SameOutside(m, a, b) && SameOutside(m, b, c)
    ensures SameOutside(m, a, c)
  {
    forall p | 0 <= p < |a| && a[p] != c[p] ensures exists l :: 0 <= l < Size(m) && Pos(m, l) == p {
      assert a[p] != b[p] || b[p] != c[p];
    }
  }

  class CatalogFile {
    const layout: Map
    var data: Bytes

    constructor (m: Map, image: Bytes)
      requires Sound(m) && OnDisk(m, image)
      ensures layout == m && data == image && Valid()
    {
      layout := m;
      data := image;
    }

    ghost predicate Valid()
      reads this
    {
      Sound(layout) && OnDisk(layout, data)
    }

    ghost function Cat(): Bytes
      requires Valid()
      reads this
    {
      Logical(layout, data)
    }

    /** Reads `size` bytes block by block, since they may span extents. */
    method ReadRange(start: nat, size: nat) returns (r: Option<Bytes>)
      requires Valid() && size > 0
      ensures r.Some? <==> start + size <= Size(layout)
      ensures r.Some? ==> r.value == Cat()[start..start + size]
    {
      hide OnDisk, DisjointExtents, Pos, Logical, Covered, Size;
      var buf: Bytes, rem, off := [], size, start;
      while rem > 0
        invariant 0 <= rem <= size && off + rem == start + size && start <= off
        invariant off == start || off <= Size(layout)
        invariant off > start ==> buf == Cat()[start..off]
        invariant off == start ==> buf == []
      {
        var step := if rem < layout.blockSize - off % layout.blockSize then rem
                    else layout.blockSize - off % layout.blockSize;
        var p := CatToDisk(layout, off);
        if p.None? {
          return None;
        }
        StepInRange(layout, off, step);
        ChunkRead(layout, data, off, step);
        SliceGrows(Cat(), start, off, off + step);
        buf := buf + data[p.value..p.value + step];
        off := off + step;
        rem := rem - step;
      }
      return Some(buf);
    }

    method ReadNode(node: nat, size: nat) returns (r: Option<Bytes>)
      requires Valid() && size > 0
      ensures r.Some? <==> node * size + size <= Size(layout)
      ensures r.Some? ==> r.value == Cat()[node * size..node * size + size]
    {
      hide OnDisk, DisjointExtents, Pos, Logical, Covered, Size;
      r := ReadRange(node * size, size);
    }

    /** Writes one node block by block; every other catalog byte and every byte off the catalog is kept. */
    method WriteNode(node: nat, size: nat, buf: Bytes)
      requires Valid() && size > 0 && |buf| == size && node * size + size <= Size(layout)
      modifies this`data
      ensures Valid() && Cat() == Splice(old(Cat()), node * size, buf)
      ensures SameOutside(layout, old(data), data)
    {
      hide SameOutside, OnDisk, DisjointExtents, Pos, Splice, Logical;
      var start := node * size;
      var rem, off, pos := size, start, 0;
      ghost var before := Cat();
      SameOutsideRefl(layout, data);
      SpliceNone(before, start);
      while rem > 0
        invariant 0 <= rem <= size && off == start + pos && pos + rem == size
        invariant Valid() && SameOutside(layout, old(data), data)
        invariant Cat() == Splice(before, start, buf[..pos])
      {
        var step := if rem < layout.blockSize - off % layout.blockSize then rem
                    else layout.blockSize - off % layout.blockSize;
        var p := CatToDisk(layout, off);
        ghost var here := data;
        ChunkWrite(layout, data, off, buf[pos..pos + step]);
        data := Splice(data, p.value, buf[pos..pos + step]);
        SameOutsideTrans(layout, old(data), here, data);
        SpliceJoin(before, start, buf, pos, step);
        off := off + step;
        pos := pos + step;
        rem := rem - step;
      }
      assert buf[..size] == buf;
    }
  }

  lemma SameOutsideRefl(m: Map, d: Bytes)
    requires m.blockSize > 0
    ensures SameOutside(m, d, d)
  {
  }

  lemma SpliceNone(b: Bytes, off: nat)
    requires off <= |b|
    ensures Splice(b, off, []) == b
  {
  }

  lemma SpliceJoin(b: Bytes, off: nat, s: Bytes, pos: nat, step: nat)
    requires off + |s| <= |b| && pos + step <= |s|
    ensures Splice(Splice(b, off, s[..pos]), off + pos, s[pos..pos + step]) == Splice(b, off, s[..pos + step])
  {
    assert s[..pos + step] == s[..pos] + s[pos..pos + step];
  }
}
