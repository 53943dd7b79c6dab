/** The ownership patch on the bytes of the disk image: where the catalog lies, and which bytes a run may change. */
module HfsDisk {
  import opened Bytes
  import opened HfsStore
  import opened HfsNodes
  import opened HfsPaths
  import opened HfsPlan
  import opened HfsPatch
  import opened HfsCatalog
  import opened HfsOwners
  import opened HfsImage
  import opened HfsBytes
  import opened Arithmetic
  import opened Wrappers

  // ----- the extents -----

  lemma {:induction false} LocateAt(exts: seq<Extent>, k: nat, t: nat)
    requires k < |exts| && t < exts[k].count
    ensures Locate(exts, Covered(exts[..k]) + t) == Some(exts[k].start + t)
  {
    if k > 0 {
      LocateAt(exts[1..], k - 1, t);
      assert exts[..k][1..] == exts[1..][..k - 1];
    }
  }

  lemma {:induction false} CoveredParts(exts: seq<Extent>, k: nat)
    requires k < |exts|
    ensures Covered(exts[..k]) + exts[k].count <= Covered(exts)
  {
    if k > 0 {
      CoveredParts(exts[1..], k - 1);
      assert exts[..k][1..] == exts[1..][..k - 1];
    }
  }

  /** The extents follow one another in the catalog: byte `t` of extent `k` lies `t` bytes into it on the disk. */
  lemma PosIs(m: Map, k: nat, t: nat)
    requires m.blockSize > 0 && k < |m.exts| && t < m.exts[k].count * m.blockSize
    ensures Covered(m.exts[..k]) * m.blockSize + t < Size(m)
    ensures Pos(m, Covered(m.exts[..k]) * m.blockSize + t) == m.exts[k].start * m.blockSize + t
  {
    hide Locate, Covered;
    var bs, before := m.blockSize, Covered(m.exts[..k]);
    DivSplit(t, bs);
    DivLess(t, bs, m.exts[k].count);
    CoveredParts(m.exts, k);
    MulNext(before + t / bs, Covered(m.exts), bs);
    assert (before + t / bs) * bs == before * bs + t / bs * bs;
    var off := before * bs + t;
    DivSplit(off, bs);
    DivModUnique(off / bs, off % bs, before + t / bs, t % bs, bs);
    LocateAt(m.exts, k, t / bs);
    assert (m.exts[k].start + t / bs) * bs == m.exts[k].start * bs + t / bs * bs;
  }

  // ----- the volume header -----

  /** Extent descriptor `i` of the catalog, in the volume header at 1024. */
  function ExtentAt(image: Bytes, i: nat): Extent {
    Extent(U(image, 1312 + 8 * i, 4), U(image, 1316 + 8 * i, 4))
  }

  /** The descriptors from `i` to the eighth that are not empty. */
  function ExtentsFrom(image: Bytes, i: nat): seq<Extent>
    decreases 8 - i
  {
    if i >= 8 then [] else (if ExtentAt(image, i).count > 0 then [ExtentAt(image, i)] else []) + ExtentsFrom(image, i + 1)
  }

  /** A field of a piece that was read is a field of the whole. */
  lemma NestedField(b: Bytes, o: nat, n: nat, i: nat, k: nat)
    requires i + k <= |ReadAt(b, o, n)|
    ensures U(ReadAt(b, o, n), i, k) == U(b, o + i, k)
  {
    var r := ReadAt(b, o, n);
    if r != [] {
      assert r == b[o..o + |r|];
      SliceSlice(b, o, o + |r|, i, i + k);
      assert ReadAt(r, i, k) == r[i..i + k] && ReadAt(b, o + i, k) == b[o + i..o + i + k];
    }
  }

  lemma ForkField(image: Bytes, o: nat)
    requires |VolumeHeader(image)| >= 352 && o + 4 <= 80
    ensures U(CatalogFork(image), o, 4) == U(image, 1296 + o, 4)
  {
    hide U;
    NestedField(VolumeHeader(image), 272, 80, o, 4);
    NestedField(image, 0x400, 512, 272 + o, 4);
  }

  lemma {:induction false} ExtentsSplit(image: Bytes, n: nat)
    requires |VolumeHeader(image)| >= 352 && n <= 8
    ensures ExtentsUpTo(CatalogFork(image), n) + ExtentsFrom(image, n) == ExtentsFrom(image, 0)
  {
    hide U, VolumeHeader, CatalogFork;
    if n > 0 {
      ExtentsSplit(image, n - 1);
      ForkField(image, 8 + n * 8);
      ForkField(image, 12 + n * 8);
      assert ExtentAt(image, n - 1) == Extent(U(CatalogFork(image), 8 + n * 8, 4), U(CatalogFork(image), 12 + n * 8, 4));
    }
  }

  /** A volume opens exactly when its header says so, and then its catalog lies in the listed extents. */
  lemma OpensIff(image: Bytes)
    ensures Opens(image) <==>
            && |image| >= 1376 && image[1024] == 72 && (image[1025] == 88 || image[1025] == 43)
            && U(image, 1308, 4) <= Covered(ExtentsFrom(image, 0))
    ensures Opens(image) ==> CatalogMap(image) == Map(U(image, 1064, 4), ExtentsFrom(image, 0))
  {
    hide U, ExtentsUpTo, ExtentsFrom, Covered, CatalogFork;
    assert |VolumeHeader(image)| >= 352 <==> |image| >= 1376;
    if |image| >= 1376 {
      NestedField(image, 0x400, 512, 40, 4);
      ForkField(image, 12);
      ExtentsSplit(image, 8);
      AllRead(image);
      var sig := VolumeHeader(image)[..2];
      assert |sig| == 2 && sig[0] == image[1024] && sig[1] == image[1025];
      Signature(sig);
      assert ExtentsUpTo(CatalogFork(image), 8) == ExtentsFrom(image, 0);
      assert Opens(image) <==> sig in {[72, 88], [72, 43]} && U(image, 1308, 4) <= Covered(ExtentsFrom(image, 0));
    }
  }

  lemma Signature(s: Bytes)
    requires |s| == 2
    ensures s in {[72, 88], [72, 43]} <==> s[0] == 72 && (s[1] == 88 || s[1] == 43)
  {
    assert s == [s[0], s[1]];
  }

  lemma AllRead(image: Bytes)
    ensures ExtentsFrom(image, 8) == []
  {
  }

  /** Node size and first leaf are read where the first extent starts. */
  lemma CatalogHeaderIs(image: Bytes)
    requires Sound(CatalogMap(image)) && CatalogMap(image).exts != [] && CatalogMap(image).exts[0].count > 0
    requires |CatalogHeader(image)| >= 42
    ensures var o := CatalogMap(image).exts[0].start * CatalogMap(image).blockSize;
            NodeSize(image) == U(image, o + 32, 2) && FirstLeaf(image) == U(image, o + 24, 4)
  {
    hide CatalogMap, Pos, DisjointExtents, Size;
    var m := CatalogMap(image);
    var o := m.exts[0].start * m.blockSize;
    MulNext(0, m.exts[0].count, m.blockSize);
    PosIs(m, 0, 0);
    NoneBefore(m.exts);
    assert CatalogHeader(image) == ReadAt(image, o, 512);
    NestedField(image, o, 512, 32, 2);
    NestedField(image, o, 512, 24, 4);
  }

  lemma NoneBefore(exts: seq<Extent>)
    ensures Covered(exts[..0]) == 0
  {
  }

  // ----- what may change -----

  /** Disk byte `p` holds byte `t` of leaf `n` of the catalog, an ownership byte of one of its records. */
  ghost predicate LeafOwnership(m: Map, cat: Bytes, ns: nat, n: nat, t: nat, p: nat)
    requires m.blockSize > 0 && |cat| == Size(m)
  {
    && t < ns && InRange(cat, ns, n) && Pos(m, n * ns + t) == p
    && OwnershipByte(Node(cat, ns, n), t)
  }

  /** A run changes no disk byte except owner, group and mode bytes of folder and file records of the chain's leaves. */
  lemma OnlyOwnershipChanges(image: Bytes, out: Bytes, owners: Owners, nfd: Name -> Name, chain: seq<nat>, p: nat)
    requires Sound(CatalogMap(image)) && OnDisk(CatalogMap(image), image)
    requires Patched(image, out, owners, nfd, chain) && p < |image| && |out| == |image| && out[p] != image[p]
    ensures exists k, t: nat :: 0 <= k < |chain| &&
              LeafOwnership(CatalogMap(image), CatalogOf(image), NodeSize(image), chain[k], t, p)
  {
    hide CatalogMap, NodeSize, Patchable, OwnershipByte, Pos, DisjointExtents, OnDisk, Covered, PatchedFrom;
    var m, ns := CatalogMap(image), NodeSize(image);
    var l :| 0 <= l < Size(m) && Pos(m, l) == p;
    var a, b := Logical(m, image), Logical(m, out);
    assert a[l] != b[l];
    var k, t := ChangedByte(a, b, ns, chain, owners, nfd, l);
    assert LeafOwnership(m, CatalogOf(image), ns, chain[k], t, p);
  }

  lemma ChangedByte(a: Bytes, b: Bytes, ns: nat, chain: seq<nat>, owners: Owners, nfd: Name -> Name, l: nat)
    returns (k: nat, t: nat)
    requires Patchable(a, ns, chain, owners, nfd) && PatchedFrom(a, b, ns, chain, owners, nfd)
    requires l < |a| == |b| && a[l] != b[l]
    ensures k < |chain| && t < ns && l == chain[k] * ns + t
    ensures InRange(a, ns, chain[k]) && OwnershipByte(Node(a, ns, chain[k]), t)
  {
    hide Patchable, OwnershipByte, PatchedFrom, WellFormed, SameShape, RecordCount;
    k, t := ChangedLeaf(a, b, ns, chain, owners, nfd, l);
    DoneRange(a, b, ns, chain, owners, nfd, k);
    var x, y := Node(a, ns, chain[k]), Node(b, ns, chain[k]);
    assert x[t] == a[l] && y[t] == b[l];
    LeafShapes(a, b, ns, chain, owners, nfd, k, x, y);
    if !OwnershipByte(x, t) {
      OnlyOwnership(x, y, t);
    }
  }

  lemma ChangedLeaf(a: Bytes, b: Bytes, ns: nat, chain: seq<nat>, owners: Owners, nfd: Name -> Name, l: nat)
    returns (k: nat, t: nat)
    requires Patchable(a, ns, chain, owners, nfd) && PatchedFrom(a, b, ns, chain, owners, nfd)
    requires l < |a| == |b| && a[l] != b[l]
    ensures k < |chain| && t < ns && l == chain[k] * ns + t
  {
    hide Patchable, NodesOk, NodeDone;
    var i :| 0 <= i < |chain| && chain[i] * ns <= l < chain[i] * ns + ns;
    k, t := i, l - chain[i] * ns;
  }

  lemma DoneRange(a: Bytes, b: Bytes, ns: nat, chain: seq<nat>, owners: Owners, nfd: Name -> Name, k: nat)
    requires Patchable(a, ns, chain, owners, nfd) && PatchedFrom(a, b, ns, chain, owners, nfd) && k < |chain|
    ensures InRange(a, ns, chain[k]) && InRange(b, ns, chain[k])
  {
    hide NodesOk, AllDone, WellFormed, SameShape, Progress, RecordCount, Node, Acyclic, FoldersOver, PrivateOver;
    DoneAt(EnvOf(a, ns, chain, owners, nfd), LinksOf(a, ns, chain, owners, nfd), LateOf(a, ns, chain, owners, nfd), ns, chain, a, b, k);
  }
}
