/** The ownership patch from disk image to disk image: volume header, catalog header, and both passes. */
module HfsImage {
  import opened Bytes
  import opened HfsStore
  import opened HfsNodes
  import opened HfsPlan
  import opened HfsCatalog
  import opened HfsOwners

  /** Block size and extents of the catalog, as the volume header states them. */
  function CatalogMap(image: Bytes): Map {
    Map(U(VolumeHeader(image), 40, 4), ExtentsUpTo(CatalogFork(image), 8))
  }

  /** The first 512 bytes of the catalog file, read in one piece where its first byte lies. */
  function CatalogHeader(image: Bytes): Bytes {
    var m := CatalogMap(image);
    if m.blockSize > 0 && 0 < Size(m) then ReadAt(image, Pos(m, 0), 512) else []
  }

  function NodeSize(image: Bytes): nat {
    U(CatalogHeader(image), 32, 2)
  }

  function FirstLeaf(image: Bytes): nat {
    U(CatalogHeader(image), 24, 4)
  }

  ghost function CatalogOf(image: Bytes): Bytes
    requires Sound(CatalogMap(image)) && OnDisk(CatalogMap(image), image)
  {
    Logical(CatalogMap(image), image)
  }

  /** A catalog that lies on the disk in disjoint extents, with a leaf chain that ends and leaves that can be patched. */
  ghost predicate Ready(image: Bytes, owners: Owners, nfd: Name -> Name, chain: seq<nat>) {
    && Sound(CatalogMap(image)) && OnDisk(CatalogMap(image), image)
    && (NodeSize(image) > 0 ==>
          && Chain(CatalogOf(image), NodeSize(image), FirstLeaf(image), chain)
          && (AllGood(CatalogOf(image), NodeSize(image), chain) ==>
                Patchable(CatalogOf(image), NodeSize(image), chain, owners, nfd)))
  }

  /** Header and chain let the patch run; with node size 0 only an empty chain does. */
  ghost predicate Runs(image: Bytes, chain: seq<nat>)
    requires Sound(CatalogMap(image)) && OnDisk(CatalogMap(image), image)
  {
    && |CatalogHeader(image)| >= 42
    && if NodeSize(image) == 0 then FirstLeaf(image) == 0 else AllGood(CatalogOf(image), NodeSize(image), chain)
  }

  /** `out` is `image` with every leaf record's ownership as decided from `image`, and no other byte changed. */
  ghost predicate Patched(image: Bytes, out: Bytes, owners: Owners, nfd: Name -> Name, chain: seq<nat>)
    requires Sound(CatalogMap(image)) && OnDisk(CatalogMap(image), image)
  {
    var m, ns := CatalogMap(image), NodeSize(image);
    && SameOutside(m, image, out) && OnDisk(m, out)
    && Patchable(Logical(m, image), ns, chain, owners, nfd)
    && PatchedFrom(Logical(m, image), Logical(m, out), ns, chain, owners, nfd)
  }

  /** The whole tool step: which images it patches, and what the image then is. */
  method PatchImage(image: Bytes, entries: seq<(Name, Owner)>, nfd: Name -> Name, ghost chain: seq<nat>)
    returns (ok: bool, out: Bytes)
    requires Opens(image) ==> Ready(image, OwnerMap(entries, nfd), nfd, chain)
    ensures ok <==> Opens(image) && Runs(image, chain)
    ensures !ok ==> out == image
    ensures ok && NodeSize(image) == 0 ==> out == image
    ensures ok && NodeSize(image) > 0 ==> Patched(image, out, OwnerMap(entries, nfd), nfd, chain)
  {
    hide U, OnDisk, DisjointExtents, Opens, ExtentsUpTo, Chain, AllGood, Patchable, Logical, Covered, ReadAt, PatchedFrom,
         SameOutside, SettledCatalog;
    var volume := OpenCatalog(image);
    if volume.None? {
      return false, image;
    }
    var m := volume.value;
    var start := CatToDisk(m, 0);
    if start.None? {
      return false, image;
    }
    var header := ReadAt(image, start.value, 512);
    if |header| < 42 {
      return false, image;
    }
    var ns, first := U(header, 32, 2), U(header, 24, 4);
    if ns == 0 {
      return first == 0, image;
    }
    var f := new CatalogFile(m, image);
    var done, writes := PatchOwners(f, ns, first, entries, nfd, chain);
    return done, f.data;
  }
}
