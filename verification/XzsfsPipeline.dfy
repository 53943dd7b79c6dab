/** Building an image and verifying it: the files come back under their paths. */
module XzsfsPipeline {
  import opened Bytes
  import opened Wrappers
  import opened XzsfsFormat
  import opened XzsfsTree
  import opened XzsfsBuild
  import opened XzsfsRoundTrip
  import V = XzsfsVerify

  predicate HasContent(e: Entry) {
    e.File? && e.payload != []
  }

  /** `files` holds exactly the non-empty files of the tree, under "/" and their relative path. */
  ghost predicate FilesAre(files: map<Bytes, Bytes>, es: seq<Entry>) {
    && (forall e :: e in es && HasContent(e) ==> [SLASH] + e.path in files && files[[SLASH] + e.path] == e.payload)
    && (forall p :: p in files ==> exists e :: e in es && HasContent(e) && p == [SLASH] + e.path)
  }

  /** The objects of an image are those of the tree, with its paths and payloads. */
  ghost predicate ObjectsAre(objs: Objects, img: Bytes, es: seq<Entry>) {
    && Holds(objs, es)
    && (forall i :: 0 <= i < Count(es) ==> PathIsBack(objs, es, i))
    && (forall i :: 0 <= i < Count(es) && !IsDirAt(es, i) ==>
          ReadAt(img, DataOffset(es, i), |PayloadAt(es, i)|) == PayloadAt(es, i))
  }

  lemma FileBack(objs: Objects, img: Bytes, es: seq<Entry>, i: nat)
    requires ObjectsAre(objs, img, es) && i < Count(es)
    ensures i + 1 in objs && ReachesRoot(objs, i + 1) && PathOf(objs, i + 1) == [SLASH] + PathAt(es, i)
    ensures HasPayload(objs[i + 1]) <==> !IsDirAt(es, i) && PayloadAt(es, i) != []
    ensures HasPayload(objs[i + 1]) ==> ReadAt(img, objs[i + 1].rec.dataOff, objs[i + 1].rec.dataLen) == PayloadAt(es, i)
  {
    hide Holds, PathOf, ReachesRoot, PathAt, ReadAt, PayloadAt, DataOffset, ParentAt, NameAt, NameOffset;
    HoldsAt(objs, es, i);
    assert PathIsBack(objs, es, i);
  }

  lemma ReportedFiles(objs: Objects, img: Bytes, es: seq<Entry>, files: map<Bytes, Bytes>)
    requires ObjectsAre(objs, img, es) && HierarchyOk(objs) && V.Extracted(img, objs, files)
    ensures FilesAre(files, es)
  {
    hide ObjectsAre, PathOf, ReachesRoot, ReadAt, HasPayload;
    forall e | e in es && HasContent(e) ensures [SLASH] + e.path in files && files[[SLASH] + e.path] == e.payload {
      var j :| 0 <= j < |es| && es[j] == e;
      FileBack(objs, img, es, j + 1);
    }
    forall p | p in files ensures exists e :: e in es && HasContent(e) && p == [SLASH] + e.path {
      var id :| id in objs && HasPayload(objs[id]) && PathOf(objs, id) == p;
      NumbersFrom(objs, img, es, id);
      FileBack(objs, img, es, id - 1);
      assert es[id - 2] in es;
    }
  }

  lemma NumbersFrom(objs: Objects, img: Bytes, es: seq<Entry>, id: nat)
    requires ObjectsAre(objs, img, es) && id in objs
    ensures 1 <= id <= Count(es)
  {
  }

  /** Building a walked tree and verifying the image: it passes exactly if it builds, and returns the tree's files. */
  method BuildAndVerify(discovered: seq<Entry>, crc: Crc) returns (r: Option<V.Verified>)
    requires WalkTree(discovered)
    ensures r.Some? <==> Buildable(SortByPath(discovered))
    ensures r.Some? ==> FilesAre(r.value.files, discovered)
  {
    hide ImageOf, Buildable, WalkTree, FilesAre, ReadsBack, V.SuperblockOk, HierarchyOk, V.Extracted, ObjectsAre;
    hide V.ImageObjects, V.Accepts;
    var built := BuildImage(discovered, crc);
    if built.Failed? {
      return None;
    }
    RoundTrip(discovered, crc);
    ReadsBackAccepts(built.image, crc, SortByPath(discovered));
    r := V.ParseAndVerify(built.image, crc);
    ReportedFiles(V.ImageObjects(built.image), built.image, SortByPath(discovered), r.value.files);
    SameFiles(discovered, SortByPath(discovered), r.value.files);
  }

  lemma ReadsBackAccepts(img: Bytes, crc: Crc, es: seq<Entry>)
    requires ReadsBack(img, crc, es)
    ensures V.Accepts(img, crc) && |img| >= SECTOR && V.SuperblockOk(V.ParsedSuperblock(img), |img|)
    ensures HierarchyOk(V.ImageObjects(img)) && ObjectsAre(V.ImageObjects(img), img, es)
  {
    hide Holds, PathIsBack, HierarchyOk, V.ImageObjects, PayloadAt, DataOffset, ReadAt, V.SuperblockOk;
  }

  lemma SameFiles(a: seq<Entry>, b: seq<Entry>, files: map<Bytes, Bytes>)
    requires multiset(a) == multiset(b) && FilesAre(files, b)
    ensures FilesAre(files, a)
  {
    assert forall e :: e in a <==> e in multiset(a);
    assert forall e :: e in b <==> e in multiset(b);
  }
}
