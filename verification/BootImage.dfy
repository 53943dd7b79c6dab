/** Android boot images (header version 0): packing and unpacking. */
module BootImage {
  import opened Arithmetic
  import opened Bytes
  import opened Wrappers

  const MAGIC: Bytes := [0x41, 0x4e, 0x44, 0x52, 0x4f, 0x49, 0x44, 0x21]
  const HEADER_BYTES: nat := 1632

  /** `data` followed by zeros up to a multiple of `page`. */
  function Padded(data: Bytes, page: nat): (r: Bytes)
    requires page > 0
    ensures |r| % page == 0 && |data| <= |r| < |data| + page && r[..|data|] == data
    ensures forall p :: |data| <= p < |r| ==> r[p] == 0
  {
    if |data| % page != 0 then
      PadToPage(|data|, page);
      data + Zeros(page - |data| % page)
    else data
  }

  lemma PadToPage(n: nat, page: nat)
    requires page > 0
    ensures (n + (page - n % page)) % page == 0
  {
    var up := n + (page - n % page);
    DivSplit(n, page);
    DivSplit(up, page);
    DivModUnique(n / page + 1, 0, up / page, up % page, page);
  }

  /** A `struct` byte field: cut or zero-filled to `n` bytes. */
  function Fixed(s: Bytes, n: nat): (r: Bytes)
    ensures |r| == n
  {
    if |s| >= n then s[..n] else s + Zeros(n - |s|)
  }

  datatype Parts = Parts(kernel: Bytes, ramdisk: Bytes, second: Bytes, dtb: Bytes)
  datatype Config = Config(
    kernelAddr: nat, ramdiskAddr: nat, secondAddr: nat, tagsAddr: nat, page: nat, osVersion: nat, cmdline: Bytes)

  /** The ten integers of the header. */
  function Words(p: Parts, c: Config): (w: seq<nat>)
    ensures |w| == 10
  {
    [|p.kernel|, c.kernelAddr, |p.ramdisk|, c.ramdiskAddr, |p.second|, c.secondAddr, c.tagsAddr, c.page,
     |p.dtb|, c.osVersion]
  }

  /** Every integer fits its field. */
  predicate WordsFit(p: Parts, c: Config) {
    forall i :: 0 <= i < 10 ==> Words(p, c)[i] < 0x1_0000_0000
  }

  /** What the image id is computed over. */
  function Hashed(p: Parts): Bytes {
    p.kernel + LE(|p.kernel|, 4) + p.ramdisk + LE(|p.ramdisk|, 4) + p.second + LE(|p.second|, 4) +
    if |p.dtb| > 0 then p.dtb + LE(|p.dtb|, 4) else []
  }

  function Integers(w: seq<nat>, k: nat): (b: Bytes)
    requires k <= |w|
    ensures |b| == 4 * k
  {
    if k == 0 then [] else Integers(w, k - 1) + LE(w[k - 1], 4)
  }

  function ExtraArgs(cmdline: Bytes): Bytes {
    if |cmdline| > 512 then cmdline[512..] else []
  }

  function HeaderBytes(p: Parts, c: Config, sha1: Bytes -> Bytes): (h: Bytes)
    ensures |h| == HEADER_BYTES
  {
    MAGIC + Integers(Words(p, c), 10) + Zeros(16) + Fixed(c.cmdline, 512) + Fixed(sha1(Hashed(p)), 32) +
    Fixed(ExtraArgs(c.cmdline), 1024)
  }

  /** A section is written only when it has bytes; the kernel always is. */
  function Section(data: Bytes, page: nat): Bytes
    requires page > 0
  {
    if |data| > 0 then Padded(data, page) else []
  }

  function ImageOf(p: Parts, c: Config, sha1: Bytes -> Bytes): Bytes
    requires c.page > 0
  {
    Padded(HeaderBytes(p, c, sha1), c.page) + Padded(p.kernel, c.page) + Section(p.ramdisk, c.page) +
    Section(p.second, c.page) + Section(p.dtb, c.page)
  }

  predicate PageAllowed(page: nat) {
    page in {2048, 4096, 8192, 16384}
  }

  /** Writes the image section by section; nothing is written when an integer does not fit. */
  method MakeImage(p: Parts, c: Config, sha1: Bytes -> Bytes) returns (out: Option<Bytes>)
    requires PageAllowed(c.page)
    ensures out.Some? <==> WordsFit(p, c)
    ensures out.Some? ==> out.value == ImageOf(p, c, sha1)
  {
    hide HeaderBytes, Padded;
    if exists i :: 0 <= i < 10 && Words(p, c)[i] >= 0x1_0000_0000 {
      return None;
    }
    var file := Padded(HeaderBytes(p, c, sha1), c.page);
    file := file + Padded(p.kernel, c.page);
    if |p.ramdisk| > 0 {
      file := file + Padded(p.ramdisk, c.page);
    }
    if |p.second| > 0 {
      file := file + Padded(p.second, c.page);
    }
    if |p.dtb| > 0 {
      file := file + Padded(p.dtb, c.page);
    }
    assert forall b: Bytes :: b + [] == b;
    out := Some(file);
  }

  // ----- unpacking -----

  datatype Unpacked = Unpacked(
    page: nat, kernelSize: nat, kernelAddr: nat, ramdiskSize: nat, ramdiskAddr: nat, dtSize: nat,
    kernel: Bytes, ramdisk: Bytes, header: Bytes)

  /** The pages `n` bytes take. */
  function Pages(n: nat, page: nat): nat
    requires page > 0
  {
    (n + page - 1) / page
  }

  datatype UnpackResult = Invalid | Image(info: Unpacked)

  /** Fails on a short or foreign header and on a zero page size, which the offset division rejects. */
  function Unpack(b: Bytes): UnpackResult {
    var h := ReadAt(b, 0, 4096);
    var page := Int(h, 36, 4);
    if |h| < 44 || ReadAt(h, 0, 8) != MAGIC || page == 0 then Invalid
    else
      var k, r := Int(h, 8, 4), Int(h, 16, 4);
      Image(Unpacked(page, k, Int(h, 12, 4), r, Int(h, 20, 4), Int(h, 40, 4),
                     ReadAt(b, page, k), ReadAt(b, page * (1 + Pages(k, page)), r), h))
  }

  // ----- round trip -----

  lemma {:induction false} IntegersHave(w: seq<nat>, k: nat, i: nat)
    requires i < k <= |w|
    ensures Integers(w, k)[4 * i..4 * i + 4] == LE(w[i], 4)
    decreases k
  {
    hide LE;
    if i < k - 1 {
      IntegersHave(w, k - 1, i);
      assert Integers(w, k)[4 * i..4 * i + 4] == Integers(w, k - 1)[4 * i..4 * i + 4];
    }
  }

  lemma HeaderWord(p: Parts, c: Config, sha1: Bytes -> Bytes, i: nat, rest: Bytes)
    requires WordsFit(p, c) && i < 10
    ensures Int(HeaderBytes(p, c, sha1) + rest, 8 + 4 * i, 4) == Words(p, c)[i]
  {
    hide LE, Integers, Fixed, Hashed, FromLE, Words;
    var w, h := Words(p, c), HeaderBytes(p, c, sha1);
    var ints := Integers(w, 10);
    IntegersHave(w, 10, i);
    Pow256Values();
    LERoundTrip(w[i], 4);
    assert h[8..48] == ints;
    SliceSlice(h, 8, 48, 4 * i, 4 * i + 4);
    assert ReadAt(h + rest, 8 + 4 * i, 4) == h[8 + 4 * i..8 + 4 * i + 4];
  }

  lemma HeaderMagic(p: Parts, c: Config, sha1: Bytes -> Bytes, rest: Bytes)
    ensures ReadAt(HeaderBytes(p, c, sha1) + rest, 0, 8) == MAGIC
  {
    hide Integers, Fixed, Hashed;
  }

  /** One page holds the header, so the first section starts at the page size. */
  lemma HeaderIsOnePage(p: Parts, c: Config, sha1: Bytes -> Bytes)
    requires PageAllowed(c.page)
    ensures |Padded(HeaderBytes(p, c, sha1), c.page)| == c.page
  {
    hide HeaderBytes;
  }

  lemma PaddedPages(data: Bytes, page: nat)
    requires page > 0
    ensures |Padded(data, page)| == page * Pages(|data|, page)
  {
    hide Padded;
    var n, r := |data|, Padded(data, page);
    var q := |r| / page;
    assert |r| == page * q;
    var slack := |r| - n;
    DivSplit(n + page - 1, page);
    DivModUnique(q, page - 1 - slack, (n + page - 1) / page, (n + page - 1) % page, page);
  }

  lemma ReadIn(a: Bytes, b: Bytes, rest: Bytes, n: nat)
    requires n <= |b|
    ensures ReadAt(a + b + rest, |a|, n) == b[..n]
  {
    var s := a + b + rest;
    assert n > 0 ==> s[|a|..|a| + n] == b[..n];
  }

  /** The first 4096 bytes of an image start with the header. */
  lemma HeaderRead(p: Parts, c: Config, sha1: Bytes -> Bytes) returns (rest: Bytes)
    requires PageAllowed(c.page)
    ensures ReadAt(ImageOf(p, c, sha1), 0, 4096) == HeaderBytes(p, c, sha1) + rest
  {
    hide HeaderBytes, Padded, Section;
    var b, h := ImageOf(p, c, sha1), HeaderBytes(p, c, sha1);
    var page := Padded(h, c.page);
    assert b[..|h|] == h by {
      assert page[..|h|] == h;
      assert b[..|page|] == page;
      assert b[..|page|][..|h|] == b[..|h|];
    }
    var r := ReadAt(b, 0, 4096);
    rest := r[|h|..];
    assert r[..|h|] == b[..|h|];
  }

  /** Unpacking a packed image returns the kernel, the ramdisk, their sizes and addresses. */
  lemma RoundTrip(p: Parts, c: Config, sha1: Bytes -> Bytes)
    requires PageAllowed(c.page) && WordsFit(p, c)
    ensures var r := Unpack(ImageOf(p, c, sha1));
            && r.Image? && r.info.kernel == p.kernel && r.info.ramdisk == p.ramdisk
            && r.info.kernelSize == |p.kernel| && r.info.ramdiskSize == |p.ramdisk| && r.info.dtSize == |p.dtb|
            && r.info.page == c.page && r.info.kernelAddr == c.kernelAddr && r.info.ramdiskAddr == c.ramdiskAddr
  {
    hide HeaderBytes, Padded, Section, Int, ImageOf, Pages;
    var b := ImageOf(p, c, sha1);
    var rest := HeaderRead(p, c, sha1);
    HeaderMagic(p, c, sha1, rest);
    HeaderWord(p, c, sha1, 0, rest);
    HeaderWord(p, c, sha1, 1, rest);
    HeaderWord(p, c, sha1, 2, rest);
    HeaderWord(p, c, sha1, 3, rest);
    HeaderWord(p, c, sha1, 7, rest);
    HeaderWord(p, c, sha1, 8, rest);
    KernelAt(p, c, sha1);
    RamdiskAt(p, c, sha1);
  }

  lemma KernelAt(p: Parts, c: Config, sha1: Bytes -> Bytes)
    requires PageAllowed(c.page)
    ensures ReadAt(ImageOf(p, c, sha1), c.page, |p.kernel|) == p.kernel
  {
    hide HeaderBytes, Section, Padded;
    var head, k := Padded(HeaderBytes(p, c, sha1), c.page), Padded(p.kernel, c.page);
    var rest := Section(p.ramdisk, c.page) + Section(p.second, c.page) + Section(p.dtb, c.page);
    HeaderIsOnePage(p, c, sha1);
    assert ImageOf(p, c, sha1) == head + k + rest;
    ReadIn(head, k, rest, |p.kernel|);
  }

  lemma SectionStarts(data: Bytes, page: nat)
    requires page > 0
    ensures |data| <= |Section(data, page)| && Section(data, page)[..|data|] == data
  {
  }

  lemma RamdiskAt(p: Parts, c: Config, sha1: Bytes -> Bytes)
    requires PageAllowed(c.page)
    ensures ReadAt(ImageOf(p, c, sha1), c.page * (1 + Pages(|p.kernel|, c.page)), |p.ramdisk|) == p.ramdisk
  {
    hide HeaderBytes, Section, Padded, Pages;
    var head := Padded(HeaderBytes(p, c, sha1), c.page) + Padded(p.kernel, c.page);
    var rest := Section(p.second, c.page) + Section(p.dtb, c.page);
    HeaderIsOnePage(p, c, sha1);
    PaddedPages(p.kernel, c.page);
    assert |head| == c.page * (1 + Pages(|p.kernel|, c.page));
    SectionStarts(p.ramdisk, c.page);
    assert ImageOf(p, c, sha1) == head + Section(p.ramdisk, c.page) + rest;
    ReadIn(head, Section(p.ramdisk, c.page), rest, |p.ramdisk|);
  }

  /** The two command-line fields together hold the command line, cut at 1536 bytes. */
  lemma CommandLineKept(cmdline: Bytes)
    ensures Fixed(cmdline, 512) + Fixed(ExtraArgs(cmdline), 1024) == Fixed(cmdline, 1536)
  {
  }

  // ----- the image at its offsets -----

  /** Byte `i` of a zero-filled field. */
  function FieldByte(s: Bytes, i: nat): byte {
    if i < |s| then s[i] else 0
  }

  lemma FixedBytes(s: Bytes, n: nat)
    ensures forall i :: 0 <= i < n ==> Fixed(s, n)[i] == FieldByte(s, i)
  {
  }

  lemma HeaderParts(p: Parts, c: Config, sha1: Bytes -> Bytes)
    ensures var h := HeaderBytes(p, c, sha1);
            && h[..8] == MAGIC && h[8..48] == Integers(Words(p, c), 10) && h[48..64] == Zeros(16)
            && h[64..576] == Fixed(c.cmdline, 512) && h[576..608] == Fixed(sha1(Hashed(p)), 32)
            && h[608..1632] == Fixed(ExtraArgs(c.cmdline), 1024)
  {
    hide Integers, Fixed, Words, Hashed, ExtraArgs;
  }

  /** The ten words of the header, each at its offset. */
  lemma ImageWords(p: Parts, c: Config, sha1: Bytes -> Bytes)
    requires PageAllowed(c.page) && WordsFit(p, c)
    ensures var b := ReadAt(ImageOf(p, c, sha1), 0, 4096);
            && ReadAt(b, 0, 8) == [0x41, 0x4e, 0x44, 0x52, 0x4f, 0x49, 0x44, 0x21]
            && Int(b, 8, 4) == |p.kernel| && Int(b, 12, 4) == c.kernelAddr
            && Int(b, 16, 4) == |p.ramdisk| && Int(b, 20, 4) == c.ramdiskAddr
            && Int(b, 24, 4) == |p.second| && Int(b, 28, 4) == c.secondAddr
            && Int(b, 32, 4) == c.tagsAddr && Int(b, 36, 4) == c.page
            && Int(b, 40, 4) == |p.dtb| && Int(b, 44, 4) == c.osVersion
  {
    hide HeaderBytes, Int, ImageOf;
    var rest := HeaderRead(p, c, sha1);
    HeaderMagic(p, c, sha1, rest);
    HeaderWord(p, c, sha1, 0, rest);
    HeaderWord(p, c, sha1, 1, rest);
    HeaderWord(p, c, sha1, 2, rest);
    HeaderWord(p, c, sha1, 3, rest);
    HeaderWord(p, c, sha1, 4, rest);
    HeaderWord(p, c, sha1, 5, rest);
    HeaderWord(p, c, sha1, 6, rest);
    HeaderWord(p, c, sha1, 7, rest);
    HeaderWord(p, c, sha1, 8, rest);
    HeaderWord(p, c, sha1, 9, rest);
  }

  lemma ImageHeader(p: Parts, c: Config, sha1: Bytes -> Bytes)
    requires PageAllowed(c.page)
    ensures |ImageOf(p, c, sha1)| >= c.page && ImageOf(p, c, sha1)[..1632] == HeaderBytes(p, c, sha1)
  {
    hide HeaderBytes, Padded, Section;
    var b, page := ImageOf(p, c, sha1), Padded(HeaderBytes(p, c, sha1), c.page);
    HeaderIsOnePage(p, c, sha1);
    assert b[..|page|] == page;
    assert b[..|page|][..1632] == b[..1632];
  }

  /**
   * The command line lies at 64 and, from its byte 512 on, at 608; between them the digest of
   * the sections, each followed by its length.
   */
  lemma ImageFields(p: Parts, c: Config, sha1: Bytes -> Bytes, i: nat)
    requires PageAllowed(c.page)
    ensures |ImageOf(p, c, sha1)| >= 1632
    ensures var b := ImageOf(p, c, sha1);
            var digest := sha1(p.kernel + LE(|p.kernel|, 4) + p.ramdisk + LE(|p.ramdisk|, 4) + p.second + LE(|p.second|, 4)
                               + (if |p.dtb| > 0 then p.dtb + LE(|p.dtb|, 4) else []));
            && (i < 16 ==> b[48 + i] == 0)
            && (i < 512 ==> b[64 + i] == FieldByte(c.cmdline, i))
            && (i < 32 ==> b[576 + i] == FieldByte(digest, i))
            && (i < 1024 ==> b[608 + i] == FieldByte(c.cmdline, 512 + i))
  {
    hide HeaderBytes, ImageOf, Fixed, LE;
    ImageHeader(p, c, sha1);
    HeaderParts(p, c, sha1);
    var h := HeaderBytes(p, c, sha1);
    var digest := sha1(Hashed(p));
    FixedBytes(c.cmdline, 512);
    FixedBytes(digest, 32);
    FixedBytes(ExtraArgs(c.cmdline), 1024);
    assert i < 16 ==> h[48 + i] == h[48..64][i];
    assert i < 512 ==> h[64 + i] == h[64..576][i];
    assert i < 32 ==> h[576 + i] == h[576..608][i];
    assert i < 1024 ==> h[608 + i] == h[608..1632][i];
  }

  lemma SectionPages(data: Bytes, page: nat)
    requires page > 0
    ensures |Section(data, page)| == page * Pages(|data|, page)
  {
    hide Padded;
    PaddedPages(data, page);
  }

  /** The pages of the header and the first sections. */
  function PagesTo(p: Parts, page: nat, sections: nat): nat
    requires page > 0
  {
    1 + Pages(|p.kernel|, page)
    + (if sections > 1 then Pages(|p.ramdisk|, page) else 0) + (if sections > 2 then Pages(|p.second|, page) else 0)
    + (if sections > 3 then Pages(|p.dtb|, page) else 0)
  }

  lemma ProductOfSum(g: nat, k: nat, r: nat, s: nat, d: nat)
    ensures g * (1 + k + r + s + d) == g + g * k + g * r + g * s + g * d
  {
  }

  lemma SectionLengths(p: Parts, c: Config, sha1: Bytes -> Bytes)
    requires PageAllowed(c.page)
    ensures var g := c.page;
            var head := Padded(HeaderBytes(p, c, sha1), g) + Padded(p.kernel, g);
            && |head + Section(p.ramdisk, g)| == g * PagesTo(p, g, 2)
            && |head + Section(p.ramdisk, g) + Section(p.second, g)| == g * PagesTo(p, g, 3)
            && |ImageOf(p, c, sha1)| == g * PagesTo(p, g, 4)
  {
    hide HeaderBytes, Section, Padded, Pages;
    var g := c.page;
    var k, r, s, d := Pages(|p.kernel|, g), Pages(|p.ramdisk|, g), Pages(|p.second|, g), Pages(|p.dtb|, g);
    HeaderIsOnePage(p, c, sha1);
    PaddedPages(p.kernel, g);
    SectionPages(p.ramdisk, g);
    SectionPages(p.second, g);
    SectionPages(p.dtb, g);
    ProductOfSum(g, k, r, 0, 0);
    ProductOfSum(g, k, r, s, 0);
    ProductOfSum(g, k, r, s, d);
  }

  /** The sections follow each other in whole pages: kernel, ramdisk, second stage, device tree. */
  lemma ImageSections(p: Parts, c: Config, sha1: Bytes -> Bytes)
    requires PageAllowed(c.page)
    ensures var b, g := ImageOf(p, c, sha1), c.page;
            && ReadAt(b, g, |p.kernel|) == p.kernel
            && ReadAt(b, g * PagesTo(p, g, 1), |p.ramdisk|) == p.ramdisk
            && ReadAt(b, g * PagesTo(p, g, 2), |p.second|) == p.second
            && ReadAt(b, g * PagesTo(p, g, 3), |p.dtb|) == p.dtb
            && |b| == g * PagesTo(p, g, 4)
  {
    hide HeaderBytes, Section, Padded, Pages, ReadAt;
    var g := c.page;
    var head := Padded(HeaderBytes(p, c, sha1), g) + Padded(p.kernel, g);
    var ramdisk, second, dtb := Section(p.ramdisk, g), Section(p.second, g), Section(p.dtb, g);
    SectionLengths(p, c, sha1);
    SectionStarts(p.second, g);
    SectionStarts(p.dtb, g);
    KernelAt(p, c, sha1);
    RamdiskAt(p, c, sha1);
    ReadIn(head + ramdisk, second, dtb, |p.second|);
    ReadIn(head + ramdisk + second, dtb, [], |p.dtb|);
    assert head + ramdisk + second + dtb + [] == ImageOf(p, c, sha1);
  }
}
