/** Leaf nodes of the HFS+ catalog B-tree: records, their fixed fields, and their ownership bytes. */
module HfsNodes {
  import opened Bytes

  /** A big-endian field of `n` bytes. */
  function U(b: Bytes, o: nat, n: nat): nat {
    FromBE(ReadAt(b, o, n))
  }

  lemma UBound(b: Bytes, o: nat, n: nat)
    ensures o + n <= |b| ==> U(b, o, n) < Pow256(n)
  {
    FromBEBound(ReadAt(b, o, n));
  }

  // ----- the node descriptor and the offset table at the end -----

  function NextLeaf(b: Bytes): nat {
    U(b, 0, 4)
  }

  predicate IsLeaf(b: Bytes) {
    U(b, 8, 1) == 0xFF
  }

  function RecordCount(b: Bytes): nat {
    U(b, 10, 2)
  }

  function RecordStart(b: Bytes, i: nat): nat {
    if 2 * (i + 1) <= |b| then U(b, |b| - 2 * (i + 1), 2) else 0
  }

  function TableStart(b: Bytes): int {
    |b| - 2 * (RecordCount(b) + 1)
  }

  // ----- one record -----

  function NameLength(b: Bytes, i: nat): nat {
    U(b, RecordStart(b, i) + 6, 2)
  }

  /** Where the record's data starts: after the key, rounded up to an even offset. */
  function DataStart(b: Bytes, i: nat): nat {
    var d := RecordStart(b, i) + 2 + U(b, RecordStart(b, i), 2);
    d + d % 2
  }

  function Kind(b: Bytes, i: nat): nat {
    U(b, DataStart(b, i), 2)
  }

  /** Folder (1) and file (2) records carry owner, group and mode. */
  predicate HasPerm(b: Bytes, i: nat) {
    Kind(b, i) == 1 || Kind(b, i) == 2
  }

  function RecordEnd(b: Bytes, i: nat): nat {
    if HasPerm(b, i) then DataStart(b, i) + 48 else DataStart(b, i) + 2
  }

  type Name = seq<nat>

  datatype Rec = Rec(parent: nat, name: Name, kind: nat, flags: nat, cnid: nat, special: nat)
  datatype Perm = Perm(uid: nat, gid: nat, mode: nat)

  function NameAt(b: Bytes, i: nat): Name {
    seq(NameLength(b, i), k requires 0 <= k => U(b, RecordStart(b, i) + 8 + 2 * k, 2))
  }

  function RecAt(b: Bytes, i: nat): Rec {
    var d := DataStart(b, i);
    if HasPerm(b, i) then
      Rec(U(b, RecordStart(b, i) + 2, 4), NameAt(b, i), Kind(b, i), U(b, d + 2, 2), U(b, d + 8, 4), U(b, d + 44, 4))
    else
      Rec(U(b, RecordStart(b, i) + 2, 4), NameAt(b, i), Kind(b, i), 0, 0, 0)
  }

  function PermAt(b: Bytes, i: nat): Perm {
    var d := DataStart(b, i);
    Perm(U(b, d + 32, 4), U(b, d + 36, 4), U(b, d + 42, 2))
  }

  // ----- well-formed nodes -----

  predicate RecordFits(b: Bytes, i: nat) {
    && 14 <= RecordStart(b, i)
    && RecordStart(b, i) + 8 + 2 * NameLength(b, i) <= DataStart(b, i)
    && RecordEnd(b, i) <= TableStart(b)
  }

  predicate RecordsApart(b: Bytes, i: nat, j: nat) {
    RecordEnd(b, i) <= RecordStart(b, j) || RecordEnd(b, j) <= RecordStart(b, i)
  }

  /** Records lie between the descriptor and the offset table, hold their keys, and do not overlap. */
  predicate WellFormed(b: Bytes) {
    && 14 <= TableStart(b)
    && (forall i :: 0 <= i < RecordCount(b) ==> RecordFits(b, i))
    && (forall i, j :: 0 <= i < j < RecordCount(b) ==> RecordsApart(b, i, j))
  }

  /** `p` is one of the owner, group or mode bytes of record `i`. */
  predicate InPerm(b: Bytes, i: nat, p: nat) {
    var d := DataStart(b, i);
    HasPerm(b, i) && (d + 32 <= p < d + 40 || d + 42 <= p < d + 44)
  }

  predicate Fixed(b: Bytes, p: nat) {
    forall i :: 0 <= i < RecordCount(b) ==> !InPerm(b, i, p)
  }

  /** `c` differs from `b` in ownership bytes at most. */
  predicate SameShape(b: Bytes, c: Bytes) {
    |b| == |c| && forall p :: 0 <= p < |b| && Fixed(b, p) ==> b[p] == c[p]
  }

  lemma KeptField(b: Bytes, c: Bytes, o: nat, n: nat)
    requires SameShape(b, c) && o + n <= |b| && forall p :: o <= p < o + n ==> Fixed(b, p)
    ensures U(b, o, n) == U(c, o, n)
  {
    hide Fixed;
    assert ReadAt(b, o, n) == ReadAt(c, o, n);
  }

  lemma InPermInside(b: Bytes, i: nat, p: nat)
    requires WellFormed(b) && i < RecordCount(b) && InPerm(b, i, p)
    ensures RecordStart(b, i) + 8 <= p < RecordEnd(b, i) <= TableStart(b) && 14 <= p
  {
    assert RecordFits(b, i);
  }

  lemma OutsideFixed(b: Bytes, p: nat)
    requires WellFormed(b) && (p < 14 || TableStart(b) <= p)
    ensures Fixed(b, p)
  {
    hide WellFormed, InPerm, RecordEnd;
    forall i | 0 <= i < RecordCount(b) ensures !InPerm(b, i, p) {
      if InPerm(b, i, p) {
        InPermInside(b, i, p);
      }
    }
  }

  lemma RecordFixed(b: Bytes, i: nat, p: nat)
    requires WellFormed(b) && i < RecordCount(b)
    requires RecordStart(b, i) <= p < RecordEnd(b, i) && !InPerm(b, i, p)
    ensures Fixed(b, p)
  {
    hide InPerm, RecordEnd, WellFormed;
    forall j | 0 <= j < RecordCount(b) ensures !InPerm(b, j, p) {
      if j != i {
        ApartAt(b, i, j);
        if InPerm(b, j, p) {
          InPermInside(b, j, p);
        }
      }
    }
  }

  lemma ApartAt(b: Bytes, i: nat, j: nat)
    requires WellFormed(b) && i < RecordCount(b) && j < RecordCount(b) && i != j
    ensures RecordsApart(b, i, j) && RecordFits(b, i) && RecordFits(b, j)
  {
    hide RecordFits;
    assert RecordsApart(b, if i < j then i else j, if i < j then j else i);
  }

  // ----- changing ownership bytes moves nothing else -----

  lemma KeptHeader(b: Bytes, c: Bytes)
    requires WellFormed(b) && SameShape(b, c)
    ensures RecordCount(c) == RecordCount(b) && NextLeaf(c) == NextLeaf(b) && IsLeaf(c) == IsLeaf(b)
    ensures forall i :: 0 <= i < RecordCount(b) ==> RecordStart(c, i) == RecordStart(b, i)
  {
    hide WellFormed, SameShape, Fixed;
    assert 14 <= TableStart(b) by {
      TableInside(b);
    }
    forall p: nat | p < 14 || TableStart(b) <= p ensures Fixed(b, p) {
      OutsideFixed(b, p);
    }
    SameLength(b, c);
    KeptField(b, c, 0, 4);
    KeptField(b, c, 8, 1);
    KeptField(b, c, 10, 2);
    forall i | 0 <= i < RecordCount(b) ensures RecordStart(c, i) == RecordStart(b, i) {
      KeptField(b, c, |b| - 2 * (i + 1), 2);
    }
  }

  lemma TableInside(b: Bytes)
    requires WellFormed(b)
    ensures 14 <= TableStart(b)
  {
  }

  lemma SameLength(b: Bytes, c: Bytes)
    requires SameShape(b, c)
    ensures |b| == |c|
  {
  }

  lemma KeptRecordField(b: Bytes, c: Bytes, i: nat, o: nat, n: nat)
    requires WellFormed(b) && SameShape(b, c) && i < RecordCount(b)
    requires RecordStart(b, i) <= o && o + n <= RecordEnd(b, i)
    requires forall p :: o <= p < o + n ==> !InPerm(b, i, p)
    ensures U(b, o, n) == U(c, o, n)
  {
    hide WellFormed, SameShape, Fixed, InPerm, RecordEnd;
    forall p | o <= p < o + n ensures Fixed(b, p) {
      RecordFixed(b, i, p);
    }
    assert o + n <= |b| by {
      EndInside(b, i);
    }
    KeptField(b, c, o, n);
  }

  lemma EndInside(b: Bytes, i: nat)
    requires WellFormed(b) && i < RecordCount(b)
    ensures RecordEnd(b, i) <= |b| && RecordFits(b, i)
  {
    hide RecordEnd;
    assert RecordFits(b, i);
  }

  /** Everything of a record up to 32 bytes into its data, and the four bytes after the mode. */
  lemma KeptPart(b: Bytes, c: Bytes, i: nat, o: nat, n: nat)
    requires WellFormed(b) && SameShape(b, c) && i < RecordCount(b)
    requires RecordStart(b, i) <= o && o + n <= RecordEnd(b, i)
    requires o + n <= DataStart(b, i) + 32 || DataStart(b, i) + 44 <= o
    ensures U(b, o, n) == U(c, o, n)
  {
    hide WellFormed, SameShape, U;
    KeptRecordField(b, c, i, o, n);
  }

  lemma KeptPlace(b: Bytes, c: Bytes, i: nat)
    requires WellFormed(b) && SameShape(b, c) && i < RecordCount(b)
    ensures RecordStart(c, i) == RecordStart(b, i) && DataStart(c, i) == DataStart(b, i) && Kind(c, i) == Kind(b, i)
  {
    hide WellFormed, SameShape, U;
    KeptHeader(b, c);
    EndInside(b, i);
    KeptPart(b, c, i, RecordStart(b, i), 2);
    KeptPart(b, c, i, DataStart(b, i), 2);
  }

  lemma KeptName(b: Bytes, c: Bytes, i: nat)
    requires WellFormed(b) && SameShape(b, c) && i < RecordCount(b)
    ensures NameLength(c, i) == NameLength(b, i) && NameAt(c, i) == NameAt(b, i)
  {
    hide WellFormed, SameShape, U;
    KeptPlace(b, c, i);
    EndInside(b, i);
    var r := RecordStart(b, i);
    KeptPart(b, c, i, r + 6, 2);
    forall k | 0 <= k < NameLength(b, i) ensures NameAt(b, i)[k] == NameAt(c, i)[k] {
      KeptPart(b, c, i, r + 8 + 2 * k, 2);
    }
  }

  /** Key, type, flags, CNID, link number and position of every record are those of before. */
  lemma KeptRecord(b: Bytes, c: Bytes, i: nat)
    requires WellFormed(b) && SameShape(b, c) && i < RecordCount(b)
    ensures RecAt(c, i) == RecAt(b, i) && HasPerm(c, i) == HasPerm(b, i)
    ensures RecordEnd(c, i) == RecordEnd(b, i) && NameLength(c, i) == NameLength(b, i)
  {
    hide WellFormed, SameShape, U, NameAt, NameLength;
    KeptPlace(b, c, i);
    KeptName(b, c, i);
    EndInside(b, i);
    var r, d := RecordStart(b, i), DataStart(b, i);
    KeptPart(b, c, i, r + 2, 4);
    if HasPerm(b, i) {
      KeptPart(b, c, i, d + 2, 2);
      KeptPart(b, c, i, d + 8, 4);
      KeptPart(b, c, i, d + 44, 4);
    }
  }

  lemma KeptWellFormed(b: Bytes, c: Bytes)
    requires WellFormed(b) && SameShape(b, c)
    ensures WellFormed(c)
  {
    hide SameShape, U, RecordEnd, DataStart, RecordStart, NameLength, RecordCount;
    KeptHeader(b, c);
    SameLength(b, c);
    forall i | 0 <= i < RecordCount(c) ensures RecordFits(c, i) {
      KeptRecord(b, c, i);
      KeptPlace(b, c, i);
      assert RecordFits(b, i);
    }
    forall i, j | 0 <= i < j < RecordCount(c) ensures RecordsApart(c, i, j) {
      KeptRecord(b, c, i);
      KeptPlace(b, c, i);
      KeptRecord(b, c, j);
      KeptPlace(b, c, j);
      assert RecordsApart(b, i, j);
    }
  }

  lemma KeptFixed(b: Bytes, c: Bytes, p: nat)
    requires WellFormed(b) && SameShape(b, c)
    ensures Fixed(c, p) <==> Fixed(b, p)
  {
    hide SameShape, U, DataStart, RecordCount, WellFormed, HasPerm;
    KeptHeader(b, c);
    forall i | 0 <= i < RecordCount(b) ensures InPerm(c, i, p) <==> InPerm(b, i, p) {
      KeptRecord(b, c, i);
      KeptPlace(b, c, i);
    }
  }

  lemma SameShapeTrans(a: Bytes, b: Bytes, c: Bytes)
    requires WellFormed(a) && SameShape(a, b) && SameShape(b, c)
    ensures SameShape(a, c)
  {
    hide Fixed, WellFormed;
    forall p | 0 <= p < |a| && Fixed(a, p) ensures a[p] == c[p] {
      KeptFixed(a, b, p);
    }
  }

  lemma SameShapeRefl(b: Bytes)
    ensures SameShape(b, b)
  {
  }

  // ----- writing one record's ownership -----

  /** The twelve bytes packed for a record: owner, group, both flag bytes as read, mode. */
  function SetPerm(b: Bytes, i: nat, p: Perm): (c: Bytes)
    requires DataStart(b, i) + 44 <= |b|
    ensures |c| == |b|
  {
    var d := DataStart(b, i);
    Splice(b, d + 32, BE(p.uid, 4) + BE(p.gid, 4) + [b[d + 40], b[d + 41]] + BE(p.mode, 2))
  }

  predicate PermFits(p: Perm) {
    p.uid < 0x1_0000_0000 && p.gid < 0x1_0000_0000 && p.mode < 0x1_0000
  }

  lemma SpliceFields(b: Bytes, o: nat, u: Bytes, g: Bytes, f: Bytes, m: Bytes)
    requires |u| == 4 && |g| == 4 && |f| == 2 && |m| == 2 && o + 12 <= |b|
    ensures var c := Splice(b, o, u + g + f + m);
            c[o..o + 4] == u && c[o + 4..o + 8] == g && c[o + 8..o + 10] == f && c[o + 10..o + 12] == m
  {
    var s := u + g + f + m;
    var c := Splice(b, o, s);
    SliceSlice(c, o, o + 12, 0, 4);
    SliceSlice(c, o, o + 12, 4, 8);
    SliceSlice(c, o, o + 12, 8, 10);
    SliceSlice(c, o, o + 12, 10, 12);
  }

  lemma SetPermBytes(b: Bytes, i: nat, p: Perm)
    requires DataStart(b, i) + 44 <= |b| && PermFits(p)
    ensures var d, c := DataStart(b, i), SetPerm(b, i, p);
            && U(c, d + 32, 4) == p.uid && U(c, d + 36, 4) == p.gid && U(c, d + 42, 2) == p.mode
            && c[d + 40] == b[d + 40] && c[d + 41] == b[d + 41]
            && forall q :: 0 <= q < |b| && !(d + 32 <= q < d + 44) ==> c[q] == b[q]
  {
    hide Splice, DataStart;
    var d, c := DataStart(b, i), SetPerm(b, i, p);
    var f := [b[d + 40], b[d + 41]];
    SpliceFields(b, d + 32, BE(p.uid, 4), BE(p.gid, 4), f, BE(p.mode, 2));
    Pow256Values();
    BERoundTrip(p.uid, 4);
    BERoundTrip(p.gid, 4);
    BERoundTrip(p.mode, 2);
    assert ReadAt(c, d + 42, 2) == c[d + 42..d + 44];
    assert c[d + 40] == c[d + 40..d + 42][0] && c[d + 41] == c[d + 40..d + 42][1];
  }

  /** Setting one record's ownership sets exactly that. */
  lemma SetPermEffect(b: Bytes, i: nat, p: Perm)
    requires WellFormed(b) && i < RecordCount(b) && HasPerm(b, i) && PermFits(p)
    ensures DataStart(b, i) + 48 <= |b|
    ensures SameShape(b, SetPerm(b, i, p)) && PermAt(SetPerm(b, i, p), i) == p
  {
    hide SetPerm, U, WellFormed, DataStart;
    EndInside(b, i);
    SetPermBytes(b, i, p);
    var c := SetPerm(b, i, p);
    forall q | 0 <= q < |b| && Fixed(b, q) ensures b[q] == c[q] {
      assert !InPerm(b, i, q);
    }
    KeptPlace(b, c, i);
  }

  lemma SetPermOthers(b: Bytes, i: nat, p: Perm, j: nat)
    requires WellFormed(b) && i < RecordCount(b) && HasPerm(b, i) && PermFits(p)
    requires j < RecordCount(b) && HasPerm(b, j) && j != i
    ensures DataStart(b, i) + 48 <= |b|
    ensures PermAt(SetPerm(b, i, p), j) == PermAt(b, j)
  {
    hide SetPerm, WellFormed, DataStart, SameShape, U;
    EndInside(b, i);
    EndInside(b, j);
    ApartAt(b, i, j);
    SetPermBytes(b, i, p);
    SetPermEffect(b, i, p);
    var c, d := SetPerm(b, i, p), DataStart(b, j);
    KeptPlace(b, c, j);
    SameBytes(b, c, d + 32, 4);
    SameBytes(b, c, d + 36, 4);
    SameBytes(b, c, d + 42, 2);
  }

  lemma SameBytes(b: Bytes, c: Bytes, o: nat, n: nat)
    requires |b| == |c| && o + n <= |b| && forall q :: o <= q < o + n ==> c[q] == b[q]
    ensures U(b, o, n) == U(c, o, n)
  {
    assert ReadAt(b, o, n) == ReadAt(c, o, n);
  }
}
