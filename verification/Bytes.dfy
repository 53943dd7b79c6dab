/** Byte strings, fixed-width integers and the record packing that Python's `struct` performs. */
module Bytes {

  type byte = x: int | 0 <= x < 256
  type Bytes = seq<byte>

  function Zeros(n: nat): (z: Bytes)
    ensures |z| == n
  {
    seq(n, _ => 0)
  }

  /** `b` with the bytes from `off` on overwritten by `s`. */
  function Splice(b: Bytes, off: nat, s: Bytes): (r: Bytes)
    requires off + |s| <= |b|
    ensures |r| == |b|
    ensures r[off..off + |s|] == s
    ensures forall p :: 0 <= p < |b| && !(off <= p < off + |s|) ==> r[p] == b[p]
  {
    b[..off] + s + b[off + |s|..]
  }

  lemma SliceSlice(s: Bytes, a: nat, b: nat, i: nat, j: nat)
    requires a <= b <= |s| && i <= j <= b - a
    ensures s[a..b][i..j] == s[a + i..a + j]
  {
    var t := s[a..b];
    assert |t[i..j]| == |s[a + i..a + j]|;
    assert forall k :: 0 <= k < j - i ==> t[i..j][k] == t[i + k] == s[a + (i + k)] == s[a + i..a + j][k];
  }

  lemma CountTwice<T>(s: seq<T>, i: nat, j: nat)
    requires i < j < |s| && s[i] == s[j]
    ensures multiset(s)[s[i]] >= 2
  {
    assert s == s[..i] + [s[i]] + s[i + 1..j] + [s[j]] + s[j + 1..];
  }

  /** What a file read of `n` bytes at `off` returns: short at the end of the file. */
  function ReadAt(b: Bytes, off: nat, n: nat): Bytes {
    if off >= |b| then [] else if off + n >= |b| then b[off..] else b[off..off + n]
  }

  /** Python's `b[lo:lo + n] = s`, which clips the replaced range and may resize `b`. */
  function SliceAssign(b: Bytes, lo: nat, n: nat, s: Bytes): Bytes {
    b[..if lo <= |b| then lo else |b|] + s + b[if lo + n <= |b| then lo + n else |b|..]
  }

  // ----- little- and big-endian integers -----

  function Pow256(k: nat): nat {
    if k == 0 then 1 else 256 * Pow256(k - 1)
  }

  lemma Pow256Values()
    ensures Pow256(1) == 0x100
    ensures Pow256(2) == 0x1_0000
    ensures Pow256(4) == 0x1_0000_0000
    ensures Pow256(8) == 0x1_0000_0000_0000_0000
  {
    assert Pow256(3) == 256 * Pow256(2);
    assert Pow256(6) == 256 * Pow256(5);
    assert Pow256(5) == 256 * Pow256(4);
  }

  function LE(n: nat, k: nat): (s: Bytes)
    ensures |s| == k
  {
    if k == 0 then [] else [n % 256] + LE(n / 256, k - 1)
  }

  function FromLE(s: Bytes): nat {
    if s == [] then 0 else s[0] + 256 * FromLE(s[1..])
  }

  /** The little-endian field of `n` bytes at `o`. */
  function Int(b: Bytes, o: nat, n: nat): nat {
    FromLE(ReadAt(b, o, n))
  }

  lemma {:induction false} FromLEBound(s: Bytes)
    ensures FromLE(s) < Pow256(|s|)
  {
    if s != [] {
      FromLEBound(s[1..]);
    }
  }

  /** A value that fits its width survives packing and unpacking. */
  lemma {:induction false} LERoundTrip(n: nat, k: nat)
    requires n < Pow256(k)
    ensures FromLE(LE(n, k)) == n
  {
    if k > 0 {
      LERoundTrip(n / 256, k - 1);
      assert LE(n, k)[1..] == LE(n / 256, k - 1);
    }
  }

  /** Reading a field and writing it back changes no byte. */
  lemma {:induction false} LEInverse(s: Bytes)
    ensures LE(FromLE(s), |s|) == s
  {
    if s != [] {
      LEInverse(s[1..]);
      assert FromLE(s) % 256 == s[0] && FromLE(s) / 256 == FromLE(s[1..]);
    }
  }

  function BE(n: nat, k: nat): (s: Bytes)
    ensures |s| == k
  {
    if k == 0 then [] else BE(n / 256, k - 1) + [n % 256]
  }

  function FromBE(s: Bytes): nat {
    if s == [] then 0 else 256 * FromBE(s[..|s| - 1]) + s[|s| - 1]
  }

  lemma {:induction false} FromBEBound(s: Bytes)
    ensures FromBE(s) < Pow256(|s|)
  {
    if s != [] {
      FromBEBound(s[..|s| - 1]);
    }
  }

  lemma {:induction false} BERoundTrip(n: nat, k: nat)
    requires n < Pow256(k)
    ensures FromBE(BE(n, k)) == n
  {
    if k > 0 {
      BERoundTrip(n / 256, k - 1);
      assert BE(n, k)[..k - 1] == BE(n / 256, k - 1);
    }
  }

  // ----- records of little-endian fields -----

  /** The byte offset of field `n` of a record whose fields have widths `ws`. */
  function Offset(ws: seq<nat>, n: nat): nat
    requires n <= |ws|
  {
    if n == 0 then 0 else Offset(ws, n - 1) + ws[n - 1]
  }

  lemma {:induction false} OffsetMonotone(ws: seq<nat>, i: nat, j: nat)
    requires i <= j <= |ws|
    ensures Offset(ws, i) <= Offset(ws, j)
  {
    if i < j {
      OffsetMonotone(ws, i, j - 1);
    }
  }

  predicate Fits(ws: seq<nat>, vs: seq<nat>) {
    |ws| == |vs| && forall i :: 0 <= i < |ws| ==> vs[i] < Pow256(ws[i])
  }

  /** The first `n` fields of a record, packed. */
  function Pack(ws: seq<nat>, vs: seq<nat>, n: nat): (b: Bytes)
    requires n <= |ws| == |vs|
    ensures |b| == Offset(ws, n)
  {
    if n == 0 then [] else Pack(ws, vs, n - 1) + LE(vs[n - 1], ws[n - 1])
  }

  function Field(ws: seq<nat>, b: Bytes, i: nat): nat
    requires i < |ws| && Offset(ws, i + 1) <= |b|
  {
    FromLE(b[Offset(ws, i)..Offset(ws, i + 1)])
  }

  /** Every field of a packed record whose values fit reads back, whatever follows the record. */
  lemma {:induction false} PackRoundTrip(ws: seq<nat>, vs: seq<nat>, n: nat, i: nat, rest: Bytes)
    requires Fits(ws, vs) && i < n <= |ws|
    ensures Offset(ws, i + 1) <= Offset(ws, n)
    ensures Field(ws, Pack(ws, vs, n) + rest, i) == vs[i]
  {
    var last := LE(vs[n - 1], ws[n - 1]);
    if i == n - 1 {
      LERoundTrip(vs[i], ws[i]);
      assert (Pack(ws, vs, n) + rest)[Offset(ws, i)..Offset(ws, n)] == last;
    } else {
      PackRoundTrip(ws, vs, n - 1, i, last + rest);
      assert Pack(ws, vs, n) + rest == Pack(ws, vs, n - 1) + (last + rest);
    }
  }

  lemma {:induction false} LEZero(k: nat)
    ensures LE(0, k) == Zeros(k)
  {
    if k > 0 {
      LEZero(k - 1);
    }
  }

  // ----- alignment -----

  /** `align_to(n, 512)`: the mask form `(n + 511) & ~511`, as an integer. */
  function AlignSector(n: nat): (r: nat)
    ensures r % 512 == 0 && n <= r < n + 512
  {
    (n + 511) / 512 * 512
  }
}
