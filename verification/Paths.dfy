/** Relative paths as byte strings: ordering, `os.path.dirname` and `os.path.basename`. */
module Paths {
  import opened Bytes

  const SEP: byte := 47

  // ----- the order Python compares path strings by -----

  predicate Less(a: Bytes, b: Bytes) {
    if b == [] then false
    else if a == [] then true
    else if a[0] != b[0] then a[0] < b[0]
    else Less(a[1..], b[1..])
  }

  lemma {:induction false} LessTrichotomy(a: Bytes, b: Bytes)
    ensures a == b || Less(a, b) || Less(b, a)
    ensures !(Less(a, b) && Less(b, a)) && (a == b ==> !Less(a, b))
  {
    if a != [] && b != [] {
      LessTrichotomy(a[1..], b[1..]);
      if a[1..] == b[1..] && a[0] == b[0] {
        assert a == [a[0]] + a[1..] == [b[0]] + b[1..] == b;
      }
    }
  }

  lemma {:induction false} LessTransitive(a: Bytes, b: Bytes, c: Bytes)
    requires Less(a, b) && Less(b, c)
    ensures Less(a, c)
  {
    if a != [] && a[0] == b[0] == c[0] {
      LessTransitive(a[1..], b[1..], c[1..]);
    }
  }

  /** A directory's path sorts before everything below it. */
  lemma {:induction false} PrefixLess(a: Bytes, rest: Bytes)
    requires rest != []
    ensures Less(a, a + rest)
  {
    if a != [] {
      PrefixLess(a[1..], rest);
      assert (a + rest)[1..] == a[1..] + rest;
    }
  }

  // ----- splitting at the last separator -----

  /** One past the last separator, or 0: `p.rfind("/") + 1`. */
  function Cut(p: Bytes): (i: nat)
    ensures i <= |p| && SEP !in p[i..]
    ensures i > 0 ==> p[i - 1] == SEP
  {
    if p == [] then 0
    else if p[|p| - 1] == SEP then |p|
    else
      var i := Cut(p[..|p| - 1]);
      assert p[i..] == p[..|p| - 1][i..] + [p[|p| - 1]];
      i
  }

  function Basename(p: Bytes): (n: Bytes)
    ensures SEP !in n
  {
    p[Cut(p)..]
  }

  function StripSeps(h: Bytes): Bytes {
    if h != [] && h[|h| - 1] == SEP then StripSeps(h[..|h| - 1]) else h
  }

  function Dirname(p: Bytes): Bytes {
    var head := p[..Cut(p)];
    if forall i :: 0 <= i < |head| ==> head[i] == SEP then head else StripSeps(head)
  }

  /** Below a directory whose own path does not end in a separator, the path is directory, separator, name. */
  lemma DirnameSplits(p: Bytes, d: Bytes)
    requires Cut(p) > 0 && d == p[..Cut(p) - 1] && d != [] && d[|d| - 1] != SEP
    ensures Dirname(p) == d && p == d + [SEP] + Basename(p)
  {
    var head := p[..Cut(p)];
    assert head == d + [SEP];
    assert head[|d| - 1] != SEP;
    assert head[..|head| - 1] == d;
    assert StripSeps(d) == d;
    assert StripSeps(head) == d;
  }

  lemma DirnameTop(p: Bytes)
    requires Cut(p) == 0
    ensures Dirname(p) == [] && p == Basename(p)
  {
  }
}
