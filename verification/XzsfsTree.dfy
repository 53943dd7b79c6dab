/** Object maps read from an XZSFS image: parent chains, full paths and extents. */
module XzsfsTree {
  import opened Bytes
  import opened XzsfsFormat

  datatype Object = Object(rec: Record, name: Bytes)
  type Objects = map<nat, Object>

  // ----- parent chains -----

  /** The root is `d` parent steps away from `id`, and not fewer. */
  ghost predicate AtDepth(objs: Objects, id: nat, d: nat)
    decreases d
  {
    if d == 0 then id == 1
    else id != 1 && id in objs && AtDepth(objs, objs[id].rec.parent, d - 1)
  }

  ghost predicate ReachesRoot(objs: Objects, id: nat) {
    exists d: nat :: AtDepth(objs, id, d)
  }

  lemma {:induction false} DepthUnique(objs: Objects, id: nat, d: nat, e: nat)
    requires AtDepth(objs, id, d) && AtDepth(objs, id, e)
    ensures d == e
    decreases d
  {
    if d > 0 && e > 0 {
      DepthUnique(objs, objs[id].rec.parent, d - 1, e - 1);
    }
  }

  ghost function Depth(objs: Objects, id: nat): (d: nat)
    requires ReachesRoot(objs, id)
    ensures AtDepth(objs, id, d)
  {
    var d: nat :| AtDepth(objs, id, d);
    d
  }

  /** The names on the way from the root down to `id`. */
  ghost function Parts(objs: Objects, id: nat, d: nat): (parts: seq<Bytes>)
    requires AtDepth(objs, id, d)
    ensures |parts| == d
    decreases d
  {
    if d == 0 then [] else Parts(objs, objs[id].rec.parent, d - 1) + [objs[id].name]
  }

  // ----- rendering a path -----

  /** `"/".join(parts)`. */
  function Join(parts: seq<Bytes>): Bytes {
    if parts == [] then []
    else if |parts| == 1 then parts[0]
    else parts[0] + [SLASH] + Join(parts[1..])
  }

  function Render(parts: seq<Bytes>): Bytes {
    [SLASH] + Join(parts)
  }

  ghost function PathOf(objs: Objects, id: nat): Bytes
    requires ReachesRoot(objs, id)
  {
    Render(Parts(objs, id, Depth(objs, id)))
  }

  predicate GoodName(n: Bytes) {
    n != [] && SLASH !in n
  }

  lemma {:induction false} JoinSnoc(parts: seq<Bytes>, p: Bytes)
    requires parts != []
    ensures Join(parts + [p]) == Join(parts) + [SLASH] + p
  {
    if |parts| == 1 {
      assert parts + [p] == [parts[0], p];
    } else {
      JoinSnoc(parts[1..], p);
      assert (parts + [p])[1..] == parts[1..] + [p];
    }
  }

  function FirstSlash(s: Bytes): nat {
    if s == [] || s[0] == SLASH then 0 else 1 + FirstSlash(s[1..])
  }

  lemma {:induction false} FirstSlashAfter(p: Bytes, r: Bytes)
    requires SLASH !in p && (r == [] || r[0] == SLASH)
    ensures FirstSlash(p + r) == |p|
  {
    if p == [] {
      assert p + r == r;
    } else {
      FirstSlashAfter(p[1..], r);
      assert (p + r)[1..] == p[1..] + r;
    }
  }

  /** A slash-free head is delimited by the first slash. */
  lemma HeadDelimited(p: Bytes, r: Bytes, q: Bytes, s: Bytes)
    requires SLASH !in p && SLASH !in q && p + r == q + s
    requires (r == [] || r[0] == SLASH) && (s == [] || s[0] == SLASH)
    ensures p == q && r == s
  {
    FirstSlashAfter(p, r);
    FirstSlashAfter(q, s);
    assert p == (p + r)[..|p|] == (q + s)[..|q|] == q;
    assert r == (p + r)[|p|..] == (q + s)[|q|..] == s;
  }

  lemma JoinHead(parts: seq<Bytes>)
    requires parts != []
    ensures var r := if |parts| == 1 then [] else [SLASH] + Join(parts[1..]); Join(parts) == parts[0] + r
  {
  }

  lemma JoinNone()
    ensures Join([]) == []
  {
  }

  /** Joining non-empty slash-free names loses nothing. */
  lemma {:induction false} JoinInjective(a: seq<Bytes>, b: seq<Bytes>)
    requires forall i :: 0 <= i < |a| ==> GoodName(a[i])
    requires forall i :: 0 <= i < |b| ==> GoodName(b[i])
    requires Join(a) == Join(b)
    ensures a == b
  {
    hide Join;
    JoinNone();
    if a == [] || b == [] {
      if a != [] {
        JoinHead(a);
      }
      if b != [] {
        JoinHead(b);
      }
    } else {
      JoinHead(a);
      JoinHead(b);
      var r := if |a| == 1 then [] else [SLASH] + Join(a[1..]);
      var s := if |b| == 1 then [] else [SLASH] + Join(b[1..]);
      HeadDelimited(a[0], r, b[0], s);
      if |a| > 1 && |b| > 1 {
        assert Join(a[1..]) == r[1..] == s[1..] == Join(b[1..]);
        JoinInjective(a[1..], b[1..]);
      }
      assert a == [a[0]] + a[1..] && b == [b[0]] + b[1..];
    }
  }

  // ----- what the verifier demands of the hierarchy -----

  predicate ParentOk(objs: Objects, id: nat)
    requires id in objs
  {
    objs[id].rec.parent in objs && objs[objs[id].rec.parent].rec.kind == TYPE_DIR
  }

  ghost predicate HierarchyOk(objs: Objects) {
    forall id {:trigger ParentOk(objs, id)} {:trigger ReachesRoot(objs, id)} ::
      id in objs ==> ParentOk(objs, id) && ReachesRoot(objs, id)
  }

  predicate NamesUnique(objs: Objects) {
    forall a, b :: a in objs && b in objs && 1 < a && 1 < b && a != b
      ==> objs[a].rec.parent != objs[b].rec.parent || objs[a].name != objs[b].name
  }

  predicate NamesGood(objs: Objects) {
    forall id :: id in objs && id != 1 ==> GoodName(objs[id].name)
  }

  lemma {:induction false} PartsGood(objs: Objects, id: nat, d: nat, i: nat)
    requires NamesGood(objs) && AtDepth(objs, id, d) && i < d
    ensures GoodName(Parts(objs, id, d)[i])
    decreases d
  {
    if i < d - 1 {
      PartsGood(objs, objs[id].rec.parent, d - 1, i);
    }
  }

  lemma {:induction false} PartsInjective(objs: Objects, a: nat, b: nat, d: nat)
    requires NamesUnique(objs) && AtDepth(objs, a, d) && AtDepth(objs, b, d)
    requires 0 !in objs
    requires Parts(objs, a, d) == Parts(objs, b, d)
    ensures a == b
    decreases d
  {
    if d > 0 {
      var pa, pb := objs[a].rec.parent, objs[b].rec.parent;
      var x, y := Parts(objs, pa, d - 1), Parts(objs, pb, d - 1);
      assert x == (x + [objs[a].name])[..d - 1] == (y + [objs[b].name])[..d - 1] == y;
      assert objs[a].name == Parts(objs, a, d)[d - 1] == Parts(objs, b, d)[d - 1] == objs[b].name;
      PartsInjective(objs, pa, pb, d - 1);
    }
  }

  /** Different objects have different full paths. */
  lemma PathInjective(objs: Objects, a: nat, b: nat)
    requires NamesUnique(objs) && NamesGood(objs) && 0 !in objs
    requires ReachesRoot(objs, a) && ReachesRoot(objs, b)
    requires PathOf(objs, a) == PathOf(objs, b)
    ensures a == b
  {
    var d, e := Depth(objs, a), Depth(objs, b);
    var x, y := Parts(objs, a, d), Parts(objs, b, e);
    forall i | 0 <= i < d ensures GoodName(x[i]) {
      PartsGood(objs, a, d, i);
    }
    forall i | 0 <= i < e ensures GoodName(y[i]) {
      PartsGood(objs, b, e, i);
    }
    assert Join(x) == Render(x)[1..] == Render(y)[1..] == Join(y);
    JoinInjective(x, y);
    PartsInjective(objs, a, b, d);
  }

  /** No two objects share a full path, so no extraction overwrites another. */
  ghost predicate PathsUnique(objs: Objects)
    requires HierarchyOk(objs)
  {
    forall a, b :: a in objs && b in objs && PathOf(objs, a) == PathOf(objs, b) ==> a == b
  }

  lemma NamesGivePaths(objs: Objects)
    requires HierarchyOk(objs) && NamesUnique(objs) && NamesGood(objs) && 0 !in objs
    ensures PathsUnique(objs)
  {
    forall a, b | a in objs && b in objs && PathOf(objs, a) == PathOf(objs, b) ensures a == b {
      PathInjective(objs, a, b);
    }
  }

  // ----- extents -----

  function End(o: Object): nat {
    o.rec.dataOff + o.rec.dataLen
  }

  predicate Disjoint(a: Object, b: Object) {
    End(a) <= b.rec.dataOff || End(b) <= a.rec.dataOff
  }

  predicate HasPayload(o: Object) {
    o.rec.kind == TYPE_REG && o.rec.dataLen > 0
  }

  predicate ExtentsDisjoint(objs: Objects) {
    forall a, b :: a in objs && b in objs && a != b && HasPayload(objs[a]) && HasPayload(objs[b])
      ==> Disjoint(objs[a], objs[b])
  }

  predicate SortedByOffset(s: seq<Object>) {
    forall i, j :: 0 <= i < j < |s| ==> s[i].rec.dataOff <= s[j].rec.dataOff
  }

  predicate NeighboursApart(s: seq<Object>) {
    forall i :: 0 <= i < |s| - 1 ==> End(s[i]) <= s[i + 1].rec.dataOff
  }

  predicate PairwiseApart(s: seq<Object>) {
    forall i, j :: 0 <= i < j < |s| ==> Disjoint(s[i], s[j])
  }

  lemma {:induction false} NeighboursOrder(s: seq<Object>, i: nat, j: nat)
    requires NeighboursApart(s) && i < j < |s|
    ensures End(s[i]) <= s[j].rec.dataOff
  {
    if i + 1 < j {
      NeighboursOrder(s, i, j - 1);
    }
  }

  /** After sorting non-empty extents by offset, comparing neighbours decides pairwise disjointness. */
  lemma NeighboursSuffice(s: seq<Object>)
    requires SortedByOffset(s)
    requires forall i :: 0 <= i < |s| ==> s[i].rec.dataLen > 0
    ensures NeighboursApart(s) <==> PairwiseApart(s)
  {
    if NeighboursApart(s) {
      forall i, j | 0 <= i < j < |s| ensures Disjoint(s[i], s[j]) {
        NeighboursOrder(s, i, j);
      }
    }
    if PairwiseApart(s) {
      forall i | 0 <= i < |s| - 1 ensures End(s[i]) <= s[i + 1].rec.dataOff {
        assert Disjoint(s[i], s[i + 1]);
      }
    }
  }

  /** `sort(key=lambda o: o.data_offset)`: stable insertion by data offset. */
  function InsertByOffset(o: Object, s: seq<Object>): (r: seq<Object>)
    ensures multiset(r) == multiset(s) + multiset{o}
    ensures forall x :: x in r ==> x == o || x in s
  {
    if s == [] then [o]
    else if o.rec.dataOff < s[0].rec.dataOff then
      [o] + s
    else
      assert s == [s[0]] + s[1..];
      [s[0]] + InsertByOffset(o, s[1..])
  }

  lemma SortedSplits(s: seq<Object>)
    requires SortedByOffset(s) && s != []
    ensures SortedByOffset(s[1..]) && forall x :: x in s ==> s[0].rec.dataOff <= x.rec.dataOff
  {
  }

  lemma SortedCons(o: Object, s: seq<Object>)
    requires SortedByOffset(s) && forall i :: 0 <= i < |s| ==> o.rec.dataOff <= s[i].rec.dataOff
    ensures SortedByOffset([o] + s)
  {
  }

  lemma {:induction false} InsertSorted(o: Object, s: seq<Object>)
    requires SortedByOffset(s)
    ensures SortedByOffset(InsertByOffset(o, s))
  {
    hide SortedByOffset;
    if s != [] && s[0].rec.dataOff <= o.rec.dataOff {
      var r := InsertByOffset(o, s[1..]);
      SortedSplits(s);
      InsertSorted(o, s[1..]);
      forall i | 0 <= i < |r| ensures s[0].rec.dataOff <= r[i].rec.dataOff {
        assert r[i] in r;
      }
      SortedCons(s[0], r);
    } else if s != [] {
      SortedSplits(s);
      SortedCons(o, s);
    } else {
      SortedCons(o, s);
      assert [o] + s == [o];
    }
  }

  function SortByOffset(s: seq<Object>): (r: seq<Object>)
    ensures multiset(r) == multiset(s)
    ensures SortedByOffset(r)
  {
    if s == [] then []
    else
      assert s == s[..|s| - 1] + [s[|s| - 1]];
      InsertSorted(s[|s| - 1], SortByOffset(s[..|s| - 1]));
      InsertByOffset(s[|s| - 1], SortByOffset(s[..|s| - 1]))
  }
}
