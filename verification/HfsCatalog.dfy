/** The ownership patch over the whole leaf chain of a catalog file. */
module HfsCatalog {
  import opened Bytes
  import opened HfsStore
  import opened HfsNodes
  import opened HfsPaths
  import opened HfsPlan
  import opened HfsPatch
  import opened Arithmetic

  // ----- the catalog as an array of nodes -----

  predicate InRange(cat: Bytes, ns: nat, n: nat) {
    n * ns + ns <= |cat|
  }

  function Node(cat: Bytes, ns: nat, n: nat): (b: Bytes)
    requires InRange(cat, ns, n)
    ensures |b| == ns
  {
    cat[n * ns..n * ns + ns]
  }

  lemma NodesApart(ns: nat, m: nat, n: nat)
    requires m != n
    ensures m * ns + ns <= n * ns || n * ns + ns <= m * ns
  {
    if m < n {
      MulNext(m, n, ns);
    } else {
      MulNext(n, m, ns);
    }
  }

  /** Writing node `n` is an array update: node `n` becomes the buffer and no other node changes. */
  lemma NodeWritten(cat: Bytes, ns: nat, n: nat, buf: Bytes, m: nat)
    requires InRange(cat, ns, n) && |buf| == ns && InRange(cat, ns, m)
    ensures var c := Splice(cat, n * ns, buf);
            InRange(c, ns, m) && Node(c, ns, m) == if m == n then buf else Node(cat, ns, m)
  {
    var c := Splice(cat, n * ns, buf);
    if m != n {
      NodesApart(ns, m, n);
      assert forall p :: m * ns <= p < m * ns + ns ==> c[p] == cat[p];
    }
  }

  // ----- the leaf chain -----

  predicate GoodLeaf(cat: Bytes, ns: nat, n: nat) {
    InRange(cat, ns, n) && IsLeaf(Node(cat, ns, n))
  }

  /** `nodes` are the nodes visited from `n` on, up to the end of the chain or the first that is not a leaf. */
  ghost predicate Chain(cat: Bytes, ns: nat, n: nat, nodes: seq<nat>)
    decreases |nodes|
  {
    if n == 0 then nodes == []
    else
      && nodes != [] && nodes[0] == n
      && if GoodLeaf(cat, ns, n) then Chain(cat, ns, NextLeaf(Node(cat, ns, n)), nodes[1..]) else |nodes| == 1
  }

  predicate AllGood(cat: Bytes, ns: nat, nodes: seq<nat>) {
    forall i :: 0 <= i < |nodes| ==> GoodLeaf(cat, ns, nodes[i])
  }

  lemma {:induction false} ChainUnique(cat: Bytes, ns: nat, n: nat, a: seq<nat>, b: seq<nat>)
    requires Chain(cat, ns, n, a) && Chain(cat, ns, n, b)
    ensures a == b
    decreases |a|
  {
    hide IsLeaf, NextLeaf;
    if n != 0 {
      if GoodLeaf(cat, ns, n) {
        ChainUnique(cat, ns, NextLeaf(Node(cat, ns, n)), a[1..], b[1..]);
      }
      assert a == [n] + a[1..] && b == [n] + b[1..];
    }
  }

  lemma {:induction false} ChainFrom(cat: Bytes, ns: nat, n: nat, nodes: seq<nat>, i: nat)
    requires Chain(cat, ns, n, nodes) && i < |nodes|
    ensures nodes[i] != 0 && Chain(cat, ns, nodes[i], nodes[i..])
    decreases i
  {
    hide IsLeaf, NextLeaf;
    if i > 0 {
      assert GoodLeaf(cat, ns, n);
      ChainFrom(cat, ns, NextLeaf(Node(cat, ns, n)), nodes[1..], i - 1);
      assert nodes[1..][i - 1..] == nodes[i..];
    } else {
      assert nodes[0..] == nodes;
    }
  }

  predicate Distinct(nodes: seq<nat>) {
    forall i, j :: 0 <= i < j < |nodes| ==> nodes[i] != nodes[j]
  }

  /** A finite chain visits no node twice. */
  lemma ChainDistinct(cat: Bytes, ns: nat, n: nat, nodes: seq<nat>)
    requires Chain(cat, ns, n, nodes)
    ensures Distinct(nodes)
  {
    hide GoodLeaf, Chain;
    forall i, j | 0 <= i < j < |nodes| ensures nodes[i] != nodes[j] {
      ChainFrom(cat, ns, n, nodes, i);
      ChainFrom(cat, ns, n, nodes, j);
      if nodes[i] == nodes[j] {
        ChainUnique(cat, ns, nodes[i], nodes[i..], nodes[j..]);
      }
    }
  }

  // ----- pass 1: folders and private directories -----

  predicate Contains(n: Name, s: Name) {
    exists k :: 0 <= k <= |n| && s <= n[k..]
  }

  predicate IsPrivateName(n: Name) {
    Contains(n, Units("HFS+ Private Data")) || Contains(n, Units("HFS+ Private Directory Data"))
  }

  predicate IsPrivateFolder(r: Rec) {
    r.kind == 1 && r.parent == ROOT_FOLDER && IsPrivateName(r.name)
  }

  function FoldersIn(b: Bytes, n: nat, acc: Folders): Folders {
    if n == 0 then acc
    else
      var r := RecAt(b, n - 1);
      var f := FoldersIn(b, n - 1, acc);
      if r.kind == 1 then f[r.cnid := Folder(r.parent, r.name)] else f
  }

  function PrivateIn(b: Bytes, n: nat, acc: set<nat>): set<nat> {
    if n == 0 then acc
    else
      var r := RecAt(b, n - 1);
      PrivateIn(b, n - 1, acc) + if IsPrivateFolder(r) then {r.cnid} else {}
  }

  function FoldersOver(cat: Bytes, ns: nat, nodes: seq<nat>, n: nat): Folders
    requires n <= |nodes| && forall i :: 0 <= i < n ==> InRange(cat, ns, nodes[i])
  {
    if n == 0 then map[]
    else
      var b := Node(cat, ns, nodes[n - 1]);
      FoldersIn(b, RecordCount(b), FoldersOver(cat, ns, nodes, n - 1))
  }

  function PrivateOver(cat: Bytes, ns: nat, nodes: seq<nat>, n: nat): set<nat>
    requires n <= |nodes| && forall i :: 0 <= i < n ==> InRange(cat, ns, nodes[i])
  {
    if n == 0 then {}
    else
      var b := Node(cat, ns, nodes[n - 1]);
      PrivateIn(b, RecordCount(b), PrivateOver(cat, ns, nodes, n - 1))
  }

  method ScanNode(b: Bytes, folders0: Folders, private0: set<nat>, keys0: seq<nat>)
    returns (folders: Folders, private: set<nat>, keys: seq<nat>)
    requires forall c :: c in folders0 ==> c in keys0
    ensures folders == FoldersIn(b, RecordCount(b), folders0)
    ensures private == PrivateIn(b, RecordCount(b), private0)
    ensures forall c :: c in folders ==> c in keys
  {
    hide RecAt, RecordCount, IsPrivateName;
    folders, private, keys := folders0, private0, keys0;
    for i := 0 to RecordCount(b)
      invariant folders == FoldersIn(b, i, folders0) && private == PrivateIn(b, i, private0)
      invariant forall c :: c in folders ==> c in keys
    {
      var r := RecAt(b, i);
      if r.kind == 1 {
        folders := folders[r.cnid := Folder(r.parent, r.name)];
        keys := keys + [r.cnid];
        if r.parent == ROOT_FOLDER && IsPrivateName(r.name) {
          private := private + {r.cnid};
        }
      }
    }
  }

  /** Pass 1: follows the leaf chain; a node that is not a leaf stops everything before any write. */
  method ScanLeaves(f: CatalogFile, ns: nat, first: nat, ghost chain: seq<nat>)
    returns (ok: bool, order: seq<nat>, folders: Folders, private: set<nat>, keys: seq<nat>)
    requires f.Valid() && ns > 0 && Chain(f.Cat(), ns, first, chain)
    ensures ok <==> AllGood(f.Cat(), ns, chain)
    ensures ok ==>
      && order == chain
      && folders == FoldersOver(f.Cat(), ns, chain, |chain|) && private == PrivateOver(f.Cat(), ns, chain, |chain|)
      && forall c :: c in folders ==> c in keys
  {
    hide IsLeaf, NextLeaf, FoldersIn, PrivateIn;
    ghost var cat := f.Cat();
    var node := first;
    ok, order, folders, private, keys := true, [], map[], {}, [];
    while node != 0
      invariant |order| <= |chain| && order == chain[..|order|] && Chain(cat, ns, node, chain[|order|..])
      invariant forall i :: 0 <= i < |order| ==> GoodLeaf(cat, ns, chain[i])
      invariant folders == FoldersOver(cat, ns, chain, |order|)
      invariant private == PrivateOver(cat, ns, chain, |order|)
      invariant forall c :: c in folders ==> c in keys
      decreases |chain| - |order|
    {
      ghost var k := |order|;
      assert chain[k..][0] == chain[k] == node;
      order := order + [node];
      var b := f.ReadNode(node, ns);
      if b.None? {
        assert !GoodLeaf(cat, ns, chain[k]);
        return false, order, folders, private, keys;
      }
      assert b.value == Node(cat, ns, node);
      if !IsLeaf(b.value) {
        assert !GoodLeaf(cat, ns, chain[k]);
        return false, order, folders, private, keys;
      }
      folders, private, keys := ScanNode(b.value, folders, private, keys);
      assert chain[k..][1..] == chain[k + 1..];
      node := NextLeaf(b.value);
    }
    assert chain[|order|..] == [];
  }

  // ----- sweeping a pass over a list of nodes -----

  /** `b` differs from `a` inside the listed nodes only. */
  ghost predicate ChangesIn(a: Bytes, b: Bytes, ns: nat, nodes: seq<nat>) {
    |a| == |b| && forall l :: 0 <= l < |a| && a[l] != b[l] ==>
      exists j :: 0 <= j < |nodes| && nodes[j] * ns <= l < nodes[j] * ns + ns
  }

  predicate NodesOk(cat: Bytes, ns: nat, nodes: seq<nat>) {
    forall j :: 0 <= j < |nodes| ==> InRange(cat, ns, nodes[j]) && WellFormed(Node(cat, ns, nodes[j]))
  }

  ghost predicate NodeDone(t: Target, ns: nat, n: nat, a: Bytes, b: Bytes)
    requires |a| == |b| && InRange(a, ns, n)
  {
    Progress(t, Node(a, ns, n), Node(b, ns, n), RecordCount(Node(a, ns, n)))
  }

  /** The pass `t` has been carried out on the first `k` listed nodes, and on nothing else. */
  ghost predicate Swept(t: Target, ns: nat, nodes: seq<nat>, k: nat, a: Bytes, b: Bytes)
    requires k <= |nodes| && NodesOk(a, ns, nodes)
  {
    && |a| == |b|
    && (forall j :: 0 <= j < k ==> NodeDone(t, ns, nodes[j], a, b))
    && (forall j :: k <= j < |nodes| ==> Node(b, ns, nodes[j]) == Node(a, ns, nodes[j]))
    && ChangesIn(a, b, ns, nodes)
  }

  lemma ChangesSplice(a: Bytes, b: Bytes, ns: nat, nodes: seq<nat>, k: nat, buf: Bytes)
    requires ChangesIn(a, b, ns, nodes) && k < |nodes| && InRange(b, ns, nodes[k]) && |buf| == ns
    ensures ChangesIn(a, Splice(b, nodes[k] * ns, buf), ns, nodes)
  {
    var c := Splice(b, nodes[k] * ns, buf);
    forall l | 0 <= l < |a| && a[l] != c[l]
      ensures exists j :: 0 <= j < |nodes| && nodes[j] * ns <= l < nodes[j] * ns + ns
    {
      if nodes[k] * ns <= l < nodes[k] * ns + ns {
      } else {
        assert c[l] == b[l];
      }
    }
  }

  lemma SweptWrite(t: Target, ns: nat, nodes: seq<nat>, k: nat, a: Bytes, b: Bytes, buf: Bytes)
    requires NodesOk(a, ns, nodes) && k < |nodes| && Distinct(nodes) && Swept(t, ns, nodes, k, a, b)
    requires |buf| == ns && Progress(t, Node(a, ns, nodes[k]), buf, RecordCount(Node(a, ns, nodes[k])))
    ensures nodes[k] * ns + ns <= |b|
    ensures Swept(t, ns, nodes, k + 1, a, Splice(b, nodes[k] * ns, buf))
  {
    hide Progress, RecordCount, ChangesIn, WellFormed, Node, Splice;
    var n := nodes[k];
    var c := Splice(b, n * ns, buf);
    ChangesSplice(a, b, ns, nodes, k, buf);
    forall j | 0 <= j < |nodes| ensures Node(c, ns, nodes[j]) == if j == k then buf else Node(b, ns, nodes[j]) {
      NodeWritten(b, ns, n, buf, nodes[j]);
    }
  }

  lemma SweptIdle(t: Target, ns: nat, nodes: seq<nat>, k: nat, a: Bytes, b: Bytes)
    requires NodesOk(a, ns, nodes) && k < |nodes| && Swept(t, ns, nodes, k, a, b)
    requires Progress(t, Node(a, ns, nodes[k]), Node(a, ns, nodes[k]), RecordCount(Node(a, ns, nodes[k])))
    ensures Swept(t, ns, nodes, k + 1, a, b)
  {
    hide Progress, RecordCount, ChangesIn, WellFormed, Node;
  }

  lemma SweptStart(t: Target, ns: nat, nodes: seq<nat>, a: Bytes)
    requires NodesOk(a, ns, nodes)
    ensures Swept(t, ns, nodes, 0, a, a)
  {
    hide WellFormed;
  }

  /** None of the first `k` listed nodes has anything to change. */
  ghost predicate Clean(t: Target, cat: Bytes, ns: nat, nodes: seq<nat>, k: nat)
    requires k <= |nodes| && NodesOk(cat, ns, nodes)
  {
    forall j :: 0 <= j < k ==> !Dirty(t, Node(cat, ns, nodes[j]), RecordCount(Node(cat, ns, nodes[j])))
  }

  ghost function LinksOver(env: Env, cat: Bytes, ns: nat, nodes: seq<nat>, k: nat): Owners
    requires Acyclic(env.folders) && k <= |nodes| && NodesOk(cat, ns, nodes)
  {
    if k == 0 then map[]
    else
      var b := Node(cat, ns, nodes[k - 1]);
      LinksIn(env, b, RecordCount(b), LinksOver(env, cat, ns, nodes, k - 1))
  }

  /** The leaves among the first `k` that hold records of a private directory. */
  ghost function PrivateLeaves(env: Env, cat: Bytes, ns: nat, nodes: seq<nat>, k: nat): set<nat>
    requires Acyclic(env.folders) && k <= |nodes| && NodesOk(cat, ns, nodes)
  {
    if k == 0 then {}
    else
      var b := Node(cat, ns, nodes[k - 1]);
      PrivateLeaves(env, cat, ns, nodes, k - 1) + if HasPrivate(env, b, RecordCount(b)) then {nodes[k - 1]} else {}
  }

  /** Pass 2a. */
  method SweepLeaves(f: CatalogFile, ns: nat, env: Env, cache: map<nat, Name>, nodes: seq<nat>, ghost rank: nat -> nat)
    returns (writes: nat, links: Owners, private: set<nat>)
    requires f.Valid() && ns > 0 && NodesOk(f.Cat(), ns, nodes) && Distinct(nodes)
    requires EnvOk(env) && Ranked(env.folders, rank) && CacheSound(env.folders, cache)
    modifies f`data
    ensures f.Valid() && SameOutside(f.layout, old(f.data), f.data)
    ensures Swept(LeafTarget(env), ns, nodes, |nodes|, old(f.Cat()), f.Cat())
    ensures writes == 0 <==> Clean(LeafTarget(env), old(f.Cat()), ns, nodes, |nodes|)
    ensures writes == 0 ==> f.data == old(f.data)
    ensures links == LinksOver(env, old(f.Cat()), ns, nodes, |nodes|)
    ensures private == PrivateLeaves(env, old(f.Cat()), ns, nodes, |nodes|)
  {
    hide WellFormed, Swept, SameOutside, Ranked, CacheSound, Progress, Dirty, LinksIn, HasPrivate, Acyclic;
    hide RecordCount, OnDisk, Logical, Distinct;
    ghost var a := f.Cat();
    ghost var t := LeafTarget(env);
    writes, links, private := 0, map[], {};
    SweptStart(t, ns, nodes, a);
    SameOutsideRefl(f.layout, f.data);
    for k := 0 to |nodes|
      invariant f.Valid() && SameOutside(f.layout, old(f.data), f.data)
      invariant Swept(t, ns, nodes, k, a, f.Cat())
      invariant writes == 0 <==> Clean(t, a, ns, nodes, k)
      invariant writes == 0 ==> f.data == old(f.data)
      invariant links == LinksOver(env, a, ns, nodes, k)
      invariant private == PrivateLeaves(env, a, ns, nodes, k)
    {
      var n := nodes[k];
      SweptAt(t, ns, nodes, k, a, f.Cat());
      var r := f.ReadNode(n, ns);
      var b, dirty, links', holds := PatchLeaf(env, cache, r.value, links, rank);
      links := links';
      if holds {
        private := private + {n};
      }
      if dirty {
        ghost var c, d := f.Cat(), f.data;
        ProgressLength(t, r.value, b);
        SweptWrite(t, ns, nodes, k, a, c, b);
        f.WriteNode(n, ns, b);
        SameOutsideTrans(f.layout, old(f.data), d, f.data);
        writes := writes + 1;
      } else {
        SweptIdle(t, ns, nodes, k, a, f.Cat());
      }
    }
  }

  lemma ProgressLength(t: Target, b: Bytes, c: Bytes)
    requires Progress(t, b, c, RecordCount(b))
    ensures |c| == |b|
  {
    hide RecordCount, PermAt;
  }

  lemma SweptAt(t: Target, ns: nat, nodes: seq<nat>, k: nat, a: Bytes, b: Bytes)
    requires NodesOk(a, ns, nodes) && k < |nodes| && Swept(t, ns, nodes, k, a, b)
    ensures InRange(b, ns, nodes[k]) && Node(b, ns, nodes[k]) == Node(a, ns, nodes[k])
    ensures WellFormed(Node(a, ns, nodes[k]))
  {
    hide WellFormed, Progress;
  }
}
