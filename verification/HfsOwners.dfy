/** The whole ownership patch: effect on every record, frame, and idempotence. */
module HfsOwners {
  import opened Bytes
  import opened HfsStore
  import opened HfsNodes
  import opened HfsPaths
  import opened HfsPlan
  import opened HfsPatch
  import opened HfsCatalog
  import opened SortedSets
  import opened Wrappers

  // ----- pass 2b -----

  lemma IncreasingDistinct(nodes: seq<nat>)
    requires Increasing(nodes)
    ensures Distinct(nodes)
  {
  }

  method SweepINodes(f: CatalogFile, ns: nat, env: Env, links: Owners, nodes: seq<nat>) returns (writes: nat)
    requires f.Valid() && ns > 0 && NodesOk(f.Cat(), ns, nodes) && Distinct(nodes) && OwnersFit(links)
    modifies f`data
    ensures f.Valid() && SameOutside(f.layout, old(f.data), f.data)
    ensures Swept(INodeTarget(env, links), ns, nodes, |nodes|, old(f.Cat()), f.Cat())
    ensures writes == 0 <==> Clean(INodeTarget(env, links), old(f.Cat()), ns, nodes, |nodes|)
    ensures writes == 0 ==> f.data == old(f.data)
  {
    hide WellFormed, Swept, SameOutside, Progress, Dirty, RecordCount, OnDisk, Logical, Distinct, OwnersFit;
    ghost var a := f.Cat();
    ghost var t := INodeTarget(env, links);
    writes := 0;
    SweptStart(t, ns, nodes, a);
    SameOutsideRefl(f.layout, f.data);
    for k := 0 to |nodes|
      invariant f.Valid() && SameOutside(f.layout, old(f.data), f.data)
      invariant Swept(t, ns, nodes, k, a, f.Cat())
      invariant writes == 0 <==> Clean(t, a, ns, nodes, k)
      invariant writes == 0 ==> f.data == old(f.data)
    {
      var n := nodes[k];
      SweptAt(t, ns, nodes, k, a, f.Cat());
      var r := f.ReadNode(n, ns);
      var b, dirty := PatchINodes(env, links, r.value);
      if dirty {
        ghost var c, d := f.Cat(), f.data;
        ProgressLength(t, r.value, b);
        SweptWrite(t, ns, nodes, k, a, c, b);
        f.WriteNode(n, ns, b);
        SameOutsideTrans(f.layout, old(f.data), d, f.data);
        writes := writes + 1;
      } else {
        SweptIdle(t, ns, nodes, k, a, f.Cat());
      }
    }
  }

  // ----- both passes together -----

  /** The ownership of a record in the end; `late` says its leaf was visited by pass 2b too. */
  ghost function FinalPerm(env: Env, links: Owners, late: bool, r: Rec, p: Perm): Perm
    requires Acyclic(env.folders)
  {
    if late then INodePerm(env, links, r, LeafPerm(env, r, p)) else LeafPerm(env, r, p)
  }

  ghost function FinalTarget(env: Env, links: Owners, late: bool): Target
    requires Acyclic(env.folders)
  {
    (r, p) => FinalPerm(env, links, late, r, p)
  }

  /** One leaf through both passes. */
  lemma BothPasses(env: Env, links: Owners, b: Bytes, c: Bytes, d: Bytes)
    requires Acyclic(env.folders) && WellFormed(b)
    requires Progress(LeafTarget(env), b, c, RecordCount(b))
    requires Progress(INodeTarget(env, links), c, d, RecordCount(c))
    ensures Progress(FinalTarget(env, links, true), b, d, RecordCount(b))
  {
    hide WellFormed, SameShape, RecAt, PermAt, RecordCount, HasPerm, LeafPerm, INodePerm, Acyclic;
    KeptHeader(b, c);
    SameShapeTrans(b, c, d);
    forall i | 0 <= i < RecordCount(b) && HasPerm(b, i)
      ensures PermAt(d, i) == TargetAt(FinalTarget(env, links, true), b, i)
    {
      KeptRecord(b, c, i);
    }
  }

  lemma OnePass(env: Env, links: Owners, b: Bytes, c: Bytes)
    requires Acyclic(env.folders) && Progress(LeafTarget(env), b, c, RecordCount(b))
    ensures Progress(FinalTarget(env, links, false), b, c, RecordCount(b))
  {
    hide SameShape, RecAt, PermAt, RecordCount, HasPerm, LeafPerm, INodePerm, Acyclic;
  }

  // ----- the state the passes work from -----

  function EnvOf(cat: Bytes, ns: nat, chain: seq<nat>, owners: Owners, nfd: Name -> Name): Env
    requires NodesOk(cat, ns, chain)
  {
    Env(FoldersOver(cat, ns, chain, |chain|), PrivateOver(cat, ns, chain, |chain|), owners, nfd)
  }

  /** Every leaf of the chain carries its final ownership, and nothing else has changed. */
  ghost predicate AllDone(env: Env, links: Owners, late: set<nat>, ns: nat, chain: seq<nat>, a: Bytes, b: Bytes)
    requires Acyclic(env.folders) && NodesOk(a, ns, chain)
  {
    && |a| == |b| && ChangesIn(a, b, ns, chain)
    && forall j :: 0 <= j < |chain| ==> NodeDone(FinalTarget(env, links, chain[j] in late), ns, chain[j], a, b)
  }

  lemma DoneShape(t: Target, b: Bytes, c: Bytes)
    requires WellFormed(b) && Progress(t, b, c, RecordCount(b))
    ensures SameShape(b, c) && WellFormed(c) && RecordCount(c) == RecordCount(b)
    ensures NextLeaf(c) == NextLeaf(b) && IsLeaf(c) == IsLeaf(b)
  {
    hide WellFormed, SameShape, RecordCount, PermAt;
    KeptWellFormed(b, c);
    KeptHeader(b, c);
  }

  lemma {:induction false} FoldersKept(b: Bytes, c: Bytes, n: nat, acc: Folders)
    requires WellFormed(b) && SameShape(b, c) && n <= RecordCount(b)
    ensures FoldersIn(c, n, acc) == FoldersIn(b, n, acc)
  {
    hide WellFormed, SameShape, RecordCount, RecAt;
    if n > 0 {
      FoldersKept(b, c, n - 1, acc);
      KeptRecord(b, c, n - 1);
    }
  }

  lemma {:induction false} PrivateKept(b: Bytes, c: Bytes, n: nat, acc: set<nat>)
    requires WellFormed(b) && SameShape(b, c) && n <= RecordCount(b)
    ensures PrivateIn(c, n, acc) == PrivateIn(b, n, acc)
  {
    hide WellFormed, SameShape, RecordCount, RecAt, IsPrivateFolder;
    if n > 0 {
      PrivateKept(b, c, n - 1, acc);
      KeptRecord(b, c, n - 1);
    }
  }

  /** Whether a record is skipped, private or a link does not depend on its ownership. */
  lemma PlanKind(env: Env, r: Rec, p: Perm, q: Perm)
    requires Acyclic(env.folders)
    ensures Plan(env, r, p).Private? == Plan(env, r, q).Private?
    ensures Plan(env, r, p).Link? == Plan(env, r, q).Link?
    ensures Plan(env, r, p).Link? && p == q ==> Plan(env, r, p) == Plan(env, r, q)
  {
  }

  /** A link entry keeps its owner and group fields, which hold the link chain, and its mode. */
  lemma LinkKept(env: Env, links: Owners, late: bool, r: Rec, p: Perm)
    requires Acyclic(env.folders) && Plan(env, r, p).Link?
    ensures FinalPerm(env, links, late, r, p) == p
  {
  }

  lemma {:induction false} HasPrivateKept(env: Env, b: Bytes, c: Bytes, n: nat)
    requires Acyclic(env.folders) && WellFormed(b) && SameShape(b, c) && n <= RecordCount(b)
    ensures HasPrivate(env, c, n) == HasPrivate(env, b, n)
  {
    hide WellFormed, SameShape, RecordCount, RecAt, Plan, PermAt, Acyclic;
    if n > 0 {
      HasPrivateKept(env, b, c, n - 1);
      KeptRecord(b, c, n - 1);
      PlanKind(env, RecAt(b, n - 1), PermAt(b, n - 1), PermAt(c, n - 1));
    }
  }

  lemma {:induction false} LinksKept(env: Env, links: Owners, late: bool, b: Bytes, c: Bytes, n: nat, acc: Owners)
    requires Acyclic(env.folders) && WellFormed(b) && n <= RecordCount(b)
    requires Progress(FinalTarget(env, links, late), b, c, RecordCount(b))
    ensures LinksIn(env, c, n, acc) == LinksIn(env, b, n, acc)
  {
    hide WellFormed, SameShape, RecordCount, RecAt, Plan, PermAt, HasPerm, FinalPerm, Acyclic;
    if n > 0 {
      var i := n - 1;
      LinksKept(env, links, late, b, c, i, acc);
      KeptRecord(b, c, i);
      var r, p := RecAt(b, i), PermAt(b, i);
      PlanKind(env, r, p, PermAt(c, i));
      if Plan(env, r, p).Link? {
        LinkHasPerm(env, b, i);
        LinkKept(env, links, late, r, p);
      }
    }
  }

  lemma LinkHasPerm(env: Env, b: Bytes, i: nat)
    requires Acyclic(env.folders) && Plan(env, RecAt(b, i), PermAt(b, i)).Link?
    ensures HasPerm(b, i)
  {
    hide PermAt, NameAt;
  }

  // ----- the patched catalog, read again -----

  lemma DoneAt(env: Env, links: Owners, late: set<nat>, ns: nat, chain: seq<nat>, a: Bytes, b: Bytes, j: nat)
    requires Acyclic(env.folders) && NodesOk(a, ns, chain) && AllDone(env, links, late, ns, chain, a, b) && j < |chain|
    ensures InRange(a, ns, chain[j]) && InRange(b, ns, chain[j])
    ensures var x, y := Node(a, ns, chain[j]), Node(b, ns, chain[j]);
            && WellFormed(x) && WellFormed(y) && SameShape(x, y) && RecordCount(y) == RecordCount(x)
            && NextLeaf(y) == NextLeaf(x) && IsLeaf(y) == IsLeaf(x)
            && Progress(FinalTarget(env, links, chain[j] in late), x, y, RecordCount(x))
  {
    hide WellFormed, SameShape, Progress, RecordCount, Node, ChangesIn, Acyclic;
    assert NodeDone(FinalTarget(env, links, chain[j] in late), ns, chain[j], a, b);
    DoneShape(FinalTarget(env, links, chain[j] in late), Node(a, ns, chain[j]), Node(b, ns, chain[j]));
  }

  lemma NodesStay(env: Env, links: Owners, late: set<nat>, ns: nat, chain: seq<nat>, a: Bytes, b: Bytes)
    requires Acyclic(env.folders) && NodesOk(a, ns, chain) && AllDone(env, links, late, ns, chain, a, b)
    ensures NodesOk(b, ns, chain)
  {
    hide WellFormed, SameShape, Progress, RecordCount, Node, AllDone, Acyclic;
    forall j | 0 <= j < |chain| ensures InRange(b, ns, chain[j]) && WellFormed(Node(b, ns, chain[j])) {
      DoneAt(env, links, late, ns, chain, a, b, j);
    }
  }

  /** Folders, private directories, links and private leaves come out the same from the patched catalog. */
  lemma {:induction false} StateStays(env: Env, links: Owners, late: set<nat>, ns: nat, chain: seq<nat>, a: Bytes, b: Bytes, k: nat)
    requires Acyclic(env.folders) && NodesOk(a, ns, chain) && NodesOk(b, ns, chain)
    requires AllDone(env, links, late, ns, chain, a, b) && k <= |chain|
    ensures FoldersOver(b, ns, chain, k) == FoldersOver(a, ns, chain, k)
    ensures PrivateOver(b, ns, chain, k) == PrivateOver(a, ns, chain, k)
    ensures LinksOver(env, b, ns, chain, k) == LinksOver(env, a, ns, chain, k)
    ensures PrivateLeaves(env, b, ns, chain, k) == PrivateLeaves(env, a, ns, chain, k)
  {
    hide WellFormed, SameShape, Progress, RecordCount, Node, AllDone, Acyclic;
    hide FoldersIn, PrivateIn, LinksIn, HasPrivate;
    if k > 0 {
      StateStays(env, links, late, ns, chain, a, b, k - 1);
      DoneAt(env, links, late, ns, chain, a, b, k - 1);
      var x, y := Node(a, ns, chain[k - 1]), Node(b, ns, chain[k - 1]);
      FoldersKept(x, y, RecordCount(x), FoldersOver(a, ns, chain, k - 1));
      PrivateKept(x, y, RecordCount(x), PrivateOver(a, ns, chain, k - 1));
      HasPrivateKept(env, x, y, RecordCount(x));
      LinksKept(env, links, chain[k - 1] in late, x, y, RecordCount(x), LinksOver(env, a, ns, chain, k - 1));
    }
  }

  /** The leaf chain is the same chain. */
  lemma {:induction false} ChainStays(env: Env, links: Owners, late: set<nat>, ns: nat, chain: seq<nat>, a: Bytes, b: Bytes, n: nat, i: nat)
    requires Acyclic(env.folders) && NodesOk(a, ns, chain) && AllDone(env, links, late, ns, chain, a, b)
    requires i <= |chain| && Chain(a, ns, n, chain[i..])
    ensures Chain(b, ns, n, chain[i..])
    decreases |chain| - i
  {
    hide WellFormed, SameShape, Progress, RecordCount, Node, AllDone, Acyclic, IsLeaf, NextLeaf;
    if n != 0 {
      assert chain[i..][0] == chain[i] == n;
      DoneAt(env, links, late, ns, chain, a, b, i);
      if GoodLeaf(a, ns, n) {
        assert chain[i..][1..] == chain[i + 1..];
        ChainStays(env, links, late, ns, chain, a, b, NextLeaf(Node(a, ns, n)), i + 1);
      }
    }
  }

  // ----- idempotence -----

  lemma {:induction false} NotDirty(t: Target, b: Bytes, n: nat)
    requires forall i :: 0 <= i < n && HasPerm(b, i) ==> TargetAt(t, b, i) == PermAt(b, i)
    ensures !Dirty(t, b, n)
  {
    hide HasPerm, TargetAt, PermAt;
    if n > 0 {
      NotDirty(t, b, n - 1);
    }
  }

  lemma FinalSettled(env: Env, links: Owners, late: bool, r: Rec, p: Perm)
    requires Acyclic(env.folders)
    ensures var q := FinalPerm(env, links, late, r, p);
            LeafPerm(env, r, q) == q && (late ==> INodePerm(env, links, r, q) == q)
  {
    hide Acyclic, PathOfRecord, Decide, Apply;
    LeafPermTwice(env, r, p);
    INodePermTwice(env, links, r, LeafPerm(env, r, p));
  }

  /** A patched leaf has nothing left for either pass. */
  lemma SettledLeaf(env: Env, links: Owners, late: bool, x: Bytes, y: Bytes)
    requires Acyclic(env.folders) && WellFormed(x)
    requires Progress(FinalTarget(env, links, late), x, y, RecordCount(x))
    ensures !Dirty(LeafTarget(env), y, RecordCount(y))
    ensures late ==> !Dirty(INodeTarget(env, links), y, RecordCount(y))
  {
    hide WellFormed, SameShape, RecordCount, RecAt, PermAt, HasPerm, FinalPerm, LeafPerm, INodePerm, Acyclic, Dirty;
    DoneShape(FinalTarget(env, links, late), x, y);
    forall i | 0 <= i < RecordCount(y) && HasPerm(y, i)
      ensures TargetAt(LeafTarget(env), y, i) == PermAt(y, i)
      ensures late ==> TargetAt(INodeTarget(env, links), y, i) == PermAt(y, i)
    {
      KeptRecord(x, y, i);
      FinalSettled(env, links, late, RecAt(x, i), PermAt(x, i));
    }
    NotDirty(LeafTarget(env), y, RecordCount(y));
    if late {
      NotDirty(INodeTarget(env, links), y, RecordCount(y));
    }
  }

  /** Neither pass would change anything. */
  ghost predicate Settled(env: Env, links: Owners, late: set<nat>, cat: Bytes, ns: nat, chain: seq<nat>)
    requires Acyclic(env.folders) && NodesOk(cat, ns, chain)
  {
    && Clean(LeafTarget(env), cat, ns, chain, |chain|)
    && forall j :: 0 <= j < |chain| && chain[j] in late ==>
         !Dirty(INodeTarget(env, links), Node(cat, ns, chain[j]), RecordCount(Node(cat, ns, chain[j])))
  }

  lemma DoneIsSettled(env: Env, links: Owners, late: set<nat>, ns: nat, chain: seq<nat>, a: Bytes, b: Bytes)
    requires Acyclic(env.folders) && NodesOk(a, ns, chain) && NodesOk(b, ns, chain)
    requires AllDone(env, links, late, ns, chain, a, b)
    ensures Settled(env, links, late, b, ns, chain)
  {
    hide WellFormed, SameShape, Progress, RecordCount, Node, AllDone, Dirty, NodesOk, Acyclic;
    forall j | 0 <= j < |chain|
      ensures InRange(b, ns, chain[j])
      ensures !Dirty(LeafTarget(env), Node(b, ns, chain[j]), RecordCount(Node(b, ns, chain[j])))
      ensures chain[j] in late ==>
        !Dirty(INodeTarget(env, links), Node(b, ns, chain[j]), RecordCount(Node(b, ns, chain[j])))
    {
      DoneAt(env, links, late, ns, chain, a, b, j);
      SettledLeaf(env, links, chain[j] in late, Node(a, ns, chain[j]), Node(b, ns, chain[j]));
    }
  }

  // ----- joining the two sweeps -----

  lemma Untouched(t: Target, ns: nat, nodes: seq<nat>, a: Bytes, b: Bytes, n: nat)
    requires NodesOk(a, ns, nodes) && Swept(t, ns, nodes, |nodes|, a, b) && InRange(a, ns, n) && n !in nodes
    ensures Node(b, ns, n) == Node(a, ns, n)
  {
    hide WellFormed, Progress, NodesOk, NodeDone;
    forall l | n * ns <= l < n * ns + ns ensures a[l] == b[l] {
      if a[l] != b[l] {
        var j :| 0 <= j < |nodes| && nodes[j] * ns <= l < nodes[j] * ns + ns;
        NodesApart(ns, n, nodes[j]);
      }
    }
  }

  lemma SweepsJoin(env: Env, links: Owners, ns: nat, chain: seq<nat>, late: seq<nat>, s: set<nat>, a: Bytes, b: Bytes, c: Bytes)
    requires Acyclic(env.folders) && NodesOk(a, ns, chain) && Swept(LeafTarget(env), ns, chain, |chain|, a, b)
    requires NodesOk(b, ns, late) && Swept(INodeTarget(env, links), ns, late, |late|, b, c)
    requires (forall n :: n in late ==> n in chain) && forall n :: n in s <==> n in late
    ensures AllDone(env, links, s, ns, chain, a, c)
  {
    hide WellFormed, Progress, RecordCount, Node, Acyclic, NodesOk;
    ChangesJoin(a, b, c, ns, chain, late);
    forall j | 0 <= j < |chain| ensures InRange(a, ns, chain[j]) && NodeDone(FinalTarget(env, links, chain[j] in s), ns, chain[j], a, c) {
      var n := chain[j];
      NodeOkAt(a, ns, chain, j);
      assert NodeDone(LeafTarget(env), ns, n, a, b);
      if n in late {
        var i :| 0 <= i < |late| && late[i] == n;
        assert NodeDone(INodeTarget(env, links), ns, late[i], b, c);
        BothPasses(env, links, Node(a, ns, n), Node(b, ns, n), Node(c, ns, n));
      } else {
        Untouched(INodeTarget(env, links), ns, late, b, c, n);
        OnePass(env, links, Node(a, ns, n), Node(b, ns, n));
      }
    }
  }

  lemma NodeOkAt(a: Bytes, ns: nat, nodes: seq<nat>, j: nat)
    requires NodesOk(a, ns, nodes) && j < |nodes|
    ensures InRange(a, ns, nodes[j]) && WellFormed(Node(a, ns, nodes[j]))
  {
    hide WellFormed;
  }

  lemma ChangesJoin(a: Bytes, b: Bytes, c: Bytes, ns: nat, chain: seq<nat>, late: seq<nat>)
    requires ChangesIn(a, b, ns, chain) && ChangesIn(b, c, ns, late) && forall n :: n in late ==> n in chain
    ensures ChangesIn(a, c, ns, chain)
  {
    forall l | 0 <= l < |a| && a[l] != c[l]
      ensures exists j :: 0 <= j < |chain| && chain[j] * ns <= l < chain[j] * ns + ns
    {
      if a[l] == b[l] {
        var i :| 0 <= i < |late| && late[i] * ns <= l < late[i] * ns + ns;
        assert late[i] in chain;
        var j :| 0 <= j < |chain| && chain[j] == late[i];
        assert chain[j] * ns <= l < chain[j] * ns + ns;
      }
    }
  }

  lemma {:induction false} PrivateLeavesListed(env: Env, cat: Bytes, ns: nat, chain: seq<nat>, k: nat, n: nat)
    requires Acyclic(env.folders) && NodesOk(cat, ns, chain) && k <= |chain|
    requires n in PrivateLeaves(env, cat, ns, chain, k)
    ensures n in chain
  {
    hide HasPrivate, NodesOk, RecordCount, Acyclic;
    if n != chain[k - 1] {
      PrivateLeavesListed(env, cat, ns, chain, k - 1, n);
    }
  }

  lemma {:induction false} LinksFit(env: Env, b: Bytes, n: nat, acc: Owners)
    requires EnvOk(env) && WellFormed(b) && n <= RecordCount(b) && OwnersFit(acc)
    ensures OwnersFit(LinksIn(env, b, n, acc))
  {
    hide WellFormed, RecordCount, RecAt, PermAt, Plan, OwnerFits, HasPerm;
    if n > 0 {
      LinksFit(env, b, n - 1, acc);
      if Plan(env, RecAt(b, n - 1), PermAt(b, n - 1)).Link? {
        LinkHasPerm(env, b, n - 1);
        PermBound(b, n - 1);
        PlanFits(env, RecAt(b, n - 1), PermAt(b, n - 1));
      }
    }
  }

  lemma {:induction false} LinksOverFit(env: Env, cat: Bytes, ns: nat, chain: seq<nat>, k: nat)
    requires EnvOk(env) && NodesOk(cat, ns, chain) && k <= |chain|
    ensures OwnersFit(LinksOver(env, cat, ns, chain, k))
  {
    hide WellFormed, RecordCount, OwnerFits, LinksIn, Acyclic, NodesOk, Node;
    if k > 0 {
      LinksOverFit(env, cat, ns, chain, k - 1);
      NodeOkAt(cat, ns, chain, k - 1);
      LinksFit(env, Node(cat, ns, chain[k - 1]), RecordCount(Node(cat, ns, chain[k - 1])), LinksOver(env, cat, ns, chain, k - 1));
    }
  }

  // ----- the patch -----

  /** Well-formed leaves and a folder tree without cycles. */
  ghost predicate Patchable(cat: Bytes, ns: nat, chain: seq<nat>, owners: Owners, nfd: Name -> Name) {
    NodesOk(cat, ns, chain) && EnvOk(EnvOf(cat, ns, chain, owners, nfd))
  }

  ghost function LinksOf(cat: Bytes, ns: nat, chain: seq<nat>, owners: Owners, nfd: Name -> Name): Owners
    requires Patchable(cat, ns, chain, owners, nfd)
  {
    LinksOver(EnvOf(cat, ns, chain, owners, nfd), cat, ns, chain, |chain|)
  }

  ghost function LateOf(cat: Bytes, ns: nat, chain: seq<nat>, owners: Owners, nfd: Name -> Name): set<nat>
    requires Patchable(cat, ns, chain, owners, nfd)
  {
    PrivateLeaves(EnvOf(cat, ns, chain, owners, nfd), cat, ns, chain, |chain|)
  }

  /** A run over `cat` would find every node clean. */
  ghost predicate SettledCatalog(cat: Bytes, ns: nat, chain: seq<nat>, owners: Owners, nfd: Name -> Name)
    requires Patchable(cat, ns, chain, owners, nfd)
  {
    Settled(EnvOf(cat, ns, chain, owners, nfd), LinksOf(cat, ns, chain, owners, nfd),
            LateOf(cat, ns, chain, owners, nfd), cat, ns, chain)
  }

  /** `b` is `a` with every leaf record's ownership as decided from `a`, and nothing else changed. */
  ghost predicate PatchedFrom(a: Bytes, b: Bytes, ns: nat, chain: seq<nat>, owners: Owners, nfd: Name -> Name)
    requires Patchable(a, ns, chain, owners, nfd)
  {
    AllDone(EnvOf(a, ns, chain, owners, nfd), LinksOf(a, ns, chain, owners, nfd),
            LateOf(a, ns, chain, owners, nfd), ns, chain, a, b)
  }

  /** The patched catalog has the same chain and the same state, and a second run finds it settled. */
  lemma PatchSettles(a: Bytes, b: Bytes, ns: nat, first: nat, chain: seq<nat>, owners: Owners, nfd: Name -> Name)
    requires Patchable(a, ns, chain, owners, nfd) && PatchedFrom(a, b, ns, chain, owners, nfd)
    requires Chain(a, ns, first, chain) && AllGood(a, ns, chain)
    ensures Chain(b, ns, first, chain) && AllGood(b, ns, chain)
    ensures Patchable(b, ns, chain, owners, nfd) && SettledCatalog(b, ns, chain, owners, nfd)
  {
    hide NodesOk, Acyclic, OwnerFits, AllDone, Settled, Chain, IsLeaf, FoldersOver, PrivateOver, Node;
    var env := EnvOf(a, ns, chain, owners, nfd);
    var links, late := LinksOf(a, ns, chain, owners, nfd), LateOf(a, ns, chain, owners, nfd);
    NodesStay(env, links, late, ns, chain, a, b);
    StateStays(env, links, late, ns, chain, a, b, |chain|);
    assert chain[0..] == chain;
    ChainStays(env, links, late, ns, chain, a, b, first, 0);
    forall j | 0 <= j < |chain| ensures GoodLeaf(b, ns, chain[j]) {
      assert GoodLeaf(a, ns, chain[j]);
      DoneAt(env, links, late, ns, chain, a, b, j);
    }
    DoneIsSettled(env, links, late, ns, chain, a, b);
  }

  lemma LateNodesOk(t: Target, ns: nat, chain: seq<nat>, a: Bytes, b: Bytes, late: seq<nat>)
    requires NodesOk(a, ns, chain) && Swept(t, ns, chain, |chain|, a, b) && forall n :: n in late ==> n in chain
    ensures NodesOk(b, ns, late)
  {
    hide WellFormed, Progress, RecordCount, Node;
    forall i | 0 <= i < |late| ensures InRange(b, ns, late[i]) && WellFormed(Node(b, ns, late[i])) {
      assert late[i] in chain;
      var j :| 0 <= j < |chain| && chain[j] == late[i];
      NodeOkAt(a, ns, chain, j);
      assert NodeDone(t, ns, chain[j], a, b);
      DoneShape(t, Node(a, ns, chain[j]), Node(b, ns, chain[j]));
    }
  }

  /** With nothing written by pass 2a, pass 2b writes nothing exactly when the catalog was settled. */
  lemma SettledIff(env: Env, links: Owners, ns: nat, chain: seq<nat>, late: seq<nat>, s: set<nat>, a: Bytes)
    requires Acyclic(env.folders) && NodesOk(a, ns, chain) && NodesOk(a, ns, late)
    requires (forall n :: n in late ==> n in chain) && forall n :: n in s <==> n in late
    ensures Settled(env, links, s, a, ns, chain) <==>
            Clean(LeafTarget(env), a, ns, chain, |chain|) && Clean(INodeTarget(env, links), a, ns, late, |late|)
  {
    hide WellFormed, Dirty, RecordCount, NodesOk, Acyclic, Node;
    var t := INodeTarget(env, links);
    if Clean(t, a, ns, late, |late|) {
      forall j | 0 <= j < |chain| && chain[j] in late
        ensures InRange(a, ns, chain[j]) && !Dirty(t, Node(a, ns, chain[j]), RecordCount(Node(a, ns, chain[j])))
      {
        var i :| 0 <= i < |late| && late[i] == chain[j];
        NodeOkAt(a, ns, late, i);
      }
    }
    if Settled(env, links, s, a, ns, chain) {
      forall i | 0 <= i < |late|
        ensures InRange(a, ns, late[i]) && !Dirty(t, Node(a, ns, late[i]), RecordCount(Node(a, ns, late[i])))
      {
        NodeOkAt(a, ns, late, i);
        assert late[i] in chain;
        var j :| 0 <= j < |chain| && chain[j] == late[i];
      }
    }
  }

  /** Passes 2a and 2b over a scanned chain. */
  method PatchScanned(f: CatalogFile, ns: nat, env: Env, keys: seq<nat>, chain: seq<nat>) returns (writes: nat)
    requires f.Valid() && ns > 0 && NodesOk(f.Cat(), ns, chain) && Distinct(chain) && EnvOk(env)
    requires forall c :: c in env.folders ==> c in keys
    modifies f`data
    ensures f.Valid() && SameOutside(f.layout, old(f.data), f.data)
    ensures AllDone(env, LinksOver(env, old(f.Cat()), ns, chain, |chain|),
                    PrivateLeaves(env, old(f.Cat()), ns, chain, |chain|), ns, chain, old(f.Cat()), f.Cat())
    ensures writes == 0 <==> Settled(env, LinksOver(env, old(f.Cat()), ns, chain, |chain|),
                                     PrivateLeaves(env, old(f.Cat()), ns, chain, |chain|), old(f.Cat()), ns, chain)
    ensures writes == 0 ==> f.data == old(f.data)
  {
    hide WellFormed, Swept, SameOutside, Ranked, CacheSound, Clean, NodesOk, Distinct, Settled, AllDone, OwnersFit;
    hide LinksOver, PrivateLeaves, OnDisk, Logical, OwnerFits, PathOf;
    ghost var a := f.Cat();
    ghost var rank :| Ranked(env.folders, rank);
    var cache := ResolveAll(env.folders, keys, rank);
    var w1, links, private := SweepLeaves(f, ns, env, cache, chain, rank);
    ghost var b, d := f.Cat(), f.data;
    LinksOverFit(env, a, ns, chain, |chain|);
    forall n | n in private ensures n in chain {
      PrivateLeavesListed(env, a, ns, chain, |chain|, n);
    }
    var late := Sorted(private);
    IncreasingDistinct(late);
    LateNodesOk(LeafTarget(env), ns, chain, a, b, late);
    var w2 := SweepINodes(f, ns, env, links, late);
    SweepsJoin(env, links, ns, chain, late, private, a, b, f.Cat());
    SameOutsideTrans(f.layout, old(f.data), d, f.data);
    writes := w1 + w2;
    if w1 == 0 {
      SettledIff(env, links, ns, chain, late, private, a);
    } else {
      SettledNeedsClean(env, links, private, ns, chain, a);
    }
  }

  lemma SettledNeedsClean(env: Env, links: Owners, late: set<nat>, ns: nat, chain: seq<nat>, a: Bytes)
    requires Acyclic(env.folders) && NodesOk(a, ns, chain)
    ensures Settled(env, links, late, a, ns, chain) ==> Clean(LeafTarget(env), a, ns, chain, |chain|)
  {
  }

  /**
   * The whole patch: it stops without a write if the chain holds a node that is not a leaf; otherwise every
   * leaf record gets the ownership decided from the catalog as it was, no other byte of the disk changes,
   * and the catalog is left so that another run writes nothing.
   */
  method PatchOwners(f: CatalogFile, ns: nat, first: nat, entries: seq<(Name, Owner)>, nfd: Name -> Name, ghost chain: seq<nat>)
    returns (ok: bool, writes: nat)
    requires f.Valid() && ns > 0 && Chain(f.Cat(), ns, first, chain)
    requires AllGood(f.Cat(), ns, chain) ==> Patchable(f.Cat(), ns, chain, OwnerMap(entries, nfd), nfd)
    modifies f`data
    ensures f.Valid() && (ok <==> AllGood(old(f.Cat()), ns, chain))
    ensures !ok ==> writes == 0 && f.data == old(f.data)
    ensures ok ==>
      && SameOutside(f.layout, old(f.data), f.data)
      && PatchedFrom(old(f.Cat()), f.Cat(), ns, chain, OwnerMap(entries, nfd), nfd)
      && (writes == 0 <==> SettledCatalog(old(f.Cat()), ns, chain, OwnerMap(entries, nfd), nfd))
      && (writes == 0 ==> f.data == old(f.data))
    ensures ok ==>
      && Chain(f.Cat(), ns, first, chain) && AllGood(f.Cat(), ns, chain)
      && Patchable(f.Cat(), ns, chain, OwnerMap(entries, nfd), nfd)
      && SettledCatalog(f.Cat(), ns, chain, OwnerMap(entries, nfd), nfd)
  {
    hide AllGood, Chain, SameOutside, AllDone, Settled, NodesOk, FoldersOver, PrivateOver, OnDisk, Logical;
    hide LinksOver, PrivateLeaves, EnvOk;
    ghost var a := f.Cat();
    var owners := OwnerMap(entries, nfd);
    var order, folders, private, keys;
    ok, order, folders, private, keys := ScanLeaves(f, ns, first, chain);
    if !ok {
      return false, 0;
    }
    ChainDistinct(a, ns, first, chain);
    var env := Env(folders, private, owners, nfd);
    EnvAcyclic(env);
    writes := PatchScanned(f, ns, env, keys, order);
    PatchSettles(a, f.Cat(), ns, first, chain, owners, nfd);
  }

  lemma EnvAcyclic(env: Env)
    requires EnvOk(env)
    ensures Acyclic(env.folders)
  {
  }

  /** Running the patch again with the same owners marks no node dirty and leaves every byte alone. */
  method PatchTwice(f: CatalogFile, ns: nat, first: nat, entries: seq<(Name, Owner)>, nfd: Name -> Name, ghost chain: seq<nat>)
    returns (ok: bool, again: nat)
    requires f.Valid() && ns > 0 && Chain(f.Cat(), ns, first, chain)
    requires AllGood(f.Cat(), ns, chain) ==> Patchable(f.Cat(), ns, chain, OwnerMap(entries, nfd), nfd)
    modifies f`data
    ensures f.Valid() && again == 0 && (ok <==> AllGood(old(f.Cat()), ns, chain))
    ensures ok ==> PatchedFrom(old(f.Cat()), f.Cat(), ns, chain, OwnerMap(entries, nfd), nfd)
  {
    hide AllGood, Chain, SameOutside, PatchedFrom, SettledCatalog, Patchable, OnDisk, Logical;
    var first_ok, _ := PatchOwners(f, ns, first, entries, nfd, chain);
    ok, again := PatchOwners(f, ns, first, entries, nfd, chain);
  }

  // ----- what the patch means for one record -----

  /** Neither private nor unreachable: a record whose path can be looked up. */
  ghost predicate Ordinary(env: Env, r: Rec)
    requires Acyclic(env.folders)
  {
    && (r.kind == 1 || r.kind == 2) && r.cnid !in env.private && r.parent !in env.private
    && PathOfRecord(env, r).Some?
  }

  /**
   * Every record keeps its key, type, flags, CNID and link number. An ordinary one that is no hard-link entry
   * gets the owner, group and permission bits of its path, else of its normalised path, under its old
   * file-type bits; if neither is in the owner map it gets root's ownership and keeps its mode. Hard-link
   * entries, and records that are neither ordinary nor backing files, keep all three fields.
   */
  lemma RecordOutcome(a: Bytes, b: Bytes, ns: nat, chain: seq<nat>, owners: Owners, nfd: Name -> Name, j: nat, i: nat)
    requires Patchable(a, ns, chain, owners, nfd) && PatchedFrom(a, b, ns, chain, owners, nfd) && j < |chain|
    requires InRange(a, ns, chain[j]) && i < RecordCount(Node(a, ns, chain[j])) && HasPerm(Node(a, ns, chain[j]), i)
    ensures InRange(b, ns, chain[j])
    ensures var env := EnvOf(a, ns, chain, owners, nfd);
            var x, y := Node(a, ns, chain[j]), Node(b, ns, chain[j]);
            var r, p, q := RecAt(x, i), PermAt(x, i), PermAt(y, i);
            && RecAt(y, i) == r
            && (Ordinary(env, r) && IsLink(r) ==> q == p)
            && (Ordinary(env, r) && !IsLink(r) ==> Owned(q, p, owners, nfd, PathOfRecord(env, r).value))
            && (!Ordinary(env, r) && (r.parent !in env.private || r.kind == 1) ==> q == p)
  {
    hide NodesOk, AllDone, WellFormed, SameShape, RecordCount, RecAt, PermAt, HasPerm, Node, Acyclic, PathOfRecord;
    hide FoldersOver, PrivateOver, LinksOf, LateOf, OwnerFits, Owned;
    var env := EnvOf(a, ns, chain, owners, nfd);
    var links, late := LinksOf(a, ns, chain, owners, nfd), LateOf(a, ns, chain, owners, nfd);
    var x := Node(a, ns, chain[j]);
    DoneAt(env, links, late, ns, chain, a, b, j);
    KeptRecord(x, Node(b, ns, chain[j]), i);
    FinalOutcome(env, links, chain[j] in late, RecAt(x, i), PermAt(x, i));
  }

  /** `q` is the ownership of a record at `path` whose ownership was `p`. */
  predicate Owned(q: Perm, p: Perm, owners: Owners, nfd: Name -> Name, path: Name) {
    && q.mode / 4096 == p.mode / 4096
    && (path in owners ==> Bears(q, owners[path]))
    && (path !in owners && nfd(path) in owners ==> Bears(q, owners[nfd(path)]))
    && (path !in owners && nfd(path) !in owners ==> q == Perm(0, 0, p.mode))
  }

  predicate Bears(q: Perm, o: Owner) {
    q.uid == o.uid && q.gid == o.gid && q.mode % 4096 == o.mode % 4096
  }

  lemma FinalOutcome(env: Env, links: Owners, late: bool, r: Rec, p: Perm)
    requires Acyclic(env.folders)
    ensures var q := FinalPerm(env, links, late, r, p);
            && (Ordinary(env, r) && IsLink(r) ==> q == p)
            && (Ordinary(env, r) && !IsLink(r) ==> Owned(q, p, env.owners, env.nfd, PathOfRecord(env, r).value))
            && ((r.kind == 1 || r.kind == 2) && !Ordinary(env, r) && (r.parent !in env.private || r.kind == 1) ==> q == p)
  {
    hide Acyclic, PathOfRecord;
  }

  // ----- opening the volume -----

  /** The non-empty ones among the first `n` extent descriptors of the catalog's fork data. */
  function ExtentsUpTo(fork: Bytes, n: nat): seq<Extent> {
    if n == 0 then []
    else
      var e := Extent(U(fork, 8 + n * 8, 4), U(fork, 12 + n * 8, 4));
      ExtentsUpTo(fork, n - 1) + if e.count > 0 then [e] else []
  }

  lemma {:induction false} CoveredSnoc(exts: seq<Extent>, e: Extent)
    ensures Covered(exts + [e]) == Covered(exts) + e.count
  {
    if exts == [] {
      assert exts + [e] == [e];
    } else {
      CoveredSnoc(exts[1..], e);
      assert (exts + [e])[1..] == exts[1..] + [e];
    }
  }

  function VolumeHeader(image: Bytes): Bytes {
    ReadAt(image, 0x400, 512)
  }

  function CatalogFork(image: Bytes): Bytes {
    ReadAt(VolumeHeader(image), 272, 80)
  }

  /** A whole volume header with a known signature whose catalog lies in its eight inline extents. */
  predicate Opens(image: Bytes) {
    && |VolumeHeader(image)| >= 352 && VolumeHeader(image)[..2] in {[72, 88], [72, 43]}
    && U(CatalogFork(image), 12, 4) <= Covered(ExtentsUpTo(CatalogFork(image), 8))
  }

  method OpenCatalog(image: Bytes) returns (r: Option<Map>)
    ensures r.Some? <==> Opens(image)
    ensures r.Some? ==> r.value == Map(U(VolumeHeader(image), 40, 4), ExtentsUpTo(CatalogFork(image), 8))
  {
    hide U, Covered, ReadAt;
    var vh := VolumeHeader(image);
    if |vh| < 352 || (vh[..2] != [72, 88] && vh[..2] != [72, 43]) {
      return None;
    }
    var fork := CatalogFork(image);
    var exts, covered := ReadExtents(fork);
    if covered < U(fork, 12, 4) {
      return None;
    }
    return Some(Map(U(vh, 40, 4), exts));
  }

  method ReadExtents(fork: Bytes) returns (exts: seq<Extent>, covered: nat)
    ensures exts == ExtentsUpTo(fork, 8) && covered == Covered(exts)
  {
    hide U, Covered;
    exts, covered := [], 0;
    CoveredNone();
    for i := 0 to 8
      invariant exts == ExtentsUpTo(fork, i) && covered == Covered(exts)
    {
      var sb, bc := U(fork, 16 + i * 8, 4), U(fork, 20 + i * 8, 4);
      if bc > 0 {
        CoveredSnoc(exts, Extent(sb, bc));
        exts := exts + [Extent(sb, bc)];
        covered := covered + bc;
      }
    }
  }

  lemma CoveredNone()
    ensures Covered([]) == 0
  {
  }
}
