/** The ownership patch on the bytes of the leaves: where records lie, which folders they list, what a run writes. */
module HfsBytes {
  import opened Bytes
  import opened HfsNodes
  import opened HfsPaths
  import opened HfsJoin
  import opened HfsPlan
  import opened HfsPatch
  import opened HfsCatalog
  import opened HfsOwners
  import opened HfsLinks
  import opened Wrappers

  // ----- one record -----

  /** Where record `i` of a leaf starts, from the table that grows down from the leaf's end. */
  function At(x: Bytes, i: nat): nat
    requires 2 * (i + 1) <= |x|
  {
    U(x, |x| - 2 * (i + 1), 2)
  }

  /** Where the record's data starts: behind the key, on an even offset. */
  function Data(x: Bytes, i: nat): nat
    requires 2 * (i + 1) <= |x|
  {
    var end := At(x, i) + 2 + U(x, At(x, i), 2);
    if end % 2 == 1 then end + 1 else end
  }

  /** `r` is what the key and the data of record `i` say. */
  predicate RecordIs(x: Bytes, i: nat, r: Rec)
    requires 2 * (i + 1) <= |x|
  {
    var o, d := At(x, i), Data(x, i);
    && r.parent == U(x, o + 2, 4)
    && |r.name| == U(x, o + 6, 2) && (forall k :: 0 <= k < |r.name| ==> r.name[k] == U(x, o + 8 + 2 * k, 2))
    && r.kind == U(x, d, 2)
    && (r.kind == 1 || r.kind == 2 ==> r.flags == U(x, d + 2, 2) && r.cnid == U(x, d + 8, 4) && r.special == U(x, d + 44, 4))
  }

  predicate PermIs(x: Bytes, i: nat, p: Perm)
    requires 2 * (i + 1) <= |x|
  {
    var d := Data(x, i);
    p.uid == U(x, d + 32, 4) && p.gid == U(x, d + 36, 4) && p.mode == U(x, d + 42, 2)
  }

  lemma RecordLayout(x: Bytes, i: nat)
    requires WellFormed(x) && i < U(x, 10, 2)
    ensures RecordCount(x) == U(x, 10, 2) && 14 + 2 * (i + 1) <= |x|
    ensures RecordIs(x, i, RecAt(x, i)) && PermIs(x, i, PermAt(x, i))
    ensures HasPerm(x, i) <==> RecAt(x, i).kind == 1 || RecAt(x, i).kind == 2
  {
    hide U;
  }

  /** Byte `p` is part of the owner, group or mode of one of the leaf's folder or file records. */
  predicate OwnershipByte(x: Bytes, p: nat) {
    exists i :: 0 <= i < U(x, 10, 2) && OwnershipOf(x, i, p)
  }

  predicate OwnershipOf(x: Bytes, i: nat, p: nat) {
    && 2 * (i + 1) <= |x| && (U(x, Data(x, i), 2) == 1 || U(x, Data(x, i), 2) == 2)
    && (Data(x, i) + 32 <= p < Data(x, i) + 40 || Data(x, i) + 42 <= p < Data(x, i) + 44)
  }

  lemma OnlyOwnership(x: Bytes, y: Bytes, p: nat)
    requires WellFormed(x) && SameShape(x, y) && p < |x| && !OwnershipByte(x, p)
    ensures |y| == |x| && y[p] == x[p]
  {
    hide U;
    forall i | 0 <= i < RecordCount(x) ensures !InPerm(x, i, p) {
      RecordLayout(x, i);
      assert !OwnershipOf(x, i, p);
    }
  }

  // ----- what pass 1 collects -----

  /** Record `i` of the leaf is the folder record of `c`. */
  predicate FolderAt(x: Bytes, i: nat, c: nat) {
    RecAt(x, i).kind == 1 && RecAt(x, i).cnid == c
  }

  predicate NoFolder(x: Bytes, n: nat, c: nat) {
    forall m :: 0 <= m < n ==> !FolderAt(x, m, c)
  }

  lemma {:induction false} FoldersInFrom(x: Bytes, n: nat, acc: Folders, c: nat) returns (i: nat)
    ensures i <= n && (c in FoldersIn(x, n, acc) <==> i < n || c in acc)
    ensures i < n ==>
      && FolderAt(x, i, c) && (forall m :: i < m < n ==> !FolderAt(x, m, c))
      && c in FoldersIn(x, n, acc) && FoldersIn(x, n, acc)[c] == Folder(RecAt(x, i).parent, RecAt(x, i).name)
    ensures i == n ==> NoFolder(x, n, c) && (c in acc ==> FoldersIn(x, n, acc)[c] == acc[c])
    decreases n
  {
    hide RecAt;
    if n == 0 {
      i := 0;
    } else if FolderAt(x, n - 1, c) {
      i := n - 1;
    } else {
      i := FoldersInFrom(x, n - 1, acc, c);
      if i == n - 1 {
        i := n;
      }
    }
  }

  /** Record `i` of leaf `j` is the last folder record of `c` in chain order. */
  ghost predicate LastFolder(cat: Bytes, ns: nat, nodes: seq<nat>, k: nat, j: nat, i: nat, c: nat)
    requires NodesOk(cat, ns, nodes) && k <= |nodes|
  {
    && j < k && i < RecordCount(Node(cat, ns, nodes[j])) && FolderAt(Node(cat, ns, nodes[j]), i, c)
    && (forall m :: i < m < RecordCount(Node(cat, ns, nodes[j])) ==> !FolderAt(Node(cat, ns, nodes[j]), m, c))
    && (forall l :: j < l < k ==> NoFolder(Node(cat, ns, nodes[l]), RecordCount(Node(cat, ns, nodes[l])), c))
  }

  /** The folder map holds, for every CNID with a folder record, parent and name of the last one; and nothing else. */
  lemma {:induction false} FolderListed(cat: Bytes, ns: nat, nodes: seq<nat>, k: nat, c: nat) returns (j: nat, i: nat)
    requires NodesOk(cat, ns, nodes) && k <= |nodes|
    ensures c in FoldersOver(cat, ns, nodes, k) ==> LastFolder(cat, ns, nodes, k, j, i, c)
    ensures c in FoldersOver(cat, ns, nodes, k) ==>
      && j < |nodes| && InRange(cat, ns, nodes[j])
      && var r := RecAt(Node(cat, ns, nodes[j]), i);
         FoldersOver(cat, ns, nodes, k)[c] == Folder(r.parent, r.name)
    ensures c !in FoldersOver(cat, ns, nodes, k) ==>
      forall l :: 0 <= l < k ==> NoFolder(Node(cat, ns, nodes[l]), RecordCount(Node(cat, ns, nodes[l])), c)
    decreases k
  {
    hide RecAt, RecordCount, FolderAt, Node, WellFormed, FoldersIn, NoFolder;
    if k == 0 {
      j, i := 0, 0;
    } else {
      var x, acc := Node(cat, ns, nodes[k - 1]), FoldersOver(cat, ns, nodes, k - 1);
      i := FoldersInFrom(x, RecordCount(x), acc, c);
      j := k - 1;
      if i == RecordCount(x) {
        j, i := FolderListed(cat, ns, nodes, k - 1, c);
      }
    }
  }

  predicate Holds(name: Name, text: string) {
    exists k :: 0 <= k <= |name| - |text| && HoldsAt(name, text, k)
  }

  predicate HoldsAt(name: Name, text: string, k: nat) {
    k + |text| <= |name| && forall m :: 0 <= m < |text| ==> name[k + m] == text[m] as nat
  }

  lemma ContainsIff(name: Name, text: string)
    ensures Contains(name, Units(text)) <==> Holds(name, text)
  {
    if Contains(name, Units(text)) {
      var k :| 0 <= k <= |name| && Units(text) <= name[k..];
      assert forall m :: 0 <= m < |text| ==> name[k..][m] == Units(text)[m];
      assert HoldsAt(name, text, k);
    }
    if Holds(name, text) {
      var k :| 0 <= k <= |name| - |text| && HoldsAt(name, text, k);
      assert name[k..][..|text|] == Units(text);
    }
  }

  /** A folder below the root whose name marks it as the home of hard-link backing records. */
  predicate PrivateAt(x: Bytes, i: nat, c: nat) {
    var r := RecAt(x, i);
    && r.kind == 1 && r.cnid == c && r.parent == 2
    && (Holds(r.name, "HFS+ Private Data") || Holds(r.name, "HFS+ Private Directory Data"))
  }

  lemma {:induction false} PrivateInIff(x: Bytes, n: nat, acc: set<nat>, c: nat)
    ensures c in PrivateIn(x, n, acc) <==> c in acc || exists i :: 0 <= i < n && PrivateAt(x, i, c)
  {
    hide RecAt, Contains, Holds;
    if n > 0 {
      PrivateInIff(x, n - 1, acc, c);
      ContainsIff(RecAt(x, n - 1).name, "HFS+ Private Data");
      ContainsIff(RecAt(x, n - 1).name, "HFS+ Private Directory Data");
      assert c in PrivateIn(x, n, acc) <==> c in PrivateIn(x, n - 1, acc) || PrivateAt(x, n - 1, c);
    }
  }

  ghost predicate HasPrivateFolder(x: Bytes, c: nat) {
    exists i :: 0 <= i < RecordCount(x) && PrivateAt(x, i, c)
  }

  /** The private directories are exactly those folders. */
  lemma {:induction false} PrivateListed(cat: Bytes, ns: nat, nodes: seq<nat>, k: nat, c: nat)
    requires NodesOk(cat, ns, nodes) && k <= |nodes|
    ensures c in PrivateOver(cat, ns, nodes, k) <==>
            exists j :: 0 <= j < k && HasPrivateFolder(Node(cat, ns, nodes[j]), c)
    decreases k
  {
    hide RecAt, RecordCount, Node, WellFormed, PrivateIn, PrivateAt;
    if k > 0 {
      PrivateListed(cat, ns, nodes, k - 1, c);
      var x := Node(cat, ns, nodes[k - 1]);
      PrivateInIff(x, RecordCount(x), PrivateOver(cat, ns, nodes, k - 1), c);
    }
  }

  // ----- names of backing records -----

  function ValueOf(digits: Name): int {
    if digits == [] then 0 else 10 * ValueOf(digits[..|digits| - 1]) + digits[|digits| - 1] as int - 48
  }

  /** Link number `n` names the backing record "iNode" and the decimal digits of `n`, without a leading zero. */
  lemma INodeNameMeans(n: nat)
    ensures var name := INodeName(n);
            && |name| > 5 && name[..5] == [0x69, 0x4e, 0x6f, 0x64, 0x65]
            && ValueOf(name[5..]) == n && (forall k :: 5 <= k < |name| ==> 48 <= name[k] <= 57)
            && (name[5] == 48 ==> n == 0)
  {
    DecimalMeans(n);
    var name := INodeName(n);
    assert Units("iNode") == [0x69, 0x4e, 0x6f, 0x64, 0x65];
    assert name[5..] == Decimal(n);
    assert forall k :: 5 <= k < |name| ==> name[k] == Decimal(n)[k - 5];
  }

  lemma {:induction false} DecimalMeans(n: nat)
    ensures var d := Decimal(n);
            d != [] && ValueOf(d) == n && (forall k :: 0 <= k < |d| ==> 48 <= d[k] <= 57) && (d[0] == 48 ==> n == 0)
  {
    if n >= 10 {
      DecimalMeans(n / 10);
      assert Decimal(n)[..|Decimal(n)| - 1] == Decimal(n / 10);
    } else {
      assert ValueOf([48 + n][..0]) == 0;
    }
  }

  // ----- the owner map -----

  predicate Slashes(n: Name) {
    forall k :: 0 <= k < |n| ==> n[k] == 47
  }

  lemma {:induction false} StripLeftIs(n: Name) returns (a: Name)
    ensures n == a + StripLeft(n) && Slashes(a) && (StripLeft(n) != [] ==> StripLeft(n)[0] != 47)
  {
    if n != [] && n[0] == 47 {
      a := StripLeftIs(n[1..]);
      a := [47] + a;
    } else {
      a := [];
    }
  }

  lemma {:induction false} StripRightIs(n: Name) returns (b: Name)
    ensures n == StripRight(n) + b && Slashes(b)
    ensures StripRight(n) != [] ==> StripRight(n)[|StripRight(n)| - 1] != 47
  {
    if n != [] && n[|n| - 1] == 47 {
      var less := n[..|n| - 1];
      var c := StripRightIs(less);
      b := c + [47];
      assert n == less + [47] && (StripRight(less) + c) + [47] == StripRight(less) + b;
    } else {
      b := [];
    }
  }

  /** A key of the owner map is entered without the slashes at its two ends. */
  lemma StripIs(n: Name) returns (a: Name, b: Name)
    ensures n == a + Strip(n) + b && Slashes(a) && Slashes(b)
    ensures Strip(n) != [] ==> Strip(n)[0] != 47 && Strip(n)[|Strip(n)| - 1] != 47
  {
    hide StripLeft, StripRight;
    a := StripLeftIs(n);
    b := StripRightIs(StripLeft(n));
    assert a + (Strip(n) + b) == a + Strip(n) + b;
    assert Strip(n) != [] ==> StripLeft(n)[0] == Strip(n)[0];
  }

  // ----- what a run writes -----

  /** The record's path: empty for the root's own record, else the joined names down to it. */
  ghost predicate PlacedAt(env: Env, r: Rec, path: Name) {
    if r.parent == 1 && r.cnid == 2 then path == []
    else exists cnids :: Reaches(env.folders, cnids, r.parent) && path == PathBelow(env.folders, cnids, r.name)
  }

  lemma PlacedIff(env: Env, r: Rec)
    requires Acyclic(env.folders)
    ensures forall path :: PlacedAt(env, r, path) <==> PathOfRecord(env, r) == Some(path)
  {
    hide Reaches, PathBelow, Acyclic, PathOf, Below;
    if !(r.parent == 1 && r.cnid == 2) {
      hide PathOfRecord;
      RecordPath(env, r);
    }
  }

  predicate Shielded(env: Env, r: Rec) {
    r.cnid in env.private || r.parent in env.private
  }

  predicate LinkEntry(r: Rec) {
    r.kind == 2 && r.flags / 32 % 2 == 1
  }

  /** What the ownership `p` of an ordinary record `r` becomes. */
  ghost predicate Becomes(env: Env, r: Rec, p: Perm, q: Perm) {
    && (LinkEntry(r) || (forall path :: !PlacedAt(env, r, path)) ==> q == p)
    && (!LinkEntry(r) ==> forall path :: PlacedAt(env, r, path) ==> Owned(q, p, env.owners, env.nfd, path))
  }

  lemma BecomesIs(env: Env, r: Rec, p: Perm, q: Perm)
    requires Acyclic(env.folders) && (r.kind == 1 || r.kind == 2) && !Shielded(env, r)
    requires Ordinary(env, r) && IsLink(r) ==> q == p
    requires Ordinary(env, r) && !IsLink(r) ==> Owned(q, p, env.owners, env.nfd, PathOfRecord(env, r).value)
    requires !Ordinary(env, r) ==> q == p
    ensures Becomes(env, r, p, q)
  {
    hide Acyclic, PathOfRecord, PlacedAt, Owned;
    PlacedIff(env, r);
    if PathOfRecord(env, r).Some? {
      assert PlacedAt(env, r, PathOfRecord(env, r).value);
    }
  }

  /** Leaf `n` before and after the patch. */
  ghost predicate LeafPair(a: Bytes, b: Bytes, ns: nat, n: nat, x: Bytes, y: Bytes) {
    && n * ns + ns <= |a| && n * ns + ns <= |b|
    && x == a[n * ns..n * ns + ns] && y == b[n * ns..n * ns + ns]
  }

  /**
   * Every record of every leaf: its key and data stay except for owner, group and mode. Owner, group and
   * permission bits of an ordinary folder or file become those its joined path has in the owner map.
   */
  lemma RecordPatched(
    a: Bytes, b: Bytes, ns: nat, chain: seq<nat>, owners: Owners, nfd: Name -> Name, j: nat, x: Bytes, y: Bytes, i: nat,
    r: Rec, p: Perm, q: Perm)
    requires Patchable(a, ns, chain, owners, nfd) && PatchedFrom(a, b, ns, chain, owners, nfd) && j < |chain|
    requires LeafPair(a, b, ns, chain[j], x, y) && i < U(x, 10, 2) && 2 * (i + 1) <= ns
    requires RecordIs(x, i, r) && PermIs(x, i, p) && PermIs(y, i, q) && (r.kind == 1 || r.kind == 2)
    ensures forall at :: 0 <= at < ns && !OwnershipByte(x, at) ==> y[at] == x[at]
    ensures var env := EnvOf(a, ns, chain, owners, nfd);
            && (!Shielded(env, r) ==> Becomes(env, r, p, q))
            && (Shielded(env, r) && (r.parent !in env.private || r.kind == 1) ==> q == p)
  {
    hide NodesOk, AllDone, WellFormed, SameShape, RecordCount, RecAt, PermAt, HasPerm, Acyclic, PathOfRecord, U;
    hide FoldersOver, PrivateOver, LinksOf, LateOf, OwnerFits, Owned, Becomes, RecordIs, PermIs, OwnershipByte, IsLink;
    hide PatchedFrom;
    var env := EnvOf(a, ns, chain, owners, nfd);
    LeafShapes(a, b, ns, chain, owners, nfd, j, x, y);
    RecordLayout(x, i);
    RecordLayout(y, i);
    SameRecord(x, i, r, RecAt(x, i));
    SamePerm(x, i, p, PermAt(x, i));
    SamePerm(y, i, q, PermAt(y, i));
    RecordOutcome(a, b, ns, chain, owners, nfd, j, i);
    forall at | 0 <= at < ns && !OwnershipByte(x, at) ensures y[at] == x[at] {
      OnlyOwnership(x, y, at);
    }
    if !Shielded(env, r) {
      BecomesIs(env, r, p, q);
    }
  }

  lemma LeafShapes(
    a: Bytes, b: Bytes, ns: nat, chain: seq<nat>, owners: Owners, nfd: Name -> Name, j: nat, x: Bytes, y: Bytes)
    requires Patchable(a, ns, chain, owners, nfd) && PatchedFrom(a, b, ns, chain, owners, nfd) && j < |chain|
    requires LeafPair(a, b, ns, chain[j], x, y)
    ensures InRange(a, ns, chain[j]) && InRange(b, ns, chain[j])
    ensures x == Node(a, ns, chain[j]) && y == Node(b, ns, chain[j]) && |x| == |y| == ns
    ensures WellFormed(x) && WellFormed(y) && SameShape(x, y) && RecordCount(x) == RecordCount(y)
    ensures U(x, 10, 2) == RecordCount(x) && U(y, 10, 2) == RecordCount(y)
  {
    hide NodesOk, AllDone, WellFormed, SameShape, Acyclic, U, FoldersOver, PrivateOver, Progress;
    DoneAt(EnvOf(a, ns, chain, owners, nfd), LinksOf(a, ns, chain, owners, nfd), LateOf(a, ns, chain, owners, nfd), ns, chain, a, b, j);
  }

  lemma SameRecord(x: Bytes, i: nat, r: Rec, s: Rec)
    requires 2 * (i + 1) <= |x| && RecordIs(x, i, r) && RecordIs(x, i, s) && (r.kind == 1 || r.kind == 2)
    ensures r == s
  {
    hide U, At, Data;
    assert r.name == s.name;
  }

  lemma SamePerm(x: Bytes, i: nat, p: Perm, q: Perm)
    requires 2 * (i + 1) <= |x| && PermIs(x, i, p) && PermIs(x, i, q)
    ensures p == q
  {
  }

  // ----- backing records -----

  /** A hard-link entry of the backing record `key`. */
  ghost predicate EntryOf(env: Env, r: Rec, key: Name) {
    LinkEntry(r) && !Shielded(env, r) && key == INodeName(r.special) && exists path :: PlacedAt(env, r, path)
  }

  lemma LinksIff(env: Env, b: Bytes, i: nat, key: Name)
    requires Acyclic(env.folders)
    ensures Links(env, b, i, key) <==> EntryOf(env, RecAt(b, i), key)
  {
    hide RecAt, PermAt, PathOfRecord, PlacedAt, Acyclic, OwnerFor, INodeName;
    PlacedIff(env, RecAt(b, i));
    var path := PathOfRecord(env, RecAt(b, i));
    if path.Some? {
      assert PlacedAt(env, RecAt(b, i), path.value);
    }
  }

  /** The ownership of a backing record under the entry `l` with ownership `m` at `path`. */
  predicate Inherits(q: Perm, p: Perm, m: Perm, owners: Owners, nfd: Name -> Name, path: Name) {
    && q.mode / 4096 == p.mode / 4096
    && (path in owners ==> Bears(q, owners[path]))
    && (path !in owners && nfd(path) in owners ==> Bears(q, owners[nfd(path)]))
    && (path !in owners && nfd(path) !in owners ==> q.uid == 0 && q.gid == 0 && q.mode % 4096 == m.mode % 4096)
  }

  lemma LinkOwner(env: Env, b: Bytes, i: nat, key: Name, p: Perm, path: Name)
    requires Acyclic(env.folders) && Links(env, b, i, key) && PlacedAt(env, RecAt(b, i), path)
    ensures Inherits(Apply(PlanAt(env, b, i).owner, p.mode), p, PermAt(b, i), env.owners, env.nfd, path)
  {
    hide RecAt, PermAt, PathOfRecord, PlacedAt, Acyclic, INodeName;
    PlacedIff(env, RecAt(b, i));
  }

  /** Record `m` of leaf `l`. */
  ghost function RecordOf(cat: Bytes, ns: nat, nodes: seq<nat>, l: nat, m: nat): Rec
    requires NodesOk(cat, ns, nodes) && l < |nodes|
  {
    RecAt(Node(cat, ns, nodes[l]), m)
  }

  ghost predicate EntryIn(env: Env, cat: Bytes, ns: nat, nodes: seq<nat>, l: nat, m: nat, key: Name)
    requires NodesOk(cat, ns, nodes) && l < |nodes|
  {
    m < RecordCount(Node(cat, ns, nodes[l])) && EntryOf(env, RecordOf(cat, ns, nodes, l, m), key)
  }

  /** Entry `m` of leaf `l` is the last one of `key` in chain order. */
  ghost predicate LastEntry(env: Env, cat: Bytes, ns: nat, nodes: seq<nat>, l: nat, m: nat, key: Name)
    requires NodesOk(cat, ns, nodes)
  {
    && l < |nodes| && EntryIn(env, cat, ns, nodes, l, m, key)
    && (forall m': nat :: m < m' ==> !EntryIn(env, cat, ns, nodes, l, m', key))
    && (forall l', m': nat :: l < l' < |nodes| ==> !EntryIn(env, cat, ns, nodes, l', m', key))
  }

  lemma LastIs(env: Env, cat: Bytes, ns: nat, nodes: seq<nat>, l: nat, m: nat, key: Name)
    requires Acyclic(env.folders) && NodesOk(cat, ns, nodes) && l < |nodes| && InRange(cat, ns, nodes[l])
    requires m < RecordCount(Node(cat, ns, nodes[l])) && Links(env, Node(cat, ns, nodes[l]), m, key)
    requires NoneLater(env, cat, ns, nodes, |nodes|, l, m, key)
    ensures LastEntry(env, cat, ns, nodes, l, m, key)
  {
    hide RecAt, RecordCount, Node, EntryOf, Links, NodesOk, Acyclic;
    LinksIff(env, Node(cat, ns, nodes[l]), m, key);
    forall m': nat | m < m' ensures !EntryIn(env, cat, ns, nodes, l, m', key) {
      LinksIff(env, Node(cat, ns, nodes[l]), m', key);
    }
    forall l', m': nat | l < l' < |nodes| ensures !EntryIn(env, cat, ns, nodes, l', m', key) {
      NodeOkAt(cat, ns, nodes, l');
      assert NoneIn(env, Node(cat, ns, nodes[l']), key);
      LinksIff(env, Node(cat, ns, nodes[l']), m', key);
    }
  }

  ghost predicate NoEntry(env: Env, cat: Bytes, ns: nat, nodes: seq<nat>, key: Name)
    requires NodesOk(cat, ns, nodes)
  {
    forall l, m: nat :: 0 <= l < |nodes| ==> !EntryIn(env, cat, ns, nodes, l, m, key)
  }

  lemma NoneListed(env: Env, cat: Bytes, ns: nat, nodes: seq<nat>, key: Name)
    requires Acyclic(env.folders) && NodesOk(cat, ns, nodes) && key !in LinksOver(env, cat, ns, nodes, |nodes|)
    ensures NoEntry(env, cat, ns, nodes, key)
  {
    hide RecAt, RecordCount, Node, EntryOf, NodesOk, Acyclic, PlanAt, LinksOver;
    forall l: nat, m: nat | l < |nodes| ensures !EntryIn(env, cat, ns, nodes, l, m, key) {
      NodeOkAt(cat, ns, nodes, l);
      LinksIff(env, Node(cat, ns, nodes[l]), m, key);
      if EntryIn(env, cat, ns, nodes, l, m, key) {
        LinkListed(env, cat, ns, nodes, |nodes|, l, m);
      }
    }
  }

  /**
   * A file record in a private directory: it inherits from the last hard-link entry in chain order that
   * names it; without one it becomes root's and keeps its mode.
   */
  lemma BackingPatched(
    a: Bytes, b: Bytes, ns: nat, chain: seq<nat>, owners: Owners, nfd: Name -> Name, j: nat, x: Bytes, y: Bytes, i: nat,
    r: Rec, p: Perm, q: Perm) returns (l: nat, m: nat)
    requires Patchable(a, ns, chain, owners, nfd) && PatchedFrom(a, b, ns, chain, owners, nfd) && j < |chain|
    requires LeafPair(a, b, ns, chain[j], x, y) && i < U(x, 10, 2) && 2 * (i + 1) <= ns
    requires RecordIs(x, i, r) && PermIs(x, i, p) && PermIs(y, i, q) && r.kind == 2
    requires var env := EnvOf(a, ns, chain, owners, nfd); r.parent in env.private && r.cnid !in env.private
    ensures var env := EnvOf(a, ns, chain, owners, nfd);
            if NoEntry(env, a, ns, chain, r.name) then q == Perm(0, 0, p.mode)
            else
              && LastEntry(env, a, ns, chain, l, m, r.name)
              && forall path :: PlacedAt(env, RecordOf(a, ns, chain, l, m), path) ==>
                   Inherits(q, p, PermAt(Node(a, ns, chain[l]), m), owners, nfd, path)
  {
    hide AllDone, WellFormed, SameShape, RecordCount, RecAt, PermAt, HasPerm, Acyclic, PathOfRecord, U, PlacedAt, Inherits;
    hide FoldersOver, PrivateOver, LateOf, OwnerFits, RecordIs, PermIs, PatchedFrom, LastEntry, NoEntry, Node, NodesOk, Apply;
    hide LinksOver, NoneLater;
    var env := EnvOf(a, ns, chain, owners, nfd);
    LeafShapes(a, b, ns, chain, owners, nfd, j, x, y);
    RecordLayout(x, i);
    RecordLayout(y, i);
    SameRecord(x, i, r, RecAt(x, i));
    SamePerm(x, i, p, PermAt(x, i));
    SamePerm(y, i, q, PermAt(y, i));
    l, m := INodeOutcome(a, b, ns, chain, owners, nfd, j, i);
    if r.name !in LinksOf(a, ns, chain, owners, nfd) {
      NoneListed(env, a, ns, chain, r.name);
    } else {
      LastIs(env, a, ns, chain, l, m, r.name);
      SomeEntry(env, a, ns, chain, l, m, r.name);
      forall path | PlacedAt(env, RecordOf(a, ns, chain, l, m), path)
        ensures Inherits(q, p, PermAt(Node(a, ns, chain[l]), m), owners, nfd, path)
      {
        LinkOwner(env, Node(a, ns, chain[l]), m, r.name, p, path);
      }
    }
  }

  lemma SomeEntry(env: Env, cat: Bytes, ns: nat, nodes: seq<nat>, l: nat, m: nat, key: Name)
    requires NodesOk(cat, ns, nodes) && LastEntry(env, cat, ns, nodes, l, m, key)
    ensures !NoEntry(env, cat, ns, nodes, key)
  {
    hide EntryIn, NodesOk;
  }

  // ----- the leaf chain -----

  /** Leaves linked from `first` by their first four bytes to the last one, each marked 255 at byte 8. */
  predicate LeafChain(cat: Bytes, ns: nat, first: nat, nodes: seq<nat>) {
    && first == (if nodes == [] then 0 else nodes[0])
    && forall k :: 0 <= k < |nodes| ==> LeafAt(cat, ns, nodes, k)
  }

  predicate LeafAt(cat: Bytes, ns: nat, nodes: seq<nat>, k: nat)
    requires k < |nodes|
  {
    && nodes[k] != 0 && ns > 8 && nodes[k] * ns + ns <= |cat| && cat[nodes[k] * ns + 8] == 255
    && U(cat, nodes[k] * ns, 4) == if k + 1 < |nodes| then nodes[k + 1] else 0
  }

  lemma OneByte(b: Bytes, o: nat)
    requires o < |b|
    ensures U(b, o, 1) == b[o]
  {
    var one := ReadAt(b, o, 1);
    assert one == [b[o]];
    assert one[..0] == [] && FromBE(one) == 256 * FromBE(one[..0]) + one[0];
  }

  lemma LeafBytes(cat: Bytes, ns: nat, n: nat)
    requires InRange(cat, ns, n)
    ensures IsLeaf(Node(cat, ns, n)) <==> ns > 8 && cat[n * ns + 8] == 255
    ensures ns > 8 ==> NextLeaf(Node(cat, ns, n)) == U(cat, n * ns, 4)
  {
    var x, o := Node(cat, ns, n), n * ns;
    if ns > 8 {
      OneByte(x, 8);
      assert x[8] == cat[o + 8];
      SliceSlice(cat, o, o + ns, 0, 4);
      assert ReadAt(x, 0, 4) == x[0..4] && ReadAt(cat, o, 4) == cat[o..o + 4];
    } else {
      assert ReadAt(x, 8, 1) == [];
    }
  }

  lemma LinksOn(cat: Bytes, ns: nat, nodes: seq<nat>)
    requires nodes != [] && LeafAt(cat, ns, nodes, 0)
    ensures (forall k :: 0 <= k < |nodes| ==> LeafAt(cat, ns, nodes, k)) <==>
            LeafChain(cat, ns, U(cat, nodes[0] * ns, 4), nodes[1..])
  {
    hide U;
    var rest := nodes[1..];
    forall k | 0 <= k < |rest| ensures LeafAt(cat, ns, rest, k) <==> LeafAt(cat, ns, nodes, k + 1) {
    }
    if LeafChain(cat, ns, U(cat, nodes[0] * ns, 4), rest) {
      forall k | 0 <= k < |nodes| ensures LeafAt(cat, ns, nodes, k) {
        if k > 0 {
          assert LeafAt(cat, ns, rest, k - 1);
        }
      }
    }
  }

  /** The chains the patch accepts are exactly these. */
  lemma {:induction false} ChainIff(cat: Bytes, ns: nat, first: nat, nodes: seq<nat>)
    ensures Chain(cat, ns, first, nodes) && AllGood(cat, ns, nodes) <==> LeafChain(cat, ns, first, nodes)
    decreases |nodes|
  {
    hide U, Node, IsLeaf, NextLeaf;
    if nodes != [] {
      assert LeafAt(cat, ns, nodes, 0) ==> nodes[0] != 0;
    }
    if nodes != [] && first != 0 && nodes[0] == first {
      if InRange(cat, ns, first) {
        LeafBytes(cat, ns, first);
      }
      if GoodLeaf(cat, ns, first) {
        var next := NextLeaf(Node(cat, ns, first));
        ChainIff(cat, ns, next, nodes[1..]);
        assert AllGood(cat, ns, nodes) <==> AllGood(cat, ns, nodes[1..]) by {
          assert nodes == [first] + nodes[1..];
        }
        HeadLeaf(cat, ns, nodes);
      } else {
        assert !GoodLeaf(cat, ns, nodes[0]) && !LeafAt(cat, ns, nodes, 0);
      }
    }
  }

  lemma HeadLeaf(cat: Bytes, ns: nat, nodes: seq<nat>)
    requires nodes != [] && nodes[0] != 0 && ns > 8 && nodes[0] * ns + ns <= |cat| && cat[nodes[0] * ns + 8] == 255
    ensures LeafChain(cat, ns, nodes[0], nodes) <==> LeafChain(cat, ns, U(cat, nodes[0] * ns, 4), nodes[1..])
  {
    hide U;
    if LeafChain(cat, ns, nodes[0], nodes) {
      assert LeafAt(cat, ns, nodes, 0);
      LinksOn(cat, ns, nodes);
    }
    if LeafChain(cat, ns, U(cat, nodes[0] * ns, 4), nodes[1..]) {
      assert LeafAt(cat, ns, nodes, 0);
      LinksOn(cat, ns, nodes);
    }
  }
}
