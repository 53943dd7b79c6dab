/** Hard links: the backing record of a linked file gets the owner of a path that links to it. */
module HfsLinks {
  import opened Bytes
  import opened HfsNodes
  import opened HfsPaths
  import opened HfsPlan
  import opened HfsPatch
  import opened HfsCatalog
  import opened HfsOwners

  /** Pass 2a's decision for record `i` of node `b`. */
  ghost function PlanAt(env: Env, b: Bytes, i: nat): Action
    requires Acyclic(env.folders)
  {
    Plan(env, RecAt(b, i), PermAt(b, i))
  }

  lemma {:induction false} PrivateHas(env: Env, b: Bytes, n: nat, i: nat)
    requires Acyclic(env.folders) && i < n && PlanAt(env, b, i).Private?
    ensures HasPrivate(env, b, n)
    decreases n
  {
    hide Plan, RecAt, PermAt, Acyclic;
    if i < n - 1 {
      PrivateHas(env, b, n - 1, i);
    }
  }

  lemma {:induction false} PrivateLeavesHave(env: Env, cat: Bytes, ns: nat, nodes: seq<nat>, k: nat, j: nat)
    requires Acyclic(env.folders) && NodesOk(cat, ns, nodes) && j < k <= |nodes|
    requires HasPrivate(env, Node(cat, ns, nodes[j]), RecordCount(Node(cat, ns, nodes[j])))
    ensures nodes[j] in PrivateLeaves(env, cat, ns, nodes, k)
    decreases k
  {
    hide HasPrivate, NodesOk, RecordCount, Acyclic, Node;
    if j < k - 1 {
      PrivateLeavesHave(env, cat, ns, nodes, k - 1, j);
    }
  }

  /** Record `i` of node `b` is a hard-link entry of the backing record called `key`. */
  ghost predicate Links(env: Env, b: Bytes, i: nat, key: Name)
    requires Acyclic(env.folders)
  {
    PlanAt(env, b, i).Link? && PlanAt(env, b, i).key == key
  }

  lemma {:induction false} LinksInHave(env: Env, b: Bytes, n: nat, acc: Owners, key: Name)
    requires Acyclic(env.folders) && (key in acc || exists i :: 0 <= i < n && Links(env, b, i, key))
    ensures key in LinksIn(env, b, n, acc)
    decreases n
  {
    hide Plan, RecAt, PermAt, Acyclic;
    if n > 0 && !Links(env, b, n - 1, key) {
      LinksInHave(env, b, n - 1, acc, key);
    }
  }

  /** The owner listed after a node is that of its last entry, or the one listed before if it has none. */
  lemma {:induction false} LinksInFrom(env: Env, b: Bytes, n: nat, acc: Owners, key: Name) returns (i: nat)
    requires Acyclic(env.folders) && key in LinksIn(env, b, n, acc)
    ensures i <= n && forall m :: i < m < n ==> !Links(env, b, m, key)
    ensures i < n ==> PlanAt(env, b, i) == Action.Link(key, LinksIn(env, b, n, acc)[key])
    ensures i == n ==> key in acc && LinksIn(env, b, n, acc)[key] == acc[key] && forall m :: 0 <= m < n ==> !Links(env, b, m, key)
    decreases n
  {
    hide Plan, RecAt, PermAt, Acyclic;
    if n == 0 {
      i := 0;
    } else if Links(env, b, n - 1, key) {
      i := n - 1;
    } else {
      i := LinksInFrom(env, b, n - 1, acc, key);
      if i == n - 1 {
        i := n;
      }
    }
  }

  /** Every hard-link entry the first pass can place lists its backing record. */
  lemma {:induction false} LinkListed(env: Env, cat: Bytes, ns: nat, nodes: seq<nat>, k: nat, j: nat, i: nat)
    requires Acyclic(env.folders) && NodesOk(cat, ns, nodes) && j < k <= |nodes|
    requires i < RecordCount(Node(cat, ns, nodes[j])) && PlanAt(env, Node(cat, ns, nodes[j]), i).Link?
    ensures PlanAt(env, Node(cat, ns, nodes[j]), i).key in LinksOver(env, cat, ns, nodes, k)
    decreases k
  {
    hide Plan, RecAt, PermAt, WellFormed, RecordCount, Acyclic, Node, LinksIn;
    var b := Node(cat, ns, nodes[k - 1]);
    var key := PlanAt(env, Node(cat, ns, nodes[j]), i).key;
    if j < k - 1 {
      LinkListed(env, cat, ns, nodes, k - 1, j, i);
    } else {
      assert Links(env, b, i, key);
    }
    LinksInHave(env, b, RecordCount(b), LinksOver(env, cat, ns, nodes, k - 1), key);
  }

  /** No entry of nodes `j + 1` to `k`, nor of node `j` behind record `i`, links to `key`. */
  ghost predicate NoneLater(env: Env, cat: Bytes, ns: nat, nodes: seq<nat>, k: nat, j: nat, i: nat, key: Name)
    requires Acyclic(env.folders) && NodesOk(cat, ns, nodes) && j < k <= |nodes|
  {
    && (forall m :: i < m < RecordCount(Node(cat, ns, nodes[j])) ==> !Links(env, Node(cat, ns, nodes[j]), m, key))
    && (forall l :: j < l < k ==> NoneIn(env, Node(cat, ns, nodes[l]), key))
  }

  ghost predicate NoneIn(env: Env, b: Bytes, key: Name)
    requires Acyclic(env.folders)
  {
    forall m :: 0 <= m < RecordCount(b) ==> !Links(env, b, m, key)
  }

  /** A listed owner is the owner decided for the last hard-link entry in chain order. */
  lemma {:induction false} LinkFrom(env: Env, cat: Bytes, ns: nat, nodes: seq<nat>, k: nat, key: Name) returns (j: nat, i: nat)
    requires Acyclic(env.folders) && NodesOk(cat, ns, nodes) && k <= |nodes|
    requires key in LinksOver(env, cat, ns, nodes, k)
    ensures j < k && InRange(cat, ns, nodes[j]) && i < RecordCount(Node(cat, ns, nodes[j]))
    ensures PlanAt(env, Node(cat, ns, nodes[j]), i) == Action.Link(key, LinksOver(env, cat, ns, nodes, k)[key])
    ensures NoneLater(env, cat, ns, nodes, k, j, i, key)
    decreases k
  {
    hide PlanAt, RecordCount, Acyclic, Node, LinksIn, WellFormed, Links;
    var b := Node(cat, ns, nodes[k - 1]);
    var acc := LinksOver(env, cat, ns, nodes, k - 1);
    i := LinksInFrom(env, b, RecordCount(b), acc, key);
    if i < RecordCount(b) {
      j := k - 1;
    } else {
      assert NoneIn(env, b, key);
      j, i := LinkFrom(env, cat, ns, nodes, k - 1, key);
    }
  }

  /**
   * A file record inside a private directory ends with the owner, group and permission bits decided for
   * the last hard-link entry, in chain order, that names it; with root's ownership and its own mode if none does.
   */
  lemma INodeOutcome(a: Bytes, b: Bytes, ns: nat, chain: seq<nat>, owners: Owners, nfd: Name -> Name, j: nat, i: nat)
    returns (lj: nat, li: nat)
    requires Patchable(a, ns, chain, owners, nfd) && PatchedFrom(a, b, ns, chain, owners, nfd) && j < |chain|
    requires InRange(a, ns, chain[j]) && i < RecordCount(Node(a, ns, chain[j])) && HasPerm(Node(a, ns, chain[j]), i)
    requires PlanAt(EnvOf(a, ns, chain, owners, nfd), Node(a, ns, chain[j]), i).Private?
    requires RecAt(Node(a, ns, chain[j]), i).kind == 2
    ensures InRange(b, ns, chain[j])
    ensures var env := EnvOf(a, ns, chain, owners, nfd);
            var r, p, q := RecAt(Node(a, ns, chain[j]), i), PermAt(Node(a, ns, chain[j]), i), PermAt(Node(b, ns, chain[j]), i);
            && (r.name !in LinksOf(a, ns, chain, owners, nfd) ==> q == Perm(0, 0, p.mode))
            && (r.name in LinksOf(a, ns, chain, owners, nfd) ==>
                  && lj < |chain| && InRange(a, ns, chain[lj]) && li < RecordCount(Node(a, ns, chain[lj]))
                  && var decided := PlanAt(env, Node(a, ns, chain[lj]), li);
                  && decided.Link? && decided.key == r.name && q == Apply(decided.owner, p.mode)
                  && NoneLater(env, a, ns, chain, |chain|, lj, li, r.name))
  {
    hide NodesOk, AllDone, WellFormed, SameShape, RecordCount, RecAt, PermAt, HasPerm, Node, Acyclic, PathOfRecord;
    hide FoldersOver, PrivateOver, OwnerFits, LinksOver, PrivateLeaves, HasPrivate, NoneLater;
    var env := EnvOf(a, ns, chain, owners, nfd);
    var links, late := LinksOf(a, ns, chain, owners, nfd), LateOf(a, ns, chain, owners, nfd);
    var x := Node(a, ns, chain[j]);
    DoneAt(env, links, late, ns, chain, a, b, j);
    PrivateHas(env, x, RecordCount(x), i);
    PrivateLeavesHave(env, a, ns, chain, |chain|, j);
    ApplyTwice(Owner(0, 0, 0), PermAt(x, i).mode);
    lj, li := 0, 0;
    if RecAt(x, i).name in links {
      lj, li := LinkFrom(env, a, ns, chain, |chain|, RecAt(x, i).name);
    }
  }
}
