/** What the ownership patch decides for one catalog record, and what that does to one leaf node. */
module HfsPlan {
  import opened HfsNodes
  import opened HfsPaths
  import opened Wrappers

  datatype Owner = Owner(uid: nat, gid: nat, mode: nat)
  type Owners = map<Name, Owner>

  /** An ASCII string as UTF-16 code units. */
  function Units(s: string): Name {
    seq(|s|, i requires 0 <= i < |s| => s[i] as nat)
  }

  // ----- the owner map -----

  function StripLeft(n: Name): Name {
    if n != [] && n[0] == SLASH_UNIT then StripLeft(n[1..]) else n
  }

  function StripRight(n: Name): Name {
    if n != [] && n[|n| - 1] == SLASH_UNIT then StripRight(n[..|n| - 1]) else n
  }

  function Strip(n: Name): Name {
    StripRight(StripLeft(n))
  }

  /** The entries of the owner map in order, each entered under its normal form and under itself. */
  function OwnerMap(entries: seq<(Name, Owner)>, nfd: Name -> Name): Owners {
    if entries == [] then map[]
    else
      var (key, v) := entries[|entries| - 1];
      OwnerMap(entries[..|entries| - 1], nfd)[nfd(Strip(key)) := v][Strip(key) := v]
  }

  predicate Spells(entry: (Name, Owner), nfd: Name -> Name, q: Name) {
    Strip(entry.0) == q || nfd(Strip(entry.0)) == q
  }

  /** The last entry that spells `q`, or -1. */
  function LastSpelling(entries: seq<(Name, Owner)>, nfd: Name -> Name, q: Name): (i: int)
    ensures -1 <= i < |entries| && (i >= 0 ==> Spells(entries[i], nfd, q))
    ensures forall j :: i < j < |entries| ==> !Spells(entries[j], nfd, q)
  {
    if entries == [] then -1
    else if Spells(entries[|entries| - 1], nfd, q) then |entries| - 1
    else
      var init := entries[..|entries| - 1];
      assert forall j :: 0 <= j < |init| ==> entries[j] == init[j];
      LastSpelling(init, nfd, q)
  }

  /** A path is looked up as the last entry that spells it, raw or normalised. */
  lemma {:induction false} LastSpellingWins(entries: seq<(Name, Owner)>, nfd: Name -> Name, q: Name)
    ensures q in OwnerMap(entries, nfd) <==> LastSpelling(entries, nfd, q) >= 0
    ensures q in OwnerMap(entries, nfd) ==>
      OwnerMap(entries, nfd)[q] == entries[LastSpelling(entries, nfd, q)].1
  {
    if entries != [] {
      LastSpellingWins(entries[..|entries| - 1], nfd, q);
    }
  }

  /** Everything the two patching passes know: folders, private directories, owners. */
  datatype Env = Env(folders: Folders, private: set<nat>, owners: Owners, nfd: Name -> Name)

  predicate OwnerFits(o: Owner) {
    o.uid < 0x1_0000_0000 && o.gid < 0x1_0000_0000
  }

  ghost predicate EnvOk(env: Env) {
    Acyclic(env.folders) && forall q :: q in env.owners ==> OwnerFits(env.owners[q])
  }

  // ----- the decision for one record -----

  /** The mode with its file-type bits kept and its permission bits replaced. */
  function Apply(o: Owner, mode: nat): Perm {
    Perm(o.uid, o.gid, mode / 4096 * 4096 + o.mode % 4096)
  }

  function OwnerFor(env: Env, path: Name, mode: nat): Owner {
    if path in env.owners then env.owners[path]
    else if env.nfd(path) in env.owners then env.owners[env.nfd(path)]
    else Owner(0, 0, mode % 4096)
  }

  function Decimal(n: nat): Name {
    if n < 10 then [48 + n] else Decimal(n / 10) + [48 + n % 10]
  }

  function INodeName(n: nat): Name {
    Units("iNode") + Decimal(n)
  }

  /** A hard-link directory entry, whose owner and group fields hold the link chain. */
  predicate IsLink(r: Rec) {
    r.kind == 2 && r.flags / 32 % 2 == 1
  }

  datatype Action = Skip | Private | Link(key: Name, owner: Owner) | Set(perm: Perm)

  function Decide(env: Env, r: Rec, p: Perm, path: Name): Action {
    var o := OwnerFor(env, path, p.mode);
    if IsLink(r) then Link(INodeName(r.special), o) else Set(Apply(o, p.mode))
  }

  ghost function PathOfRecord(env: Env, r: Rec): Option<Name>
    requires Acyclic(env.folders)
  {
    if r.parent == ROOT_PARENT && r.cnid == ROOT_FOLDER then Some([])
    else
      var dir := PathOf(env.folders, r.parent);
      if dir.None? then None else Some(Below(dir.value, r.name))
  }

  /** Pass 2a on one record. */
  ghost function Plan(env: Env, r: Rec, p: Perm): Action
    requires Acyclic(env.folders)
  {
    if r.kind != 1 && r.kind != 2 then Skip
    else if r.cnid in env.private then Skip
    else if r.parent in env.private then Private
    else
      var path := PathOfRecord(env, r);
      if path.None? then Skip else Decide(env, r, p, path.value)
  }

  ghost function LeafPerm(env: Env, r: Rec, p: Perm): Perm
    requires Acyclic(env.folders)
  {
    var a := Plan(env, r, p);
    if a.Set? then a.perm else p
  }

  /** Pass 2b on one record. */
  function INodePerm(env: Env, links: Owners, r: Rec, p: Perm): Perm {
    if r.parent in env.private && r.kind == 2
    then Apply(if r.name in links then links[r.name] else Owner(0, 0, p.mode % 4096), p.mode)
    else p
  }

  lemma ApplyTwice(o: Owner, m: nat)
    ensures Apply(o, Apply(o, m).mode) == Apply(o, m)
    ensures Apply(Owner(0, 0, m % 4096), m).mode == m
    ensures m < 0x1_0000 ==> Apply(o, m).mode < 0x1_0000
  {
  }

  /** Deciding again after the patch changes nothing. */
  lemma LeafPermTwice(env: Env, r: Rec, p: Perm)
    requires Acyclic(env.folders)
    ensures LeafPerm(env, r, LeafPerm(env, r, p)) == LeafPerm(env, r, p)
  {
    var path := PathOfRecord(env, r);
    if path.Some? {
      ApplyTwice(OwnerFor(env, path.value, p.mode), p.mode);
    }
  }

  lemma INodePermTwice(env: Env, links: Owners, r: Rec, p: Perm)
    ensures INodePerm(env, links, r, INodePerm(env, links, r, p)) == INodePerm(env, links, r, p)
  {
    if r.name in links {
      ApplyTwice(links[r.name], p.mode);
    } else {
      ApplyTwice(Owner(0, 0, p.mode % 4096), p.mode);
    }
  }
}
