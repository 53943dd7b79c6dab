/** The three passes of the catalog ownership patch, node by node and over the whole leaf chain. */
module HfsPatch {
  import opened Bytes
  import opened HfsNodes
  import opened HfsPaths
  import opened HfsPlan

  // ----- rewriting the ownership of a node's records -----

  /** The ownership a pass gives a record, from its fixed fields and its ownership before. */
  type Target = (Rec, Perm) -> Perm

  ghost function TargetAt(t: Target, b: Bytes, i: nat): Perm {
    t(RecAt(b, i), PermAt(b, i))
  }

  /** The first `n` records of `b` carry their new ownership in `c`, the others their old one. */
  ghost predicate Progress(t: Target, b: Bytes, c: Bytes, n: nat) {
    && SameShape(b, c)
    && forall i :: 0 <= i < RecordCount(b) && HasPerm(b, i) ==>
         PermAt(c, i) == if i < n then TargetAt(t, b, i) else PermAt(b, i)
  }

  /** One of the first `n` records changes. */
  ghost predicate Dirty(t: Target, b: Bytes, n: nat) {
    n > 0 && (Dirty(t, b, n - 1) || (HasPerm(b, n - 1) && TargetAt(t, b, n - 1) != PermAt(b, n - 1)))
  }

  lemma PermBound(b: Bytes, i: nat)
    requires WellFormed(b) && i < RecordCount(b) && HasPerm(b, i)
    ensures PermFits(PermAt(b, i))
  {
    hide WellFormed, U, DataStart;
    EndInside(b, i);
    Pow256Values();
    UBound(b, DataStart(b, i) + 32, 4);
    UBound(b, DataStart(b, i) + 36, 4);
    UBound(b, DataStart(b, i) + 42, 2);
  }

  /** What record `i` looks like once the earlier ones are patched. */
  lemma ProgressView(t: Target, b: Bytes, c: Bytes, i: nat)
    requires WellFormed(b) && i < RecordCount(b) && Progress(t, b, c, i)
    ensures WellFormed(c) && RecordCount(c) == RecordCount(b) && RecAt(c, i) == RecAt(b, i)
    ensures HasPerm(c, i) == HasPerm(b, i)
    ensures HasPerm(b, i) ==> PermAt(c, i) == PermAt(b, i)
  {
    hide WellFormed, SameShape, RecAt, PermAt, RecordCount, HasPerm;
    KeptWellFormed(b, c);
    KeptHeader(b, c);
    KeptRecord(b, c, i);
  }

  /** Writing the new ownership of record `i` advances the pass by one record. */
  lemma ProgressStep(t: Target, b: Bytes, c: Bytes, i: nat, p: Perm)
    requires WellFormed(b) && i < RecordCount(b) && Progress(t, b, c, i)
    requires HasPerm(b, i) && p == TargetAt(t, b, i) && PermFits(p)
    ensures DataStart(c, i) + 48 <= |c| && Progress(t, b, SetPerm(c, i, p), i + 1)
  {
    hide WellFormed, SameShape, RecAt, PermAt, RecordCount, HasPerm, SetPerm, DataStart, TargetAt;
    ProgressView(t, b, c, i);
    SetPermEffect(c, i, p);
    var d := SetPerm(c, i, p);
    SameShapeTrans(b, c, d);
    forall j | 0 <= j < RecordCount(b) && HasPerm(b, j) && j != i ensures PermAt(d, j) == PermAt(c, j) {
      KeptRecord(b, c, j);
      SetPermOthers(c, i, p, j);
    }
  }

  /** Leaving record `i` alone does too, when its ownership is already right or it carries none. */
  lemma ProgressIdle(t: Target, b: Bytes, c: Bytes, i: nat)
    requires Progress(t, b, c, i) && (HasPerm(b, i) ==> TargetAt(t, b, i) == PermAt(b, i))
    ensures Progress(t, b, c, i + 1)
  {
    hide SameShape, RecAt, PermAt, RecordCount, HasPerm, TargetAt;
  }

  lemma ProgressStart(t: Target, b: Bytes)
    ensures Progress(t, b, b, 0)
  {
    hide PermAt, TargetAt;
    SameShapeRefl(b);
  }

  // ----- pass 2a on one leaf -----

  ghost function LeafTarget(env: Env): Target
    requires Acyclic(env.folders)
  {
    (r, p) => LeafPerm(env, r, p)
  }

  /** One of the first `n` records lies in a private directory. */
  ghost predicate HasPrivate(env: Env, b: Bytes, n: nat)
    requires Acyclic(env.folders)
  {
    n > 0 && (HasPrivate(env, b, n - 1) || Plan(env, RecAt(b, n - 1), PermAt(b, n - 1)).Private?)
  }

  /** `hardlink_inodes` after the first `n` records. */
  ghost function LinksIn(env: Env, b: Bytes, n: nat, acc: Owners): Owners
    requires Acyclic(env.folders)
  {
    if n == 0 then acc
    else
      var a := Plan(env, RecAt(b, n - 1), PermAt(b, n - 1));
      var links := LinksIn(env, b, n - 1, acc);
      if a.Link? then links[a.key := a.owner] else links
  }

  method PlanRecord(env: Env, cache: map<nat, Name>, r: Rec, p: Perm, ghost rank: nat -> nat) returns (a: Action)
    requires EnvOk(env) && Ranked(env.folders, rank) && CacheSound(env.folders, cache)
    ensures a == Plan(env, r, p)
  {
    hide Ranked, CacheSound, PathOf, OwnerFor, Decide;
    if r.kind != 1 && r.kind != 2 {
      return Skip;
    }
    if r.cnid in env.private {
      return Skip;
    }
    if r.parent in env.private {
      return Private;
    }
    if r.parent == ROOT_PARENT && r.cnid == ROOT_FOLDER {
      return Decide(env, r, p, []);
    }
    var _, dir := GetFolderPath(env.folders, cache, r.parent, rank);
    if dir.None? {
      return Skip;
    }
    return Decide(env, r, p, Below(dir.value, r.name));
  }

  lemma PlanFits(env: Env, r: Rec, p: Perm)
    requires EnvOk(env) && p.mode < 0x1_0000
    ensures Plan(env, r, p).Set? ==> PermFits(Plan(env, r, p).perm)
    ensures Plan(env, r, p).Link? ==> OwnerFits(Plan(env, r, p).owner)
  {
    var path := PathOfRecord(env, r);
    if path.Some? {
      ApplyTwice(OwnerFor(env, path.value, p.mode), p.mode);
    }
  }

  /** The record loop of pass 2a. */
  method PatchLeaf(env: Env, cache: map<nat, Name>, node: Bytes, links0: Owners, ghost rank: nat -> nat)
    returns (b: Bytes, dirty: bool, links: Owners, private: bool)
    requires EnvOk(env) && Ranked(env.folders, rank) && CacheSound(env.folders, cache) && WellFormed(node)
    ensures Progress(LeafTarget(env), node, b, RecordCount(node))
    ensures dirty <==> Dirty(LeafTarget(env), node, RecordCount(node))
    ensures !dirty ==> b == node
    ensures links == LinksIn(env, node, RecordCount(node), links0)
    ensures private <==> HasPrivate(env, node, RecordCount(node))
  {
    hide Progress, WellFormed, RecAt, PermAt, RecordCount, CacheSound, Ranked, SetPerm, DataStart, Acyclic;
    b, dirty, links, private := node, false, links0, false;
    ghost var t := LeafTarget(env);
    ProgressStart(t, node);
    for i := 0 to RecordCount(node)
      invariant Progress(t, node, b, i)
      invariant dirty <==> Dirty(t, node, i)
      invariant !dirty ==> b == node
      invariant links == LinksIn(env, node, i, links0)
      invariant private <==> HasPrivate(env, node, i)
    {
      ProgressView(t, node, b, i);
      var r := RecAt(b, i);
      if HasPerm(b, i) {
        PermBound(node, i);
        var p := PermAt(b, i);
        PlanFits(env, r, p);
        var a := PlanRecord(env, cache, r, p, rank);
        if a.Link? {
          links := links[a.key := a.owner];
        }
        if a.Private? {
          private := true;
        }
        if a.Set? && a.perm != p {
          ProgressStep(t, node, b, i, a.perm);
          b := SetPerm(b, i, a.perm);
          dirty := true;
        } else {
          ProgressIdle(t, node, b, i);
        }
      } else {
        ProgressIdle(t, node, b, i);
        NoPermSkips(env, node, i);
      }
    }
  }

  lemma NoPermSkips(env: Env, b: Bytes, i: nat)
    requires Acyclic(env.folders) && !HasPerm(b, i)
    ensures Plan(env, RecAt(b, i), PermAt(b, i)) == Skip
  {
    hide PermAt, NameAt;
  }

  // ----- pass 2b on one leaf -----

  ghost function INodeTarget(env: Env, links: Owners): Target {
    (r, p) => INodePerm(env, links, r, p)
  }

  predicate OwnersFit(owners: Owners) {
    forall q :: q in owners ==> OwnerFits(owners[q])
  }

  lemma INodeFits(env: Env, links: Owners, r: Rec, p: Perm)
    requires OwnersFit(links) && PermFits(p)
    ensures PermFits(INodePerm(env, links, r, p))
  {
    ApplyTwice(if r.name in links then links[r.name] else Owner(0, 0, p.mode % 4096), p.mode);
  }

  /** The record loop of pass 2b. */
  method PatchINodes(env: Env, links: Owners, node: Bytes) returns (b: Bytes, dirty: bool)
    requires OwnersFit(links) && WellFormed(node)
    ensures Progress(INodeTarget(env, links), node, b, RecordCount(node))
    ensures dirty <==> Dirty(INodeTarget(env, links), node, RecordCount(node))
    ensures !dirty ==> b == node
  {
    hide Progress, WellFormed, RecAt, PermAt, RecordCount, SetPerm, DataStart, OwnersFit;
    b, dirty := node, false;
    ghost var t := INodeTarget(env, links);
    ProgressStart(t, node);
    for i := 0 to RecordCount(node)
      invariant Progress(t, node, b, i)
      invariant dirty <==> Dirty(t, node, i)
      invariant !dirty ==> b == node
    {
      ProgressView(t, node, b, i);
      var r := RecAt(b, i);
      if r.parent in env.private && HasPerm(b, i) && r.kind == 2 {
        var p := PermAt(b, i);
        PermBound(node, i);
        INodeFits(env, links, r, p);
        var q := INodePerm(env, links, r, p);
        if q != p {
          ProgressStep(t, node, b, i, q);
          b := SetPerm(b, i, q);
          dirty := true;
        } else {
          ProgressIdle(t, node, b, i);
        }
      } else {
        ProgressIdle(t, node, b, i);
      }
    }
  }
}
