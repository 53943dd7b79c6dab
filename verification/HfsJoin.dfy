/** Folder paths without recursion on the parent map: the names along the chain of CNIDs from the root, joined. */
module HfsJoin {
  import opened HfsNodes
  import opened HfsPaths
  import opened HfsPlan
  import opened Wrappers

  /** The names in order, one slash (47) between each and the next. */
  function Join(names: seq<Name>): Name {
    if names == [] then [] else if |names| == 1 then names[0] else names[0] + [47] + Join(names[1..])
  }

  /** Without leading empty names, which add no slash. */
  function Trimmed(names: seq<Name>): seq<Name> {
    if names != [] && names[0] == [] then Trimmed(names[1..]) else names
  }

  lemma {:induction false} JoinSnoc(names: seq<Name>, last: Name)
    requires names != []
    ensures Join(names + [last]) == Join(names) + [47] + last
  {
    if |names| == 1 {
      assert (names + [last])[1..] == [last];
    } else {
      JoinSnoc(names[1..], last);
      assert (names + [last])[1..] == names[1..] + [last];
      assert names[0] + [47] + (Join(names[1..]) + [47] + last) == names[0] + [47] + Join(names[1..]) + [47] + last;
    }
  }

  lemma {:induction false} TrimmedSnoc(names: seq<Name>, last: Name)
    ensures Trimmed(names + [last]) == if Trimmed(names) != [] then Trimmed(names) + [last] else if last == [] then [] else [last]
    ensures Trimmed(names) != [] ==> Trimmed(names)[0] != []
  {
    if names == [] {
      assert names + [last] == [last];
      assert [last][1..] == [];
    } else if names[0] == [] {
      TrimmedSnoc(names[1..], last);
      assert (names + [last])[1..] == names[1..] + [last];
    }
  }

  /** One more name below: a slash in between unless there is nothing above. */
  lemma JoinBelow(names: seq<Name>, last: Name)
    ensures Join(Trimmed(names + [last])) == Below(Join(Trimmed(names)), last)
  {
    hide Trimmed;
    var t := Trimmed(names);
    TrimmedSnoc(names, last);
    if t != [] {
      JoinSnoc(t, last);
      JoinStarts(t);
    }
  }

  lemma JoinStarts(names: seq<Name>)
    requires names != [] && names[0] != []
    ensures Join(names) != []
  {
  }

  // ----- chains of folders -----

  /** CNIDs from the root down, each the parent of the next. Folder 2 and the children of 1 are roots. */
  predicate Down(folders: Folders, cnids: seq<nat>) {
    && cnids != [] && (cnids[0] == 2 || (cnids[0] in folders && folders[cnids[0]].parent == 1))
    && forall k :: 0 < k < |cnids| ==> Child(folders, cnids[k - 1], cnids[k])
  }

  predicate Child(folders: Folders, up: nat, c: nat) {
    c != 2 && c in folders && folders[c].parent == up != 1
  }

  function NameOf(folders: Folders, c: nat): Name {
    if c in folders then folders[c].name else []
  }

  /** The names of all folders of the chain but the root. */
  function NamesAlong(folders: Folders, cnids: seq<nat>): seq<Name>
    requires cnids != []
  {
    seq(|cnids| - 1, k requires 0 <= k < |cnids| - 1 => NameOf(folders, cnids[k + 1]))
  }

  /** The path of a folder is the names along any chain down to it, root first, one slash between. */
  lemma {:induction false} PathIs(folders: Folders, rank: nat -> nat, cnids: seq<nat>)
    requires Ranked(folders, rank) && Down(folders, cnids)
    ensures PathBy(folders, rank, cnids[|cnids| - 1]) == Some(Join(Trimmed(NamesAlong(folders, cnids))))
    decreases |cnids|
  {
    hide Join, Trimmed, Ranked, Below;
    var n := |cnids| - 1;
    if n == 0 {
      assert NamesAlong(folders, cnids) == [];
      EmptyPath();
    } else {
      var up := cnids[..n];
      assert Child(folders, cnids[n - 1], cnids[n]);
      assert Down(folders, up);
      PathIs(folders, rank, up);
      assert NamesAlong(folders, cnids) == NamesAlong(folders, up) + [folders[cnids[n]].name];
      JoinBelow(NamesAlong(folders, up), folders[cnids[n]].name);
    }
  }

  lemma EmptyPath()
    ensures Join(Trimmed([])) == []
  {
  }

  /** A folder with a path has such a chain. */
  lemma {:induction false} HasChain(folders: Folders, rank: nat -> nat, c: nat) returns (cnids: seq<nat>)
    requires Ranked(folders, rank) && PathBy(folders, rank, c).Some?
    ensures Reaches(folders, cnids, c)
    decreases rank(c)
  {
    hide Below;
    if Climbs(folders, c) {
      var up := HasChain(folders, rank, folders[c].parent);
      cnids := up + [c];
      assert forall k :: 0 < k < |up| ==> cnids[k] == up[k] && Child(folders, up[k - 1], up[k]);
      assert Child(folders, up[|up| - 1], c);
    } else {
      cnids := [c];
    }
  }

  ghost predicate Reaches(folders: Folders, cnids: seq<nat>, c: nat) {
    cnids != [] && Down(folders, cnids) && cnids[|cnids| - 1] == c
  }

  /** Exactly the folders some chain reaches have a path, and it is the joined names. */
  lemma FolderPath(folders: Folders, c: nat)
    requires Acyclic(folders)
    ensures PathOf(folders, c).Some? <==> exists cnids :: Reaches(folders, cnids, c)
    ensures forall cnids :: Reaches(folders, cnids, c) ==>
              PathOf(folders, c) == Some(Join(Trimmed(NamesAlong(folders, cnids))))
  {
    hide Join, Trimmed, PathBy, PathOf, Down, NamesAlong;
    var rank :| Ranked(folders, rank);
    PathOfIs(folders, rank, c);
    if PathOf(folders, c).Some? {
      var cnids := HasChain(folders, rank, c);
      assert Reaches(folders, cnids, c);
    }
    forall cnids | Reaches(folders, cnids, c)
      ensures PathOf(folders, c) == Some(Join(Trimmed(NamesAlong(folders, cnids))))
    {
      PathIs(folders, rank, cnids);
    }
  }

  /** The path of a record in the folder the chain reaches: those names and its own. */
  ghost function PathBelow(folders: Folders, cnids: seq<nat>, name: Name): Name
    requires Down(folders, cnids)
  {
    Join(Trimmed(NamesAlong(folders, cnids) + [name]))
  }

  lemma RecordPath(env: Env, r: Rec)
    requires Acyclic(env.folders) && !(r.parent == 1 && r.cnid == 2)
    ensures PathOfRecord(env, r).Some? <==> exists cnids :: Reaches(env.folders, cnids, r.parent)
    ensures forall cnids :: Reaches(env.folders, cnids, r.parent) ==>
              PathOfRecord(env, r) == Some(PathBelow(env.folders, cnids, r.name))
  {
    hide Join, Trimmed, PathOf, NamesAlong, Below, Acyclic;
    FolderPath(env.folders, r.parent);
    forall cnids | Reaches(env.folders, cnids, r.parent)
      ensures PathOfRecord(env, r) == Some(PathBelow(env.folders, cnids, r.name))
    {
      JoinBelow(NamesAlong(env.folders, cnids), r.name);
    }
  }

  /** In a folder with a non-empty path, a record's path is that path, one slash, and its name. */
  lemma PathPrefix(env: Env, r: Rec)
    requires Acyclic(env.folders) && !(r.parent == 1 && r.cnid == 2)
    requires PathOf(env.folders, r.parent).Some? && PathOf(env.folders, r.parent).value != []
    ensures PathOfRecord(env, r) == Some(PathOf(env.folders, r.parent).value + [47] + r.name)
  {
  }
}
