/** Folder paths from the CNID-to-parent map: the plain recursive meaning and the memoised search. */
module HfsPaths {
  import opened HfsNodes
  import opened Wrappers

  const SLASH_UNIT: nat := 47
  const ROOT_FOLDER: nat := 2
  const ROOT_PARENT: nat := 1

  datatype Folder = Folder(parent: nat, name: Name)
  type Folders = map<nat, Folder>

  /** `f'{ppath}/{name}' if ppath else name`. */
  function Below(dir: Name, name: Name): Name {
    if dir == [] then name else dir + [SLASH_UNIT] + name
  }

  /** The walk towards the root goes on at `c`. */
  predicate Climbs(folders: Folders, c: nat) {
    c != ROOT_FOLDER && c in folders && folders[c].parent != ROOT_PARENT
  }

  /** `rank` strictly falls on every step of the walk, so the parent relation has no cycle. */
  ghost predicate Ranked(folders: Folders, rank: nat -> nat) {
    forall c :: Climbs(folders, c) ==> rank(folders[c].parent) < rank(c)
  }

  ghost predicate Acyclic(folders: Folders) {
    exists rank :: Ranked(folders, rank)
  }

  /** The path of folder `c`: none if the walk leaves the map before it reaches the root. */
  ghost function PathBy(folders: Folders, rank: nat -> nat, c: nat): Option<Name>
    requires Ranked(folders, rank)
    decreases rank(c)
  {
    if c == ROOT_FOLDER then Some([])
    else if c !in folders then None
    else if folders[c].parent == ROOT_PARENT then Some([])
    else
      var up := PathBy(folders, rank, folders[c].parent);
      if up.None? then None else Some(Below(up.value, folders[c].name))
  }

  lemma {:induction false} RankIrrelevant(folders: Folders, r: nat -> nat, s: nat -> nat, c: nat)
    requires Ranked(folders, r) && Ranked(folders, s)
    ensures PathBy(folders, r, c) == PathBy(folders, s, c)
    decreases r(c)
  {
    if Climbs(folders, c) {
      RankIrrelevant(folders, r, s, folders[c].parent);
    }
  }

  ghost function PathOf(folders: Folders, c: nat): Option<Name>
    requires Acyclic(folders)
  {
    var rank :| Ranked(folders, rank);
    PathBy(folders, rank, c)
  }

  lemma PathOfIs(folders: Folders, rank: nat -> nat, c: nat)
    requires Ranked(folders, rank)
    ensures Acyclic(folders) && PathOf(folders, c) == PathBy(folders, rank, c)
  {
    var r :| Ranked(folders, r) && PathOf(folders, c) == PathBy(folders, r, c);
    RankIrrelevant(folders, r, rank, c);
  }

  /** Every cached path is the folder's path. */
  ghost predicate CacheSound(folders: Folders, cache: map<nat, Name>)
    requires Acyclic(folders)
  {
    ROOT_FOLDER in cache && forall c :: c in cache ==> PathOf(folders, c) == Some(cache[c])
  }

  /** The memoised search: the right answer whatever has been asked before, and a sound, larger cache. */
  method GetFolderPath(folders: Folders, cache: map<nat, Name>, c: nat, ghost rank: nat -> nat)
    returns (cache': map<nat, Name>, path: Option<Name>)
    requires Ranked(folders, rank) && Acyclic(folders) && CacheSound(folders, cache)
    ensures CacheSound(folders, cache') && cache.Keys <= cache'.Keys
    ensures path == PathOf(folders, c)
    ensures path.Some? ==> c in cache'
    decreases rank(c)
  {
    cache' := cache;
    PathOfIs(folders, rank, c);
    if c in cache {
      return cache, Some(cache[c]);
    }
    if c !in folders {
      return cache, None;
    }
    var parent, name := folders[c].parent, folders[c].name;
    if parent == ROOT_PARENT {
      return cache[c := []], Some([]);
    }
    var up;
    cache', up := GetFolderPath(folders, cache, parent, rank);
    PathOfIs(folders, rank, parent);
    if up.None? {
      return cache', None;
    }
    var res := Below(up.value, name);
    return cache'[c := res], Some(res);
  }

  lemma RootPath(folders: Folders, rank: nat -> nat)
    requires Ranked(folders, rank)
    ensures Acyclic(folders) && PathOf(folders, ROOT_FOLDER) == Some([])
  {
    PathOfIs(folders, rank, ROOT_FOLDER);
  }

  lemma PathNeedsFolder(folders: Folders, rank: nat -> nat, c: nat)
    requires Ranked(folders, rank)
    ensures Acyclic(folders) && (PathOf(folders, c).Some? ==> c == ROOT_FOLDER || c in folders)
  {
    PathOfIs(folders, rank, c);
  }

  /** Asking for every folder once leaves a cache that decides every later question. */
  method ResolveAll(folders: Folders, order: seq<nat>, ghost rank: nat -> nat) returns (cache: map<nat, Name>)
    requires Ranked(folders, rank) && Acyclic(folders)
    requires forall c :: c in folders ==> c in order
    ensures CacheSound(folders, cache)
    ensures forall c :: PathOf(folders, c).Some? <==> c in cache
  {
    hide PathOf, PathBy, Ranked, Acyclic;
    cache := map[ROOT_FOLDER := []];
    RootPath(folders, rank);
    for i := 0 to |order|
      invariant CacheSound(folders, cache)
      invariant forall j :: 0 <= j < i && PathOf(folders, order[j]).Some? ==> order[j] in cache
    {
      var path;
      cache, path := GetFolderPath(folders, cache, order[i], rank);
    }
    forall c | PathOf(folders, c).Some? ensures c in cache {
      PathNeedsFolder(folders, rank, c);
      if c != ROOT_FOLDER {
        var j :| 0 <= j < |order| && order[j] == c;
      }
    }
  }
}
