// The names that the filesystem gives a meaning, as texts.
module Texts {
  import opened ByteStrings
  import opened Inodes
  import opened Stores
  import opened Snapshots
  import opened SnapshotInv
  import opened PathStrings
  import opened Images
  import opened Filesystems
  import opened Refinement
  import opened StoreRenames
  import opened Runs
  import opened RenameEffects
  import opened Lookups

  /** A fresh filesystem has one version, "current", with one directory, inode 0, which is empty. */
  lemma FreshIs(bs: nat)
    requires bs > 0
    ensures Abs(Init(bs)) == map["current" := map[0 := Node(true, [])]]
  {
    hide Inv, Abs;
    InitInv(bs);
  }

  /** The version "current" is always there: no snapshot takes its name, and it cannot be deleted. */
  lemma CurrentIsTaken(s: Store)
    requires Inv(s)
    ensures "current" in s.versions && 0 in View(s, "current")
    ensures CreateSnapshot(s, "current") == Err(DoubleSnapshot)
    ensures DeleteSnapshot(s, "current") == Err(NoSuchSnapshot)
  {
    InvStore(s);
    hide Inv, View, BlocksInv, ListsInv;
    RootShown(s);
    CurrentFixed(s);
  }

  lemma CurrentFixed(s: Store)
    requires StoreInv(s)
    ensures CreateSnapshot(s, CURRENT) == Err(DoubleSnapshot) && DeleteSnapshot(s, CURRENT) == Err(NoSuchSnapshot)
  {
    hide BlocksInv, ListsInv, CreateSnapshot, DeleteSnapshot, View;
    CreateSnapshotRefines(s, CURRENT);
    DeleteSnapshotRefines(s, CURRENT);
  }

  function ByDetour(p: Bytes): Bytes {
    "/.snapshot/current" + p
  }

  function Under(v: Bytes, p: Bytes): Bytes {
    "/.snapshot/" + v + p
  }

  /**
    * `/.snapshot/current` in front of an absolute path changes nothing, unless the path itself starts with
    * `.snapshot`.
    */
  lemma DetourLookup(s: Store, p: Bytes)
    requires p == [] || (p[0] == '/' && (Components(p) == [] || Components(p)[0] != ".snapshot"))
    requires Inv(s)
    ensures InodeIdByPath(s, ByDetour(p)) == InodeIdByPath(s, p)
    ensures InodeIdByPath(s, ByDetour("")) == Ok(0)
  {
    hide Inv, InodeIdByPath, Components, Found;
    DetourFound(s, p);
    DetourFound(s, []);
    LookupByPath(s, p);
    NoComponents();
    FoundRoot(s);
  }

  lemma DetourFound(s: Store, p: Bytes)
    requires Inv(s) && (p == [] || p[0] == '/')
    ensures InodeIdByPath(s, ByDetour(p)) == Found(s, Ok((CURRENT, Components(p))))
  {
    hide Inv, InodeIdByPath, Components, Found, Print;
    LookupByPath(s, DETOUR + p);
    DetourPath([]);
    assert DETOUR + Print([]) == DETOUR by { PrintNothing(); }
    SplitDetour(p);
    assert ([".snapshot", "current"] + Components(p))[2..] == Components(p);
  }

  lemma PrintNothing()
    ensures Print([]) == []
  {
  }

  lemma SplitDetour(p: Bytes)
    requires p == [] || p[0] == '/'
    ensures Components(DETOUR + p) == Components(DETOUR) + Components(p)
  {
    ComponentsSplit(DETOUR, p, []);
  }

  lemma FoundRoot(s: Store)
    requires Inv(s)
    ensures Found(s, Ok((CURRENT, []))) == Ok(0)
  {
    hide Inv, View;
    LookupRoot(s, CURRENT);
  }

  /** A path below `/.snapshot/` and a version's name is looked up in that version. */
  lemma SnapshotLookup(s: Store, v: Bytes, p: Bytes)
    requires Inv(s) && v in s.versions && v != "" && '/' !in v && (p == [] || p[0] == '/')
    ensures InodeIdByPath(s, Under(v, p)) == Lookup(View(s, v), Components(p))
  {
    hide Inv, InodeIdByPath, Components, Lookup, View;
    LookupByPath(s, SNAPSHOT_PREFIX + v + p);
    VersionedComponents(p, v);
    assert ([".snapshot", v] + Components(p))[2..] == Components(p);
  }

  /** Any other absolute path is looked up in the current version. */
  lemma PlainLookup(s: Store, p: Bytes)
    requires Inv(s) && p != [] && p[0] == '/' && (Components(p) == [] || Components(p)[0] != ".snapshot")
    ensures "current" in s.versions && InodeIdByPath(s, p) == Lookup(View(s, "current"), Components(p))
  {
    hide Inv, InodeIdByPath, Components, Lookup, View;
    LookupByPath(s, p);
  }
}
