// Creation, removal and rename in the store: when they succeed, what they fail with, and what they change.
module StoreOutcomes {
  import opened ByteStrings
  import opened FreeIds
  import opened Blocks
  import opened Inodes
  import opened Stores
  import opened Directories
  import opened Namespaces
  import opened TreePaths
  import opened Renames
  import opened PathStrings
  import opened Images
  import opened NamespaceOutcomes
  import opened Histories
  import opened Filesystems
  import opened Refinement
  import opened StoreRenames

  /** Snapshots show what they showed. */
  ghost predicate SnapshotsStay(s: Store, s2: Store) {
    forall v :: v in s.versions && v != CURRENT ==> v in s2.versions && View(s2, v) == View(s, v)
  }

  lemma OtherVersions(s: Store, s2: Store, img: Image)
    requires CURRENT in s.versions && Abs(s2) == Abs(s)[CURRENT := img]
    ensures SnapshotsStay(s, s2)
  {
    hide View;
    forall v | v in s.versions && v != CURRENT
      ensures v in s2.versions && View(s2, v) == View(s, v)
    {
      assert v in Abs(s) && v in Abs(s2);
      assert Abs(s2)[v] == Abs(s)[v];
    }
  }

  /** Only the current version has changed, and it shows this. */
  ghost predicate NowShows(s: Store, s2: Store, img: Image) {
    && StoreInv(s2) && s2.bs == s.bs && View(s2, CURRENT) == img
    && s2.versions.Keys == s.versions.Keys && SnapshotsStay(s, s2)
  }

  lemma ShowsFromAbs(s: Store, s2: Store, img: Image)
    requires CURRENT in s.versions && StoreInv(s2) && s2.bs == s.bs && Abs(s2) == Abs(s)[CURRENT := img]
    ensures NowShows(s, s2, img)
  {
    hide StoreInv, View, SnapshotsStay;
    CurrentImage(s, s2, img);
    OtherVersions(s, s2, img);
    AbsVersions(s);
    AbsVersions(s2);
  }

  /** A replaced inode lives on exactly if a snapshot lists it. */
  lemma ReplacedLives(s: Store, s2: Store, img: Image, y: nat)
    requires CURRENT in s.versions && StoreInv(s2) && Abs(s2) == Abs(s)[CURRENT := img] && y !in img
    ensures y in s2.inodes <==> exists v :: v in s.versions && v != CURRENT && y in s.versions[v]
  {
    hide StoreInv, View;
    AbsIds(s2);
    forall v | v in s.versions
      ensures v in Abs(s) && (y in Abs(s)[v] <==> y in s.versions[v])
    {
      ViewListed(s, v, y);
    }
    hide Abs;
    if v :| v in s.versions && v != CURRENT && y in s.versions[v] {
      assert v in Abs(s2) && y in Abs(s2)[v];
    }
    AbsVersions(s);
    if y in s2.inodes {
      var v :| v in Abs(s2) && y in Abs(s2)[v];
      assert v != CURRENT && v in Abs(s);
    }
  }

  lemma AbsVersions(s: Store)
    ensures Abs(s).Keys == s.versions.Keys
  {
    hide View;
  }

  lemma ViewListed(s: Store, v: Version, i: nat)
    requires v in s.versions
    ensures v in Abs(s) && (i in Abs(s)[v] <==> i in s.versions[v])
  {
    hide NodeAt;
  }

  // ---- Creation ----

  /** Nothing else that the current version shows has changed, but for the directory itself. */
  ghost predicate AllButStay(img: Image, img2: Image, dir: nat) {
    forall j :: j in img && j in img2 && j != dir ==> img2[j] == img[j]
  }

  /**
    * make_child_dentry_under_parent in any sound state: the five ways to fail; else the child is found at its path,
    * empty, under the least unused id, and all other paths, nodes and versions are as they were.
    */
  lemma MakeOutcome(s: Store, parent: nat, name: Bytes, isDir: bool)
    requires Inv(s) && !OnlyInSnapshots(Abs(s), parent)
    ensures var g, r := Names(View(s, CURRENT)), StoreMake(s, parent, name, isDir);
            if !Accepted(name) then r == Err(InvalidDentryName)
            else if parent !in g then r == Err(InodeNotFound)
            else if g[parent].File? then r == Err(NotADirectory)
            else if Holds(g, parent, name) then r == Err(DoubleMkPathname)
            else if |s.inodes| == MAX_POOL_SIZE then r == Err(IdDepleted)
            else r.Ok? && (1 <= |name| <= 127 && (parent == 0 ==> name != ".snapshot") ==>
              Made(s, r.value, parent, name, isDir))
  {
    hide Inv, StoreInv, View, GoodImage, Abs, AllIds, OnlyInSnapshots, StoreMake, ImgMake, Accepted, Holds, FreeId,
         Names, Made;
    InvImage(s, CURRENT);
    var img := View(s, CURRENT);
    AbsIds(s);
    AbsCurrent(s);
    MakeExactly(img, parent, name, FreshId(Abs(s)), isDir);
    MakeRefinesStore(s, parent, name, isDir);
    if ImgMake(img, parent, name, FreshId(Abs(s)), isDir).Ok? && 1 <= |name| <= 127
      && (parent == 0 ==> name != ".snapshot") {
      MakeMade(s, parent, name, isDir);
    }
  }

  /** The new child, and everything around it. */
  ghost predicate Made(s: Store, done: Done<Store>, parent: nat, name: Bytes, isDir: bool)
    requires CURRENT in s.versions
  {
    && CURRENT in done.state.versions
    && var img, img2, n := View(s, CURRENT), View(done.state, CURRENT), done.ret;
       && NowShows(s, done.state, img2)
       && n !in s.inodes && |s.inodes| <= n && (forall k :: |s.inodes| <= k < n ==> k in s.inodes)
       && img2.Keys == img.Keys + {n} && AllButStay(img, img2, parent)
       && Entries(Names(img2), parent) == Entries(Names(img), parent) + [Dentry(name, n)]
       && forall p :: Lookup(img, p) == Ok(parent) ==> GrownAt(Names(img), Names(img2), p + [name], n, isDir)
  }

  lemma MakeMade(s: Store, parent: nat, name: Bytes, isDir: bool)
    requires Inv(s) && 1 <= |name| <= 127 && (parent == 0 ==> name != ".snapshot")
    requires FreshId(Abs(s)).Some? && FreshId(Abs(s)).value == FreeId(s.inodes.Keys)
    requires ImgMake(View(s, CURRENT), parent, name, FreshId(Abs(s)), isDir).Ok?
    requires var img2 := ImgMake(View(s, CURRENT), parent, name, FreshId(Abs(s)), isDir).value;
             Matches(s.bs, StoreMake(s, parent, name, isDir), Ok(Done(Abs(s)[CURRENT := img2], FreeId(s.inodes.Keys))))
    ensures StoreMake(s, parent, name, isDir).Ok?
    ensures Made(s, StoreMake(s, parent, name, isDir).value, parent, name, isDir)
  {
    hide Inv, StoreInv, View, GoodImage, Abs, AllIds, StoreMake, ImgMake, FreeId, Names, Entries, NowShows, GrownAt,
         Lookup;
    InvImage(s, CURRENT);
    var img, n := View(s, CURRENT), FreeId(s.inodes.Keys);
    var img2 := ImgMake(img, parent, name, Some(n), isDir).value;
    var s2 := StoreMake(s, parent, name, isDir).value.state;
    ShowsFromAbs(s, s2, img2);
    CurrentImage(s, s2, img2);
    FreshIsNew(s);
    ParentPath(img, parent, name, n, isDir);
    forall p | Lookup(img, p) == Ok(parent)
      ensures GrownAt(Names(img), Names(img2), p + [name], n, isDir)
      ensures img2.Keys == img.Keys + {n} && AllButStay(img, img2, parent)
      ensures Entries(Names(img2), parent) == Entries(Names(img), parent) + [Dentry(name, n)]
    {
      MakeGrows(img, p, parent, name, n, isDir);
    }
  }

  lemma FreshIsNew(s: Store)
    requires Inv(s) && FreshId(Abs(s)).Some?
    ensures FreeId(s.inodes.Keys) !in View(s, CURRENT) && FreeId(s.inodes.Keys) < ID_LIMIT
    ensures |s.inodes.Keys| == |s.inodes|
  {
    hide StoreInv, GoodImage, View, FreeId;
    AbsIds(s);
    AbsCurrent(s);
    FreshIdSmall(Abs(s));
  }

  /** A parent that is a directory of a good image has a path. */
  lemma ParentPath(img: Image, parent: nat, name: Bytes, n: nat, isDir: bool)
    requires GoodImage(img) && ImgMake(img, parent, name, Some(n), isDir).Ok?
    ensures exists p :: Lookup(img, p) == Ok(parent)
  {
    MadeEntries(img, parent, name, n, isDir);
    hide ImgMake, Resolve, Readable;
    assert parent in Names(img);
    var p := NodeHasPath(Names(img), parent);
    assert Lookup(img, p) == Ok(parent);
  }

  // ---- Removal ----

  /** The removed entry and its node are gone, and everything around them is as it was. */
  ghost predicate Gone(s: Store, s2: Store, parent: nat, name: Bytes, target: nat)
    requires CURRENT in s.versions
  {
    && CURRENT in s2.versions
    && var img, img2 := View(s, CURRENT), View(s2, CURRENT);
       && NowShows(s, s2, img2)
       && img2.Keys == img.Keys - {target} && AllButStay(img, img2, parent)
       && Entries(Names(img2), parent) == Without(Entries(Names(img), parent), name)
       && (target in s2.inodes <==> exists v :: v in s.versions && v != CURRENT && target in s.versions[v])
       && forall p :: Lookup(img, p) == Ok(parent) ==>
            && (forall rest :: Lookup(img2, p + [name] + rest).Err?)
            && (forall q :: !(p + [name] <= q) ==> Lookup(img2, q) == Lookup(img, q))
  }

  /**
    * remove_child_dentry_under_parent in any sound state: the four ways to fail; else the path is gone, the inode
    * lives on exactly if a snapshot lists it, and all other paths, nodes and versions are as they were.
    */
  lemma RemoveOutcome(s: Store, parent: nat, name: Bytes)
    requires Inv(s) && !OnlyInSnapshots(Abs(s), parent)
    ensures var g, r := Names(View(s, CURRENT)), StoreRemove(s, parent, name);
            && (parent !in g ==> r == Err(InodeNotFound))
            && (parent in g && g[parent].File? ==> r == Err(NotADirectory))
            && (parent in g && g[parent].Dir? && !Holds(g, parent, name) ==> r == Err(NoSuchFileOrDir))
            && (forall e :: Edge(g, parent, e) && e.name == name ==>
                  if Entries(g, e.id) != [] then r == Err(DirNotEmpty)
                  else r.Ok? && r.value.ret == 0 && Gone(s, r.value.state, parent, name, e.id))
  {
    hide Inv, StoreInv, View, GoodImage, Abs, OnlyInSnapshots, StoreRemove, ImgRemove, Holds, Names, Gone, Entries,
         Edge;
    InvImage(s, CURRENT);
    var img := View(s, CURRENT);
    var g := Names(img);
    RemoveExactly(img, parent, name);
    RemoveRefinesStore(s, parent, name);
    forall e | Edge(g, parent, e) && e.name == name && Entries(g, e.id) == []
      ensures Gone(s, StoreRemove(s, parent, name).value.state, parent, name, e.id)
    {
      RemovedGone(s, parent, name, e.id);
    }
  }

  lemma RemovedGone(s: Store, parent: nat, name: Bytes, target: nat)
    requires Inv(s) && ImgRemove(View(s, CURRENT), parent, name).Ok?
    requires Edge(Names(View(s, CURRENT)), parent, Dentry(name, target))
             && Entries(Names(View(s, CURRENT)), target) == []
    requires var img2 := ImgRemove(View(s, CURRENT), parent, name).value;
             Matches(s.bs, StoreRemove(s, parent, name), Ok(Done(Abs(s)[CURRENT := img2], 0)))
    ensures StoreRemove(s, parent, name).Ok?
    ensures Gone(s, StoreRemove(s, parent, name).value.state, parent, name, target)
  {
    hide Inv, StoreInv, View, GoodImage, Abs, StoreRemove, ImgRemove, Names, Edge, Entries, NowShows, Lookup;
    InvImage(s, CURRENT);
    var img := View(s, CURRENT);
    var img2 := ImgRemove(img, parent, name).value;
    var s2 := StoreRemove(s, parent, name).value.state;
    ShowsFromAbs(s, s2, img2);
    CurrentImage(s, s2, img2);
    DirPath(img, parent, Dentry(name, target));
    forall p | Lookup(img, p) == Ok(parent)
      ensures (forall rest :: Lookup(img2, p + [name] + rest).Err?)
      ensures (forall q :: !(p + [name] <= q) ==> Lookup(img2, q) == Lookup(img, q))
      ensures img2.Keys == img.Keys - {target} && AllButStay(img, img2, parent)
      ensures Entries(Names(img2), parent) == Without(Entries(Names(img), parent), name)
    {
      RemoveShrinks(img, p, parent, name, target);
    }
    ReplacedLives(s, s2, img2, target);
  }

  lemma DirPath(img: Image, parent: nat, e: Dentry)
    requires GoodImage(img) && Edge(Names(img), parent, e)
    ensures exists p :: Lookup(img, p) == Ok(parent)
  {
    hide Resolve, Readable;
    EdgeSource(Names(img));
    var p := NodeHasPath(Names(img), parent);
    assert Lookup(img, p) == Ok(parent);
  }

  // ---- Renaming ----

  /** A rename can start, in terms of the two texts and the current namespace alone. */
  ghost predicate Admissible(g: Graph, path: Bytes, name: Bytes) {
    && CheckReadOnly(path).Ok? && CheckReadOnly(name).Ok?
    && path != [] && path[0] == '/' && Components(path) != [] && Effective(name) != []
    && Resolve(g, ROOT, Effective(path)).Ok?
    && SlotFree(g, Resolve(g, ROOT, Front(Effective(name))), Last(Effective(name)))
  }

  /** The handler gets as far as its first change exactly when the texts and the namespace say so. */
  lemma AdmittedExactly(s: Store, path: Bytes, name: Bytes)
    requires Inv(s)
    ensures Admitted(s, path, name) <==> Admissible(Names(View(s, CURRENT)), path, name)
  {
    hide Inv, View, GoodImage, Names, FreeSlot, SlotFree, Resolve, CheckReadOnly, Effective, Components, Admitted;
    AdmittedEnters(s, path, name);
    NoComponents();
    InvImage(s, CURRENT);
    var img, tgt := View(s, CURRENT), Effective(name);
    if tgt != [] && Lookup(img, Front(tgt)).Ok? {
      FreeSlotExactly(img, Lookup(img, Front(tgt)).value, Last(tgt));
      FoundThere(img, Front(tgt));
      SlotIsDir(Names(img), Lookup(img, Front(tgt)), Last(tgt));
    } else if tgt != [] {
      SlotIsDir(Names(img), Lookup(img, Front(tgt)), Last(tgt));
    }
  }

  lemma SlotIsDir(g: Graph, dir: Result<nat>, name: Bytes)
    ensures SlotFree(g, dir, name) ==> dir.Ok? && dir.value in g && g[dir.value].Dir?
    ensures dir.Ok? ==> Ok(dir.value) == dir
  {
  }

  /** What a rename that cannot start fails with, check by check; it changes nothing. */
  lemma RenameRefused(s: Store, path: Bytes, name: Bytes)
    requires Inv(s) && !Admissible(Names(View(s, CURRENT)), path, name)
    ensures var g, r := Names(View(s, CURRENT)), RenameByPath(s, path, name);
            var src, tgt := Effective(path), Effective(name);
            && r.state == s
            && if CheckReadOnly(path).Err? then r.result == Err(CheckReadOnly(path).error)
               else if CheckReadOnly(name).Err? then r.result == Err(CheckReadOnly(name).error)
               else if path != [] && path[0] != '/' then r.result == Err(InvalidDentryName)
               else if Resolve(g, ROOT, src).Err? then r.result == Err(Resolve(g, ROOT, src).error)
               else if Components(path) == [] || tgt == [] then r.result == Err(InvalidDentryName)
               else
                 var dir := Resolve(g, ROOT, Front(tgt));
                 if dir.Err? then r.result == Err(dir.error)
                 else if dir.value in g && g[dir.value].File? then r.result == Err(NotADirectory)
                 else r.result == Err(DirNotEmpty)
  {
    hide Inv, View, GoodImage, Names, StoreResolve, Resolve, EnterTarget, FreeSlot, SlotFree, CheckReadOnly,
         Effective, Components,
         InodeIdByPath, Print, RenameParsed, Abs, ImgLink;
    if CheckReadOnly(path).Ok? && CheckReadOnly(name).Ok? {
      if path == [] || path[0] == SEPARATOR {
        CheckedRefused(s, path, name);
      } else {
        RelativePath(s, path, Components(path), Components(name));
      }
    }
  }

  lemma CheckedRefused(s: Store, path: Bytes, name: Bytes)
    requires Inv(s) && !Admissible(Names(View(s, CURRENT)), path, name)
    requires CheckReadOnly(path).Ok? && CheckReadOnly(name).Ok? && (path == [] || path[0] == SEPARATOR)
    ensures var g, r := Names(View(s, CURRENT)),
            RenameParsed(s, InodeIdByPath(s, path), Components(path), Components(name));
            var src, tgt := Effective(path), Effective(name);
            && r.state == s
            && if Resolve(g, ROOT, src).Err? then r.result == Err(Resolve(g, ROOT, src).error)
               else if Components(path) == [] || tgt == [] then r.result == Err(InvalidDentryName)
               else
                 var dir := Resolve(g, ROOT, Front(tgt));
                 if dir.Err? then r.result == Err(dir.error)
                 else if dir.value in g && g[dir.value].File? then r.result == Err(NotADirectory)
                 else r.result == Err(DirNotEmpty)
  {
    hide Inv, View, GoodImage, Names, StoreResolve, Resolve, EnterTarget, ClearSource, FreeSlot, SlotFree,
         CheckReadOnly, Effective, Components,
         InodeIdByPath, Print, Abs, ImgLink;
    var img, src, tgt := View(s, CURRENT), Effective(path), Effective(name);
    NoComponents();
    EffectiveNonempty(name);
    LookupChecked(s, path);
    ResolveRefines(s, CURRENT, src);
    if Components(path) != [] && Components(name) != [] && Lookup(img, src).Ok? {
      FrontLookup(s, name);
      if tgt != [] {
        ResolveRefines(s, CURRENT, Front(tgt));
        if Lookup(img, Front(tgt)).Ok? {
          InvImage(s, CURRENT);
          LookupShown(s, Front(tgt));
          FreeSlotExactly(img, Lookup(img, Front(tgt)).value, Last(tgt));
          FoundThere(img, Front(tgt));
          EnterRefines(s, Lookup(img, Front(tgt)).value, Last(tgt), Lookup(img, src).value);
        }
      }
    }
  }
}
