// What a rename by path strings does, for every path that the handler lets through.
module RenameEffects {
  import opened ByteStrings
  import opened FreeIds
  import opened Inodes
  import opened Stores
  import opened Directories
  import opened Namespaces
  import opened Renames
  import opened PathStrings
  import opened Images
  import opened ImageRenames
  import opened NamespaceOutcomes
  import opened Histories
  import opened Filesystems
  import opened Refinement
  import opened StoreRenames
  import opened StoreOutcomes
  import opened Runs

  /** A rename that is not admitted changes nothing. */
  lemma NotAdmitted(s: Store, path: Bytes, name: Bytes)
    requires Inv(s) && !Admitted(s, path, name)
    ensures RenameByPath(s, path, name).result.Err? && RenameByPath(s, path, name).state == s
  {
    hide Inv, View, StoreResolve, Resolve, EnterTarget, ClearSource, FreeSlot, CheckReadOnly, Effective, Components,
         InodeIdByPath, Print, Abs, ImgLink;
    if CheckReadOnly(path).Ok? && CheckReadOnly(name).Ok? && Components(path) != [] && Components(name) != [] {
      var x, t := InodeIdByPath(s, path), InodeIdByPath(s, Print(Front(Components(name))));
      FrontLookup(s, name);
      if x.Ok? && t.Ok? {
        ResolveRefines(s, CURRENT, Front(Effective(name)));
        LookupShown(s, Front(Effective(name)));
        EnterRefines(s, t.value, Last(Components(name)), x.value);
      }
    }
  }

  /** An admitted rename, on the images: that of the simple form, unless the source is the root. */
  lemma AdmittedImage(s: Store, path: Bytes, name: Bytes)
    requires Inv(s) && Admitted(s, path, name) && Effective(path) != []
    requires Effective(name) != [] ==> ValidName(Last(Effective(name)))
    ensures var r, img := RenameByPath(s, path, name), View(s, CURRENT);
            && GoodImage(img) && RenameCheck(img, Effective(path), Effective(name)).Ok?
            && ImgRename(img, Effective(path), Effective(name)).Ok?
            && r.result == Ok(0) && StoreInv(r.state) && r.state.bs == s.bs
            && Abs(r.state) == Abs(s)[CURRENT := ImgRename(img, Effective(path), Effective(name)).value]
  {
    hide Inv, StoreInv, GoodImage, View, Resolve, FreeSlot, CheckReadOnly, Effective, Components, ImgMove,
         RenameByPath, ValidName, Abs,
         Moves, OthersStay, ContentsStay;
    var img, src, tgt := View(s, CURRENT), Effective(path), Effective(name);
    AdmittedEnters(s, path, name);
    hide Admitted;
    InvImage(s, CURRENT);
    RenameByPathRefines(s, path, name);
    assert RenameCheck(img, src, tgt).Ok?;
    RenameRefines(img, src, tgt);
    hide RenameCheck, ImgRename;
    assert ImgRenameByPath(img, path, name) == ImgRename(img, src, tgt);
  }

  /** The invariant hangs on the current image alone. */
  lemma InvIffGood(s: Store, s2: Store, img: Image)
    requires Inv(s) && StoreInv(s2) && Abs(s2) == Abs(s)[CURRENT := img]
    requires GoodImage(img) ==> img.Keys <= View(s, CURRENT).Keys
    ensures Inv(s2) <==> GoodImage(img)
  {
    hide StoreInv, GoodImage, View, AllIds;
    AbsCurrent(s);
    assert Abs(s2)[CURRENT] == img;
    if GoodImage(img) {
      FewerIds(Abs(s), img);
      forall v | v in Abs(s2)
        ensures GoodImage(Abs(s2)[v])
      {
        assert v != CURRENT ==> Abs(s2)[v] == Abs(s)[v];
      }
    }
  }

  lemma FewerIds(h: History, img: Image)
    requires CURRENT in h && img.Keys <= h[CURRENT].Keys
    ensures |AllIds(h[CURRENT := img])| <= |AllIds(h)|
  {
    var h2 := h[CURRENT := img];
    forall i | i in AllIds(h2)
      ensures i in AllIds(h)
    {
      var v :| v in h2 && i in h2[v];
      assert i in h[v];
    }
    Subset(AllIds(h2), AllIds(h));
  }

  /** Everything but the source, the target and what the rename replaces is as it was. */
  ghost predicate RestStays(s: Store, s2: Store, src: Path, tgt: Path)
    requires CURRENT in s.versions && src != [] && tgt != []
  {
    && CURRENT in s2.versions
    && var img, img2 := View(s, CURRENT), View(s2, CURRENT);
       && (forall rest :: Lookup(img2, src + rest).Err?)
       && OthersStay(Names(img), Names(img2), src, tgt)
       && ContentsStay(img, img2, src, tgt) && EntriesMoved(Names(img), Names(img2), src, tgt)
       && forall y :: y in ReplacedIds(img, tgt) ==>
            (y in s2.inodes <==> exists v :: v in s.versions && v != CURRENT && y in s.versions[v])
  }

  /**
    * do_rename, for every pair of paths. It fails without a change, or the texts and the namespace let it start; then
    * the subtree moves exactly when the target does not lie at or below the source, the state stays sound exactly
    * when the target does not lie below the source and does not shadow the snapshot entry, and the caller is told of
    * an error exactly when the source is the root, named by `/.snapshot/current`. Snapshots stay in any case. Sources
    * and targets are what the paths address, not how they are written.
    */
  lemma RenameEffect(s: Store, path: Bytes, name: Bytes)
    requires Reachable(s)
    requires Effective(name) != [] ==> ValidName(Last(Effective(name)))
    ensures var r, src, tgt := RenameByPath(s, path, name), Effective(path), Effective(name);
            if !Admissible(Names(View(s, CURRENT)), path, name) then r.result.Err? && r.state == s
            else
              && tgt != [] && CURRENT in r.state.versions
              && (r.result.Ok? <==> src != [])
              && (Moves(Names(View(s, CURRENT)), Names(View(r.state, CURRENT)), src, tgt) <==> !(src <= tgt))
              && (Inv(r.state) <==> !(src < tgt) && tgt != [SNAPSHOT_ENTRY])
              && (src != [] ==> RestStays(s, r.state, src, tgt))
              && SnapshotsStay(s, r.state)
  {
    hide Reachable, Inv, StoreInv, View, GoodImage, Names, ValidName, Effective, Admitted, Admissible, RenameByPath,
         Moves,
         RestStays, SnapshotsStay, Abs,
         FreeSlot, ImgLink, ImgRename, Lookup;
    ReachableInv(s);
    AdmittedExactly(s, path, name);
    if !Admitted(s, path, name) {
      NotAdmitted(s, path, name);
    } else if Effective(path) == [] {
      RootOutcome(s, path, name);
    } else {
      MoveOutcome(s, path, name);
    }
  }

  lemma RootOutcome(s: Store, path: Bytes, name: Bytes)
    requires Inv(s) && Admitted(s, path, name) && Effective(path) == []
    requires Effective(name) != [] ==> ValidName(Last(Effective(name)))
    ensures var r, tgt := RenameByPath(s, path, name), Effective(name);
            && tgt != [] && CURRENT in r.state.versions
            && r.result.Err? && !Inv(r.state) && SnapshotsStay(s, r.state)
            && !Moves(Names(View(s, CURRENT)), Names(View(r.state, CURRENT)), [], tgt)
  {
    hide Inv, StoreInv, View, Names, ValidName, Effective, Admitted, RenameByPath, Moves, SnapshotsStay, Abs,
         FreeSlot, ImgLink,
         Resolve, Tree;
    var img := RootEffect(s, path, name);
    var r, tgt := RenameByPath(s, path, name), Effective(name);
    InvImage(s, CURRENT);
    hide GoodImage;
    CurrentShown(r.state);
    CurrentImage(s, r.state, img);
    OtherVersions(s, r.state, img);
    RootNotMoved(Names(View(s, CURRENT)), Names(View(r.state, CURRENT)), tgt);
    if Inv(r.state) { InvImage(r.state, CURRENT); }
  }

  lemma CurrentShown(s: Store)
    requires StoreInv(s)
    ensures CURRENT in s.versions
  {
  }

  lemma MoveOutcome(s: Store, path: Bytes, name: Bytes)
    requires Inv(s) && Admitted(s, path, name) && Effective(path) != []
    requires Effective(name) != [] ==> ValidName(Last(Effective(name)))
    ensures var r, src, tgt := RenameByPath(s, path, name), Effective(path), Effective(name);
            && tgt != [] && CURRENT in r.state.versions
            && r.result.Ok? && SnapshotsStay(s, r.state)
            && (Moves(Names(View(s, CURRENT)), Names(View(r.state, CURRENT)), src, tgt) <==> !(src <= tgt))
            && (Inv(r.state) <==> !(src < tgt) && tgt != [SNAPSHOT_ENTRY])
            && RestStays(s, r.state, src, tgt)
  {
    hide Inv, StoreInv, GoodImage, View, Names, ValidName, Effective, Admitted, RenameByPath, Moves, OthersStay,
         SnapshotsStay, Abs, ImgRename,
         Resolve, RenameCheck, ReplacedIds;
    AdmittedImage(s, path, name);
    var r, img, src, tgt := RenameByPath(s, path, name), View(s, CURRENT), Effective(path), Effective(name);
    var img2 := ImgRename(img, src, tgt).value;
    RenameRefines(img, src, tgt);
    RenameEntries(img, src, tgt);
    CurrentShown(r.state);
    CurrentImage(s, r.state, img2);
    OtherVersions(s, r.state, img2);
    InvIffGood(s, r.state, img2);
    forall y | y in ReplacedIds(img, tgt)
      ensures y in r.state.inodes <==> exists v :: v in s.versions && v != CURRENT && y in s.versions[v]
    {
      ReplacedLives(s, r.state, img2, y);
    }
  }

  // ---- Two renames that go wrong ----

  /** Any path of the current version can also be written with the detour. */
  lemma DetourPath(cs: Path)
    requires AllProper(cs)
    ensures Components(DETOUR + Print(cs)) == [SNAPSHOT_ENTRY, CURRENT] + cs
    ensures CheckReadOnly(DETOUR + Print(cs)).Ok? && Effective(DETOUR + Print(cs)) == cs
  {
    hide ComponentsFrom, Components, CheckReadOnly;
    var head: Path := [SNAPSHOT_ENTRY, CURRENT];
    DetourPrinted();
    PrintAppend(head, cs);
    ParsePrint(head + cs);
    CheckedAddress(DETOUR + Print(cs));
    assert (head + cs)[2..] == cs;
  }

  lemma DetourPrinted()
    ensures Print([SNAPSHOT_ENTRY, CURRENT]) == DETOUR
  {
    PrintAppend([SNAPSHOT_ENTRY], [CURRENT]);
    PrintOne(SNAPSHOT_ENTRY);
    PrintOne(CURRENT);
    DetourText();
    assert [SNAPSHOT_ENTRY] + [CURRENT] == [SNAPSHOT_ENTRY, CURRENT];
    Joins([SEPARATOR] + SNAPSHOT_ENTRY, [SEPARATOR], CURRENT);
  }

  lemma PrintOne(c: Component)
    requires Proper(c)
    ensures Print([c]) == [SEPARATOR] + c
  {
    assert Print([c][1..]) == [];
  }

  lemma PlainPath(c: Component)
    requires Proper(c) && c != SNAPSHOT_ENTRY
    ensures Components([SEPARATOR] + c) == [c]
    ensures CheckReadOnly([SEPARATOR] + c).Ok? && Effective([SEPARATOR] + c) == [c]
  {
    hide ComponentsFrom, Components, CheckReadOnly, Print;
    PrintOne(c);
    ParsePrint([c]);
    CheckedAddress([SEPARATOR] + c);
  }

  /** The current image of a fresh filesystem after its root has been renamed to `/x`. */
  const Looped: Graph := map[ROOT := Dir([Dentry("x", ROOT)])]

  /**
    * Renaming `/.snapshot/current` fails with an error, and the root is left containing itself: paths of any length
    * lead to it.
    */
  lemma RootInItself(bs: nat, n: nat)
    requires bs > 0
    ensures var r := RenameByPath(Init(bs), DETOUR, "/x");
            && r.result == Err(InvalidDentryName)
            && CURRENT in r.state.versions
            && Names(View(r.state, CURRENT)) == Looped
            && Lookup(View(r.state, CURRENT), seq(n, _ => "x")) == Ok(ROOT)
            && !Inv(r.state)
  {
    hide Inv, Abs, View, Init, RenameByPath, EnterTarget, StoreResolve, FreeSlot, ImgLink, Resolve, Names;
    var s := Init(bs);
    InitInv(bs);
    AbsCurrent(s);
    RenamedRoot(s);
    RootResolvesHere(s);
    var img := View(s, CURRENT);
    RootLinked(img);
    EnterRefines(s, ROOT, "x", ROOT);
    var img2 := ImgLink(img, ROOT, "x", ROOT).value;
    CurrentImage(s, EnterTarget(s, ROOT, "x", ROOT).state, img2);
    LoopLookup(n);
    NoGoodLoop(img2);
    if Inv(EnterTarget(s, ROOT, "x", ROOT).state) { InvImage(EnterTarget(s, ROOT, "x", ROOT).state, CURRENT); }
  }

  lemma NoGoodLoop(img: Image)
    requires Names(img) == Looped
    ensures !GoodImage(img)
  {
    assert Edge(Looped, ROOT, Dentry("x", ROOT));
    RootNoEntry(img, ROOT, "x");
  }

  lemma RenamedRoot(s: Store)
    requires s.bs > 0 && CURRENT in s.versions
    ensures RenameByPath(s, DETOUR, "/x") == RootEntered(s, ["x"])
  {
    hide Components, Effective, CheckReadOnly, RenameByPath, RootEntered;
    DetourPath([]);
    assert DETOUR + Print([]) == DETOUR;
    PlainPath("x");
    assert "/x" == [SEPARATOR] + "x";
    RootSource(s, DETOUR, "/x");
  }

  lemma RootLinked(img: Image)
    requires img == map[ROOT := Node(true, [])]
    ensures FreeSlot(img, ROOT, "x") == Ok(img) && ImgLink(img, ROOT, "x", ROOT).Ok?
    ensures Names(ImgLink(img, ROOT, "x", ROOT).value) == Looped
  {
    var es := [Dentry("x", ROOT)];
    EmptyRoot(img);
    hide OpenDir, Names, Encode, DecodeAll;
    ListStored(es);
    SaveNames(img, ROOT, es);
    assert [] + es == es;
  }

  lemma EmptyRoot(img: Image)
    requires img == map[ROOT := Node(true, [])]
    ensures OpenDir(img, ROOT) == Ok([]) && Names(img) == map[ROOT := Dir([])]
  {
  }

  lemma {:induction false} LoopLookup(n: nat)
    ensures Resolve(Looped, ROOT, seq(n, _ => "x")) == Ok(ROOT)
  {
    if n > 0 {
      var p: Path := seq(n, _ => "x");
      assert p[1..] == seq(n - 1, _ => "x");
      LoopLookup(n - 1);
    }
  }

  /** A fresh filesystem with one file in its root. */
  ghost function OneFile(bs: nat): (s: Store)
    requires bs > 0
    ensures s.bs > 0 && CURRENT in s.versions
  {
    assert Reachable(Next(Init(bs), MakeChild(ROOT, "a", false))) by { OneFileReachable(bs); }
    Next(Init(bs), MakeChild(ROOT, "a", false))
  }

  lemma OneFileInv(bs: nat)
    requires bs > 0
    ensures Reachable(OneFile(bs)) && OneFile(bs).versions.Keys == {CURRENT}
    ensures Names(View(OneFile(bs), CURRENT)) == map[ROOT := Dir([Dentry("a", 1)]), 1 := File]
  {
    hide Inv, Abs, View, Init, Apply, Names, StoreMake, Legal, AbsNext;
    OneFileReachable(bs);
    AbsVersions(OneFile(bs));
    AbsCurrent(OneFile(bs));
  }

  lemma OneFileReachable(bs: nat)
    requires bs > 0
    ensures var s := Next(Init(bs), MakeChild(ROOT, "a", false));
            && Reachable(s) && Abs(s).Keys == {CURRENT}
            && Names(Abs(s)[CURRENT]) == map[ROOT := Dir([Dentry("a", 1)]), 1 := File]
  {
    hide Inv, Abs, View, Next, Names, Legal, AbsNext, Reachable;
    var s, op := Init(bs), MakeChild(ROOT, "a", false);
    InitInv(bs);
    MadeFile(bs, Abs(s));
    NextInv(s, op);
    InitReachable(bs);
    ReachableNext(s, op);
  }

  lemma MadeFile(bs: nat, h: History)
    requires bs > 0 && h == map[CURRENT := map[ROOT := Node(true, [])]]
    ensures Legal(h, MakeChild(ROOT, "a", false))
    ensures var h2 := AbsNext(bs, h, MakeChild(ROOT, "a", false));
            && h2.Keys == {CURRENT}
            && Names(h2[CURRENT]) == map[ROOT := Dir([Dentry("a", 1)]), 1 := File]
  {
    hide OpenDir, Names, Encode, DecodeAll, AllIds, FreeId, ValidName, Find;
    var img: Image := h[CURRENT];
    OneId(img);
    FreeIdIsLeast({ROOT}, 1);
    var es := [Dentry("a", 1)];
    EmptyRoot(img);
    ShortNames();
    ListStored(es);
    EmptyNames(img[1 := Node(false, [])]);
    SaveNames(img[1 := Node(false, [])], ROOT, es);
    assert [] + es == es;
  }

  lemma ShortNames()
    ensures ValidName("a") && ValidName("x") && Find([], "a") == None && Find([], "x") == None
  {
  }

  lemma EmptyNames(img: Image)
    requires img == map[ROOT := Node(true, []), 1 := Node(false, [])]
    ensures Names(img) == map[ROOT := Dir([]), 1 := File]
  {
  }

  /** Renaming a file to its own path, written in another way, removes it; the caller is told that all went well. */
  lemma FileLost(bs: nat)
    requires bs > 0
    ensures var s := OneFile(bs);
            var r := RenameByPath(s, "/a", DETOUR + "/a");
            && Reachable(s) && Lookup(View(s, CURRENT), ["a"]) == Ok(1)
            && Components("/a") != Components(DETOUR + "/a")
            && r.result.Ok? && Inv(r.state)
            && Lookup(View(r.state, CURRENT), ["a"]).Err? && 1 !in r.state.inodes
  {
    hide Inv, Reachable, View, OneFile, RenameByPath, Components, Effective, CheckReadOnly, Names, Resolve,
         ReplacedIds, Moves, OthersStay,
         ContentsStay, SnapshotsStay, Admitted, Admissible, Enters;
    var s := OneFile(bs);
    OneFileInv(bs);
    ReachableInv(s);
    PlainPath("a");
    assert "/a" == [SEPARATOR] + "a";
    DetourPath(["a"]);
    PrintOne("a");
    OneFileEnters(s, "a");
    AdmittedEnters(s, "/a", DETOUR + "/a");
    AdmittedExactly(s, "/a", DETOUR + "/a");
    RenameEffect(s, "/a", DETOUR + "/a");
    assert ["a"] + [] == ["a"];
  }

  lemma OneFileEnters(s: Store, name: Bytes)
    requires Inv(s) && Names(View(s, CURRENT)) == map[ROOT := Dir([Dentry(name, 1)]), 1 := File]
    ensures Enters(s, [name], [name]) && Lookup(View(s, CURRENT), [name]) == Ok(1)
            && ReplacedIds(View(s, CURRENT), [name]) == {1}
  {
    hide Inv, View, Names, GoodImage, FreeSlot, Lookup, ReplacedIds;
    InvImage(s, CURRENT);
    FileSlots(View(s, CURRENT), name);
  }

  lemma FileSlots(img: Image, name: Bytes)
    requires GoodImage(img) && Names(img) == map[ROOT := Dir([Dentry(name, 1)]), 1 := File]
    ensures Lookup(img, [name]) == Ok(1) && Lookup(img, Front([name])) == Ok(ROOT)
    ensures FreeSlot(img, ROOT, Last([name])).Ok? && ReplacedIds(img, [name]) == {1}
  {
    FilePaths(Names(img), name);
    FileFreed(img, name);
    hide GoodImage, Names, FreeSlot, Resolve;
    assert Front([name]) == [];
  }

  lemma FilePaths(g: Graph, name: Bytes)
    requires g == map[ROOT := Dir([Dentry(name, 1)]), 1 := File]
    ensures Resolve(g, ROOT, [name]) == Ok(1) && Resolve(g, ROOT, []) == Ok(ROOT)
  {
    assert [name][1..] == [];
  }

  lemma FileFreed(img: Image, name: Bytes)
    requires GoodImage(img) && Names(img) == map[ROOT := Dir([Dentry(name, 1)]), 1 := File]
    ensures FreeSlot(img, ROOT, name).Ok? && RemovalTarget(img, ROOT, name) == Ok(1) && ImgRemove(img, ROOT, name).Ok?
  {
    OpenIsEntries(img, ROOT);
    OpenIsEntries(img, 1);
    hide GoodImage, Names, OpenDir, Encode, RemoveName;
  }
}
