// do_rename in the store: its lookups, its two halves, and what it does to the history.
module StoreRenames {
  import opened ByteStrings
  import opened Inodes
  import opened Stores
  import opened Directories
  import opened Namespaces
  import opened TreePaths
  import opened Renames
  import opened PathStrings
  import opened Images
  import opened ImageRenames
  import opened Histories
  import opened Filesystems
  import opened Refinement

  // ---- Entering and clearing a name ----

  lemma LinkRefinesStore(s: Store, i: nat, name: Bytes, x: nat)
    requires StoreInv(s) && i in View(s, CURRENT)
    ensures var r := StoreLink(s, i, name, x);
            match ImgLink(View(s, CURRENT), i, name, x)
            case Err(e) => r == Err(e)
            case Ok(img) => r.Ok? && StoreInv(r.value) && r.value.bs == s.bs && Abs(r.value) == Abs(s)[CURRENT := img]
  {
    hide StoreInv, View, OpenInode, Encode, StoreSave;
    OpenIsOpenDir(s, i, CURRENT);
    var es := OpenDir(View(s, CURRENT), i);
    if es.Ok? {
      OpenIsDir(View(s, CURRENT), i);
      SaveRefines(s, i, es.value + [Dentry(name, x)]);
    }
  }

  lemma UnlinkRefinesStore(s: Store, i: nat, name: Bytes)
    requires StoreInv(s) && i in View(s, CURRENT)
    ensures var r := StoreUnlink(s, i, name);
            match ImgUnlink(View(s, CURRENT), i, name)
            case Err(e) => r == Err(e)
            case Ok(img) => r.Ok? && StoreInv(r.value) && r.value.bs == s.bs && Abs(r.value) == Abs(s)[CURRENT := img]
  {
    hide StoreInv, View, OpenInode, Encode, StoreSave, RemoveName;
    OpenIsOpenDir(s, i, CURRENT);
    var es := OpenDir(View(s, CURRENT), i);
    if es.Ok? {
      OpenIsDir(View(s, CURRENT), i);
      SaveRefines(s, i, RemoveName(es.value, name));
    }
  }

  lemma LookupShown(s: Store, path: Path)
    requires Inv(s) && Lookup(View(s, CURRENT), path).Ok?
    ensures Lookup(View(s, CURRENT), path).value in View(s, CURRENT)
  {
    var img := View(s, CURRENT);
    assert img == Abs(s)[CURRENT] && GoodImage(img);
    SamePath(Names(img), path, path);
  }

  lemma CurrentImage(s: Store, s2: Store, img: Image)
    requires CURRENT in s.versions && StoreInv(s2) && Abs(s2) == Abs(s)[CURRENT := img]
    ensures CURRENT in s2.versions && View(s2, CURRENT) == img
  {
    hide StoreInv, View;
    assert Abs(s2)[CURRENT] == View(s2, CURRENT);
  }

  // ---- The two halves ----

  /** The first half of a rename: it fails without a change, or what is in the way goes and the entry is made. */
  lemma EnterRefines(s: Store, t: nat, name: Bytes, x: nat)
    requires Inv(s) && t in View(s, CURRENT)
    ensures StoreInv(EnterTarget(s, t, name, x).state)
    ensures var r := EnterTarget(s, t, name, x);
            match FreeSlot(View(s, CURRENT), t, name)
            case Err(e) => r == Reply(Err(e), s)
            case Ok(img1) =>
              var img2 := ImgLink(img1, t, name, x);
              img2.Ok? && r.result == Ok(0) && Abs(r.state) == Abs(s)[CURRENT := img2.value]
  {
    hide Inv, StoreInv, GoodImage, View, Abs, StoreLink, StoreRemove, ImgRemove, OpenDir, Find, Save;
    var img := View(s, CURRENT);
    InvImage(s, CURRENT);
    if FreeSlot(img, t, name).Ok? { FreedSlot(img, t, name, x); }
    AbsCurrent(s);
    ShownParent(s, t);
    LinkRefinesStore(s, t, name, x);
    var es := OpenDir(img, t);
    if es.Err? {
      OpenErrors(img, t);
    } else if Find(es.value, name).Some? {
      RemoveRefinesStore(s, t, name);
      if ImgRemove(img, t, name).Ok? {
        var s1 := StoreRemove(s, t, name).value.state;
        CurrentImage(s, s1, ImgRemove(img, t, name).value);
        ParentStays(s, t, name);
        LinkRefinesStore(s1, t, name, x);
      }
    }
  }

  lemma OpenErrors(img: Image, i: nat)
    ensures OpenDir(img, i) != Err(DoubleMkPathname)
  {
  }

  lemma ShownParent(s: Store, i: nat)
    requires StoreInv(s) && i in View(s, CURRENT)
    ensures !OnlyInSnapshots(Abs(s), i)
  {
    hide StoreInv, View;
    AbsCurrent(s);
  }

  lemma ParentStays(s: Store, t: nat, name: Bytes)
    requires Inv(s) && ImgRemove(View(s, CURRENT), t, name).Ok?
    ensures t in ImgRemove(View(s, CURRENT), t, name).value
  {
    hide Inv, View, GoodImage, ImgRemove;
    InvImage(s, CURRENT);
    RemoveContents(View(s, CURRENT), t, name);
  }

  /** The source's old entry can be found and cleared. */
  ghost predicate MoveReady(img2: Image, src: Path) {
    && src != [] && Readable(img2)
    && var p := Lookup(img2, Front(src));
       p.Ok? && ImgUnlink(img2, p.value, Last(src)).Ok?
  }

  lemma RenameImages(img: Image, src: Path, tgt: Path)
    requires GoodImage(img) && RenameCheck(img, src, tgt).Ok? && ValidName(Last(tgt))
    ensures var (x, t, img1) := RenameCheck(img, src, tgt).value;
            && t in img && ImgLink(img1, t, Last(tgt), x).Ok?
            && MoveReady(ImgLink(img1, t, Last(tgt), x).value, src)
            && ImgRename(img, src, tgt).Ok? && ImgRename(img, src, tgt) == ImgMove(img1, src, t, Last(tgt), x)
  {
    var g := Names(img);
    var (x, t, img1) := RenameCheck(img, src, tgt).value;
    var from, to := SourceSlot(img, src), Slot(t, Last(tgt));
    CheckFacts(img, src, tgt);
    RenameGoesThrough(img, src, tgt);
    LinkedAgrees(g, src, tgt, from, x, to);
    MovedInodeSmall(img, src, x);
    hide Tree, Readable, Resolve, Find, RenameCheck, ValidName, Cleared, ImgLink, ImgUnlink;
    LinkRefines(img1, t, Last(tgt), x);
  }

  /** The second half of a rename clears the source. */
  lemma ClearSourceRefines(s: Store, src: Path)
    requires StoreInv(s) && MoveReady(View(s, CURRENT), src)
    ensures var img := View(s, CURRENT);
            var r := ClearSource(s, StoreResolve(s, CURRENT, ROOT, Front(src)), Last(src));
            && r.result == Ok(0) && StoreInv(r.state) && r.state.bs == s.bs
            && Abs(r.state) == Abs(s)[CURRENT := ImgUnlink(img, Lookup(img, Front(src)).value, Last(src)).value]
  {
    hide StoreInv, View, Abs, StoreUnlink, StoreResolve, Readable, OpenDir, Resolve;
    var img := View(s, CURRENT);
    RootShown(s);
    ResolveFound(s, CURRENT, ROOT, Front(src));
    var p := Lookup(img, Front(src)).value;
    OpenIsDir(img, p);
    UnlinkRefinesStore(s, p, Last(src));
  }

  lemma RootShown(s: Store)
    requires StoreInv(s)
    ensures ROOT in View(s, CURRENT)
  {
    hide BlocksInv;
    assert ListOk(s, CURRENT);
  }

  /** A rename in the store is the rename of the image of the current version, wherever the target is. */
  lemma RenameRefinesStore(s: Store, src: Path, tgt: Path)
    requires Inv(s) && (tgt != [] ==> ValidName(Last(tgt)))
    ensures Follows(s, StoreRename(s, src, tgt), OnCurrent(Abs(s), ImgRename(View(s, CURRENT), src, tgt), 0))
  {
    hide Inv, StoreInv, View, Abs, StoreResolve, Resolve, EnterTarget, ClearSource, FreeSlot, ImgMove, ValidName;
    var img := View(s, CURRENT);
    ResolveRefines(s, CURRENT, src);
    if Lookup(img, src).Ok? && src != [] && tgt != [] {
      ResolveRefines(s, CURRENT, Front(tgt));
      if Lookup(img, Front(tgt)).Ok? {
        LookupShown(s, Front(tgt));
        EnterRefines(s, Lookup(img, Front(tgt)).value, Last(tgt), Lookup(img, src).value);
        if RenameCheck(img, src, tgt).Ok? { CheckedRename(s, src, tgt); }
      }
    }
  }

  /** The checks have passed: the store and the image move on in step. */
  lemma CheckedRename(s: Store, src: Path, tgt: Path)
    requires Inv(s) && RenameCheck(View(s, CURRENT), src, tgt).Ok? && ValidName(Last(tgt))
    requires StoreResolve(s, CURRENT, ROOT, src) == Lookup(View(s, CURRENT), src)
    requires StoreResolve(s, CURRENT, ROOT, Front(tgt)) == Lookup(View(s, CURRENT), Front(tgt))
    ensures Follows(s, StoreRename(s, src, tgt), OnCurrent(Abs(s), ImgRename(View(s, CURRENT), src, tgt), 0))
  {
    hide Inv, StoreInv, View, Abs, StoreResolve, Resolve, EnterTarget, ClearSource, FreeSlot, ImgLink, ImgUnlink,
         ValidName, MoveReady;
    var img := View(s, CURRENT);
    var (x, t, img1) := RenameCheck(img, src, tgt).value;
    InvImage(s, CURRENT);
    RenameImages(img, src, tgt);
    EnterRefines(s, t, Last(tgt), x);
    var img2 := ImgLink(img1, t, Last(tgt), x).value;
    var s2 := EnterTarget(s, t, Last(tgt), x).state;
    CurrentImage(s, s2, img2);
    ClearSourceRefines(s2, src);
    var img3 := ImgRename(img, src, tgt).value;
    assert Abs(s)[CURRENT := img2][CURRENT := img3] == Abs(s)[CURRENT := img3];
  }

  // ---- Path strings ----

  /** Looking up a printed list of components looks up what they address in the current version. */
  lemma LookupPrinted(s: Store, cs: Path)
    requires AllProper(cs)
    ensures Addressed(cs).Err? ==> InodeIdByPath(s, Print(cs)) == Err(Addressed(cs).error)
    ensures Addressed(cs).Ok? && Addressed(cs).value.0 == CURRENT ==>
              InodeIdByPath(s, Print(cs)) == StoreResolve(s, CURRENT, ROOT, Addressed(cs).value.1)
  {
    ParsePrint(cs);
    PrintStarts(cs);
    IfSnapshotAddresses(Print(cs));
    hide IfSnapshot, Components, Print;
  }

  lemma LookupChecked(s: Store, path: Bytes)
    requires CheckReadOnly(path).Ok? && (path == [] || path[0] == SEPARATOR)
    ensures InodeIdByPath(s, path) == StoreResolve(s, CURRENT, ROOT, Effective(path))
  {
    IfSnapshotAddresses(path);
    assert path == [] ==> Components(path) == [];
    RootResolvesHere(s);
    hide IfSnapshot, Components;
  }

  /** Taking the last name off a path takes it off what the path addresses. */
  lemma AddressedFront(cs: Path)
    requires Addressed(cs).Ok? && Addressed(cs).value.1 != []
    ensures cs != [] && Last(cs) == Last(Addressed(cs).value.1)
    ensures Addressed(Front(cs)) == Ok((Addressed(cs).value.0, Front(Addressed(cs).value.1)))
  {
    if cs[0] == SNAPSHOT_ENTRY {
      assert Front(cs)[2..] == Front(cs[2..]);
    } else {
      assert Front(cs) != [] ==> Front(cs)[0] == cs[0];
    }
  }

  lemma FrontLookup(s: Store, path: Bytes)
    requires CheckReadOnly(path).Ok? && Components(path) != []
    ensures InodeIdByPath(s, Print(Front(Components(path)))) ==
            if Effective(path) == [] then Err(InvalidDentryName)
              else StoreResolve(s, CURRENT, ROOT, Front(Effective(path)))
    ensures Effective(path) != [] ==> Last(Components(path)) == Last(Effective(path))
  {
    var cs := Components(path);
    CheckedAddress(path);
    ComponentsProper(path, []);
    hide Components, InodeIdByPath, Print, CheckReadOnly;
    LookupPrinted(s, Front(cs));
    if Effective(path) != [] { AddressedFront(cs); }
  }

  /** The source is the detour `/.snapshot/current` itself, which stands for the root. */
  ghost predicate RootBySnapshot(path: Bytes) {
    Components(path) != [] && Effective(path) == []
  }

  /** On checked paths, but for that source, the handler's lookups are lookups of what the paths address. */
  lemma RenameByPathIs(s: Store, path: Bytes, name: Bytes)
    requires s.bs > 0 && CURRENT in s.versions
    requires CheckReadOnly(path).Ok? && CheckReadOnly(name).Ok? && (path == [] || path[0] == SEPARATOR)
    requires RootBySnapshot(path) ==> Effective(name) == []
    ensures RenameByPath(s, path, name) == StoreRename(s, Effective(path), Effective(name))
  {
    hide InodeIdByPath, StoreResolve, EnterTarget, ClearSource, CheckReadOnly, Print, Components;
    LookupChecked(s, path);
    EffectiveNonempty(path);
    EffectiveNonempty(name);
    RootResolvesHere(s);
    hide Effective;
    if Components(path) != [] && Components(name) != [] {
      FrontLookup(s, name);
      if Effective(name) != [] && StoreResolve(s, CURRENT, ROOT, Effective(path)).Ok? {
        AfterEntering(s, path, name);
      }
    }
  }

  lemma RootResolvesHere(s: Store)
    ensures StoreResolve(s, CURRENT, ROOT, []) == Ok(ROOT)
  {
  }

  lemma AfterEntering(s: Store, path: Bytes, name: Bytes)
    requires s.bs > 0 && CURRENT in s.versions && Components(path) != [] && Components(name) != []
             && Effective(path) != [] && Effective(name) != []
    requires CheckReadOnly(path).Ok? && CheckReadOnly(name).Ok?
    requires StoreResolve(s, CURRENT, ROOT, Effective(path)).Ok?
    ensures RenameParsed(s, StoreResolve(s, CURRENT, ROOT, Effective(path)), Components(path), Components(name)) ==
            StoreRename(s, Effective(path), Effective(name))
  {
    hide InodeIdByPath, StoreResolve, EnterTarget, ClearSource, CheckReadOnly, Print, Components, Effective;
    FrontLookup(s, name);
    var t := StoreResolve(s, CURRENT, ROOT, Front(Effective(name)));
    if t.Ok? {
      var x := StoreResolve(s, CURRENT, ROOT, Effective(path)).value;
      FrontLookup(EnterTarget(s, t.value, Last(Effective(name)), x).state, path);
    }
  }

  /** A rename by path is the rename of the image, but for a source that is the root by its detour. */
  lemma RenameByPathRefines(s: Store, path: Bytes, name: Bytes)
    requires Inv(s)
    requires CheckReadOnly(path).Ok? && CheckReadOnly(name).Ok? ==>
               && (Effective(name) != [] ==> ValidName(Last(Effective(name))))
               && (RootBySnapshot(path) ==> Effective(name) == [])
    ensures Follows(s, RenameByPath(s, path, name), OnCurrent(Abs(s), ImgRenameByPath(View(s, CURRENT), path, name), 0))
  {
    hide Inv, StoreInv, View, Abs, RenameParsed, StoreRename, ImgRename, CheckReadOnly, Effective, ValidName,
         RootBySnapshot, Components;
    if CheckReadOnly(path).Ok? && CheckReadOnly(name).Ok? {
      if path == [] || path[0] == SEPARATOR {
        RenameByPathIs(s, path, name);
        RenameRefinesStore(s, Effective(path), Effective(name));
      } else {
        RelativePath(s, path, Components(path), Components(name));
      }
    }
  }

  lemma RelativePath(s: Store, path: Bytes, cs: Path, ct: Path)
    requires s.bs > 0 && CURRENT in s.versions && path != [] && path[0] != SEPARATOR
    ensures RenameParsed(s, InodeIdByPath(s, path), cs, ct) == Reply(Err(InvalidDentryName), s)
  {
    hide EnterTarget, ClearSource;
  }

  /** The handler gets as far as its first change. */
  ghost predicate Admitted(s: Store, path: Bytes, name: Bytes)
    requires s.bs > 0 && CURRENT in s.versions
  {
    && CheckReadOnly(path).Ok? && CheckReadOnly(name).Ok?
    && Components(path) != [] && Components(name) != []
    && var x, t := InodeIdByPath(s, path), InodeIdByPath(s, Print(Front(Components(name))));
       x.Ok? && t.Ok? && EnterTarget(s, t.value, Last(Components(name)), x.value).result.Ok?
  }

  /** What is admitted, in terms of what the paths address. */
  ghost predicate Enters(s: Store, src: Path, tgt: Path)
    requires s.bs > 0 && CURRENT in s.versions
  {
    var img := View(s, CURRENT);
    && tgt != [] && Lookup(img, src).Ok?
    && var t := Lookup(img, Front(tgt));
       t.Ok? && FreeSlot(img, t.value, Last(tgt)).Ok?
  }

  lemma AdmittedEnters(s: Store, path: Bytes, name: Bytes)
    requires Inv(s)
    ensures Admitted(s, path, name) <==>
              && CheckReadOnly(path).Ok? && CheckReadOnly(name).Ok? && Components(path) != [] && path[0] == SEPARATOR
              && Enters(s, Effective(path), Effective(name))
  {
    hide Inv, StoreInv, View, StoreResolve, Resolve, EnterTarget, FreeSlot, CheckReadOnly, Effective, Components,
         InodeIdByPath, Print;
    if CheckReadOnly(path).Ok? && CheckReadOnly(name).Ok? && Components(path) != [] {
      NoComponents();
      EffectiveNonempty(name);
      if path[0] == SEPARATOR && Components(name) != [] {
        LookupChecked(s, path);
        ResolveRefines(s, CURRENT, Effective(path));
        FrontLookup(s, name);
        if Effective(name) != [] { EntersIf(s, Effective(path), Effective(name)); }
      }
      if path[0] != SEPARATOR { RelativeLookup(s, path); }
    }
  }

  lemma NoComponents()
    ensures Components([]) == []
  {
  }

  lemma RelativeLookup(s: Store, path: Bytes)
    requires path != [] && path[0] != SEPARATOR
    ensures InodeIdByPath(s, path) == Err(InvalidDentryName)
  {
  }

  lemma EntersIf(s: Store, src: Path, tgt: Path)
    requires Inv(s) && tgt != []
    ensures StoreResolve(s, CURRENT, ROOT, Front(tgt)) == Lookup(View(s, CURRENT), Front(tgt))
    ensures var x, t := Lookup(View(s, CURRENT), src), Lookup(View(s, CURRENT), Front(tgt));
            x.Ok? && t.Ok? ==> (EnterTarget(s, t.value, Last(tgt), x.value).result.Ok? <==>
              FreeSlot(View(s, CURRENT), t.value, Last(tgt)).Ok?)
  {
    hide Inv, StoreInv, View, StoreResolve, Resolve, EnterTarget, FreeSlot, Abs, ImgLink;
    ResolveRefines(s, CURRENT, Front(tgt));
    if Lookup(View(s, CURRENT), src).Ok? && Lookup(View(s, CURRENT), Front(tgt)).Ok? {
      LookupShown(s, Front(tgt));
      EnterRefines(s, Lookup(View(s, CURRENT), Front(tgt)).value, Last(tgt), Lookup(View(s, CURRENT), src).value);
    }
  }

  // ---- The root as the source ----

  ghost function RootEntered(s: Store, tgt: Path): Reply<Store>
    requires s.bs > 0 && CURRENT in s.versions && tgt != []
  {
    match StoreResolve(s, CURRENT, ROOT, Front(tgt))
    case Err(e) => Reply(Err(e), s)
    case Ok(t) =>
      var entered := EnterTarget(s, t, Last(tgt), ROOT);
      if entered.result.Err? then entered else Reply(Err(InvalidDentryName), entered.state)
  }

  /**
    * With the detour as its source a rename enters the root at the target, and fails when it looks for the source's
    * directory.
    */
  lemma RootSource(s: Store, path: Bytes, name: Bytes)
    requires s.bs > 0 && CURRENT in s.versions && CheckReadOnly(path).Ok? && CheckReadOnly(name).Ok?
             && RootBySnapshot(path)
    requires path[0] == SEPARATOR && Effective(name) != []
    ensures RenameByPath(s, path, name) == RootEntered(s, Effective(name))
  {
    hide StoreResolve, InodeIdByPath, EnterTarget, CheckReadOnly, Print, Components, Effective;
    LookupChecked(s, path);
    RootResolvesHere(s);
    EffectiveNonempty(name);
    FrontLookup(s, name);
    var t := StoreResolve(s, CURRENT, ROOT, Front(Effective(name)));
    if t.Ok? { FrontLookup(EnterTarget(s, t.value, Last(Effective(name)), ROOT).state, path); }
  }

  lemma RootLinks(img: Image, tgt: Path)
    requires GoodImage(img) && tgt != [] && ValidName(Last(tgt))
    requires Lookup(img, Front(tgt)).Ok? && FreeSlot(img, Lookup(img, Front(tgt)).value, Last(tgt)).Ok?
    ensures var t := Lookup(img, Front(tgt)).value;
            && ImgLink(FreeSlot(img, t, Last(tgt)).value, t, Last(tgt), ROOT).Ok?
            && !GoodImage(ImgLink(FreeSlot(img, t, Last(tgt)).value, t, Last(tgt), ROOT).value)
  {
    var t := Lookup(img, Front(tgt)).value;
    FreedSlot(img, t, Last(tgt), ROOT);
    var img1 := FreeSlot(img, t, Last(tgt)).value;
    hide GoodImage, FreeSlot, Resolve, ImgLink, Find, ValidName;
    LinkRefines(img1, t, Last(tgt), ROOT);
    var g1 := Names(img1);
    hide Names, Readable;
    assert Edge(GLink(g1, t, Last(tgt), ROOT), t, Dentry(Last(tgt), ROOT));
    RootNoEntry(ImgLink(img1, t, Last(tgt), ROOT).value, t, Last(tgt));
  }

  lemma RootNoEntry(img: Image, i: nat, name: Bytes)
    requires Edge(Names(img), i, Dentry(name, ROOT))
    ensures !GoodImage(img)
  {
    assert !EdgeOk(Names(img), i, Dentry(name, ROOT));
  }

  /** The root does not move, whatever the state after the rename. */
  lemma RootNotMoved(g: Graph, g2: Graph, tgt: Path)
    requires Tree(g) && tgt != []
    ensures !Moves(g, g2, [], tgt)
  {
    if Moves(g, g2, [], tgt) {
      var none: Path := [];
      assert none + none == none && tgt + none == tgt && none + tgt == tgt;
      assert Resolve(g2, ROOT, tgt) == Resolve(g, ROOT, none) == Ok(ROOT);
      ResolveAppend(g2, ROOT, tgt, tgt);
      assert Resolve(g2, ROOT, tgt + tgt) == Resolve(g, ROOT, tgt);
      SamePath(g, tgt, none);
    }
  }

  /** The root entered below itself: an error, and a state whose current version is no tree. */
  lemma RootEffect(s: Store, path: Bytes, name: Bytes) returns (img: Image)
    requires Inv(s) && Admitted(s, path, name) && Effective(path) == []
    requires Effective(name) != [] ==> ValidName(Last(Effective(name)))
    ensures Effective(name) != []
    ensures var r := RenameByPath(s, path, name);
            && r.result == Err(InvalidDentryName) && StoreInv(r.state) && r.state.bs == s.bs
            && Abs(r.state) == Abs(s)[CURRENT := img] && !GoodImage(img)
  {
    hide Inv, StoreInv, View, GoodImage, StoreResolve, Resolve, EnterTarget, FreeSlot, CheckReadOnly, Effective,
         Components, ImgLink,
         RenameByPath, ValidName, Abs;
    var shown, tgt := View(s, CURRENT), Effective(name);
    AdmittedEnters(s, path, name);
    AdmittedChecks(s, path, name);
    hide Admitted;
    InvImage(s, CURRENT);
    RootSource(s, path, name);
    RootLinks(shown, tgt);
    ResolveRefines(s, CURRENT, Front(tgt));
    LookupShown(s, Front(tgt));
    var t := Lookup(shown, Front(tgt)).value;
    EnterRefines(s, t, Last(tgt), ROOT);
    img := ImgLink(FreeSlot(shown, t, Last(tgt)).value, t, Last(tgt), ROOT).value;
  }

  lemma AdmittedChecks(s: Store, path: Bytes, name: Bytes)
    requires s.bs > 0 && CURRENT in s.versions && Admitted(s, path, name)
    ensures CheckReadOnly(path).Ok? && CheckReadOnly(name).Ok? && Components(path) != []
  {
  }
}
