// do_rename on the image of the current version.
module ImageRenames {
  import opened ByteStrings
  import opened Inodes
  import opened Stores
  import opened Directories
  import opened Namespaces
  import opened TreePaths
  import opened Renames
  import opened Images

  /** The slot that holds the source. */
  function SourceSlot(img: Image, src: Path): Slot {
    if src == [] || Lookup(img, Front(src)).Err? then Slot(ROOT, [])
    else Slot(Lookup(img, Front(src)).value, Last(src))
  }

  lemma CheckFacts(img: Image, src: Path, tgt: Path)
    requires GoodImage(img) && RenameCheck(img, src, tgt).Ok?
    ensures src != [] && tgt != []
    ensures var (x, t, img1) := RenameCheck(img, src, tgt).value;
            var to := Slot(t, Last(tgt));
            && Ready(Names(img), src, tgt, SourceSlot(img, src), x, to)
            && Names(img1) == Cleared(Names(img), to)
            && GoodImage(img1)
  {
    hide Tree, Readable, OpenDir, Resolve, ImgRemove, Cleared;
    var g := Names(img);
    var (x, t, img1) := RenameCheck(img, src, tgt).value;
    var to := Slot(t, Last(tgt));
    OpenIsEntries(img, t);
    ParentResolves(g, src, x);
    ClearRefines(img, to);
    ReadyIf(g, src, tgt, SourceSlot(img, src), x, to);
  }

  lemma ParentResolves(g: Graph, src: Path, x: nat)
    requires Local(g) && src != [] && Resolve(g, ROOT, src) == Ok(x)
    ensures Resolve(g, ROOT, Front(src)).Ok?
  {
    FrontLast(src);
    ResolveLast(g, Front(src), Last(src), x);
  }

  lemma ReadyIf(g: Graph, src: Path, tgt: Path, from: Slot, x: nat, to: Slot)
    requires Tree(g) && src != [] && tgt != []
    requires Resolve(g, ROOT, src) == Ok(x)
    requires Resolve(g, ROOT, Front(src)) == Ok(from.dir) && from.name == Last(src)
    requires Resolve(g, ROOT, Front(tgt)) == Ok(to.dir) && to.name == Last(tgt)
    requires to.dir in g && g[to.dir].Dir?
    requires Find(Entries(g, to.dir), to.name).Some? ==> Entries(g, Find(Entries(g, to.dir), to.name).value) == []
    ensures Ready(g, src, tgt, from, x, to)
  {
    hide Tree, Resolve;
  }

  /** Freeing the target slot, when it is taken, removes what is there. */
  lemma ClearRefines(img: Image, to: Slot)
    requires GoodImage(img)
    requires Find(Entries(Names(img), to.dir), to.name).Some? ==> ImgRemove(img, to.dir, to.name).Ok?
    ensures var g := Names(img);
            var img1 := if Find(Entries(g, to.dir), to.name).None? then img else ImgRemove(img, to.dir, to.name).value;
            && Names(img1) == Cleared(g, to) && GoodImage(img1)
            && (Find(Entries(g, to.dir), to.name).Some? ==> Entries(g, Find(Entries(g, to.dir), to.name).value) == [])
  {
    hide Tree, Readable, ImgRemove, Names, Find;
    if Find(Entries(Names(img), to.dir), to.name).Some? {
      RemoveRefines(img, to.dir, to.name);
    }
  }

  /** When the slot is free, or has been freed, the name can be entered. */
  lemma FreedSlot(img: Image, i: nat, name: Bytes, x: nat)
    requires GoodImage(img) && FreeSlot(img, i, name).Ok?
    ensures var img1 := FreeSlot(img, i, name).value;
            && GoodImage(img1) && ImgLink(img1, i, name, x).Ok?
            && i in Names(img1) && Names(img1)[i].Dir? && Find(Entries(Names(img1), i), name) == None
  {
    var g, to, img1 := Names(img), Slot(i, name), FreeSlot(img, i, name).value;
    OpenIsEntries(img, i);
    ClearRefines(img, to);
    OpenIsEntries(img1, i);
    hide GoodImage, Names, Entries, OpenDir, ImgRemove, Cleared, Find;
    ClearEntries(g, to);
  }

  lemma LinkStored(img: Image, i: nat, name: Bytes, x: nat)
    requires GoodImage(img) && i in Names(img) && Names(img)[i].Dir?
    requires Find(Entries(Names(img), i), name) == None && ValidName(name) && x < ID_LIMIT
    ensures var r := ImgLink(img, i, name, x);
            r.Ok? && Readable(r.value) && Names(r.value) == GLink(Names(img), i, name, x)
  {
    hide Tree, Encode, DecodeAll, ValidName, Find;
    var es2 := Entries(Names(img), i) + [Dentry(name, x)];
    OpenIsEntries(img, i);
    FewEntries(img, i);
    ListStored(es2);
    SaveNames(img, i, es2);
    hide Readable, Names, Decode;
  }

  /** Entering a storable name for an existing inode. */
  lemma LinkRefines(img: Image, i: nat, name: Bytes, x: nat)
    requires GoodImage(img) && i in Names(img) && Names(img)[i].Dir?
    requires Find(Entries(Names(img), i), name) == None && ValidName(name) && x < ID_LIMIT
    ensures var r := ImgLink(img, i, name, x);
            && r.Ok? && Readable(r.value) && Names(r.value) == GLink(Names(img), i, name, x)
            && forall j :: |Entries(Names(r.value), j)| <= ID_LIMIT + 1
                           && forall e :: e in Entries(Names(r.value), j) ==> ValidName(e.name) && e.id < ID_LIMIT
  {
    hide GoodImage, ValidName, Find, ImgLink, Readable, Entries, GLink, Names;
    LinkStored(img, i, name, x);
    forall j
      ensures |Entries(GLink(Names(img), i, name, x), j)| <= ID_LIMIT + 1
      ensures forall e :: e in Entries(GLink(Names(img), i, name, x), j) ==> ValidName(e.name) && e.id < ID_LIMIT
    {
      LinkFew(img, i, name, x, j);
    }
  }

  lemma LinkFew(img: Image, i: nat, name: Bytes, x: nat, j: nat)
    requires GoodImage(img) && ValidName(name) && x < ID_LIMIT
    ensures var es := Entries(GLink(Names(img), i, name, x), j);
            |es| <= ID_LIMIT + 1 && forall e :: e in es ==> ValidName(e.name) && e.id < ID_LIMIT
  {
    FewEntries(img, i);
    FewEntries(img, j);
    hide Tree, ValidName;
    var g := Names(img);
    assert Entries(GLink(g, i, name, x), j) == if j == i then Entries(g, i) + [Dentry(name, x)] else Entries(g, j);
  }

  lemma UnlinkRefines(img: Image, i: nat, name: Bytes)
    requires Readable(img) && i in Names(img) && Names(img)[i].Dir?
    requires Find(Entries(Names(img), i), name).Some?
    requires |Entries(Names(img), i)| <= ID_LIMIT + 1
    requires forall e :: e in Entries(Names(img), i) ==> ValidName(e.name) && e.id < ID_LIMIT
    ensures var r := ImgUnlink(img, i, name);
            r.Ok? && Readable(r.value) && Names(r.value) == GUnlink(Names(img), i, name)
  {
    var es2 := RemoveName(Entries(Names(img), i), name);
    OpenIsEntries(img, i);
    RemoveNameSubset(Entries(Names(img), i), name);
    ListStored(es2);
    SaveNames(img, i, es2);
    hide Encode, DecodeAll, ValidName, Find, RemoveName;
  }

  lemma LinkedAgrees(g: Graph, src: Path, tgt: Path, from: Slot, x: nat, to: Slot)
    requires Ready(g, src, tgt, from, x, to)
    ensures var g1 := GLink(Cleared(g, to), to.dir, to.name, x);
            && Agrees(g, g1, from, to)
            && from.dir in g1 && g1[from.dir].Dir?
            && Find(Entries(g1, from.dir), from.name).Some?
            && Find(Entries(Cleared(g, to), to.dir), to.name) == None
            && to.dir in Cleared(g, to) && Cleared(g, to)[to.dir].Dir?
  {
    SourceEdge(g, src, from, x);
    hide Tree, Local, Resolve;
    ClearEntries(g, to);
    hide Cleared;
    var g0 := Cleared(g, to);
    LinkEntries(g0, to.dir, to.name, x);
    var g1 := GLink(g0, to.dir, to.name, x);
    LinkedHolds(g, g0, g1, from, x, to);
  }

  lemma LinkedHolds(g: Graph, g0: Graph, g1: Graph, from: Slot, x: nat, to: Slot)
    requires ClearedOk(g, g0, to) && g1 == GLink(g0, to.dir, to.name, x) && NamesOk(g1) && g[to.dir].Dir?
    requires forall i: nat, e: Dentry :: Edge(g1, i, e) <==> Edge(g0, i, e) || (i == to.dir && e == Dentry(to.name, x))
    requires Edge(g, from.dir, Dentry(from.name, x))
    ensures Agrees(g, g1, from, to)
    ensures from.dir in g1 && g1[from.dir].Dir? && Find(Entries(g1, from.dir), from.name).Some?
  {
    hide NamesOk, Replaced;
    FindEdge(g1, from.dir, from.name);
    EdgeSource(g1);
    hide Edge, Find;
    assert Edge(g1, from.dir, Dentry(from.name, x));
  }

  /** Once its checks have passed, a rename goes through. */
  lemma RenameGoesThrough(img: Image, src: Path, tgt: Path)
    requires GoodImage(img) && RenameCheck(img, src, tgt).Ok? && ValidName(Last(tgt))
    ensures var (x, t, img1) := RenameCheck(img, src, tgt).value;
            var r := ImgRename(img, src, tgt);
            && r.Ok? && Readable(r.value)
            && Names(r.value) == GRename(Names(img), SourceSlot(img, src), x, Slot(t, Last(tgt)))
  {
    var g := Names(img);
    var (x, t, img1) := RenameCheck(img, src, tgt).value;
    var from, to := SourceSlot(img, src), Slot(t, Last(tgt));
    CheckFacts(img, src, tgt);
    LinkedAgrees(g, src, tgt, from, x, to);
    MovedInodeSmall(img, src, x);
    LinkRefines(img1, t, Last(tgt), x);
    var g1 := GLink(Cleared(g, to), to.dir, to.name, x);
    SourceDirStays(g, g1, src, tgt, from, x, to);
    var img2 := ImgLink(img1, t, Last(tgt), x).value;
    hide Tree, Agrees, Readable, ImgLink, ImgUnlink, RenameCheck, Resolve, Find, Ready, Cleared, GLink, GUnlink,
         ValidName;
    UnlinkRefines(img2, from.dir, from.name);
  }

  lemma MovedInodeSmall(img: Image, src: Path, x: nat)
    requires GoodImage(img) && Lookup(img, src) == Ok(x)
    ensures x < ID_LIMIT
  {
    SamePath(Names(img), src, src);
  }

  /** The inode that a rename to `tgt` replaces. */
  function ReplacedIds(img: Image, tgt: Path): set<nat> {
    match Lookup(img, tgt)
    case Ok(y) => {y}
    case Err(_) => {}
  }

  /** Nothing but the two directories is rewritten, and no inode but the replaced one goes away. */
  ghost predicate ContentsStay(img: Image, img2: Image, src: Path, tgt: Path)
    requires src != [] && tgt != []
  {
    && img2.Keys == img.Keys - ReplacedIds(img, tgt)
    && forall j :: j in img2 && Lookup(img, Front(src)) != Ok(j) && Lookup(img, Front(tgt)) != Ok(j) ==>
       img2[j] == img[j]
  }

  lemma RenameContents(img: Image, src: Path, tgt: Path)
    requires GoodImage(img) && RenameCheck(img, src, tgt).Ok? && ValidName(Last(tgt)) && ImgRename(img, src, tgt).Ok?
    ensures ContentsStay(img, ImgRename(img, src, tgt).value, src, tgt)
  {
    var (x, t, img1) := RenameCheck(img, src, tgt).value;
    CheckFacts(img, src, tgt);
    RenameSource(img, src, tgt);
    CheckContents(img, src, tgt);
    hide GoodImage, Ready, Resolve, RenameCheck, ReplacedIds, ValidName, Find, Encode, RemoveName, Decode;
    MoveContents(img1, src, t, Last(tgt), x);
  }

  /** Freeing the target slot rewrites the target's directory and loses what is replaced. */
  lemma CheckContents(img: Image, src: Path, tgt: Path)
    requires GoodImage(img) && RenameCheck(img, src, tgt).Ok?
    ensures var (x, t, img1) := RenameCheck(img, src, tgt).value;
            && img1.Keys == img.Keys - ReplacedIds(img, tgt) && t in img1
            && forall j :: j in img1 && j != t ==> img1[j] == img[j]
  {
    var (x, t, img1) := RenameCheck(img, src, tgt).value;
    OpenIsEntries(img, t);
    TargetLookup(Names(img), tgt, t);
    LookupIds(img, tgt);
    hide GoodImage, Readable, Resolve, Encode, Decode, Find, RemoveName, Entries, Names, OpenDir, ImgRemove;
    if ImgRemove(img, t, Last(tgt)).Ok? { RemoveContents(img, t, Last(tgt)); }
    OpenThere(img, t);
  }

  lemma OpenThere(img: Image, i: nat)
    requires OpenDir(img, i).Ok?
    ensures i in img
  {
  }

  lemma RemoveContents(img: Image, parent: nat, name: Bytes)
    requires GoodImage(img) && ImgRemove(img, parent, name).Ok?
    ensures var img1, found := ImgRemove(img, parent, name).value, Find(Entries(Names(img), parent), name);
            && parent in img1 && found.Some?
            && img1.Keys == img.Keys - {found.value}
            && forall j :: j in img1 && j != parent ==> img1[j] == img[j]
  {
    hide GoodImage, Names, Entries, Find, ImgRemove, RemovalTarget;
    RemoveRefines(img, parent, name);
    RemovedKeys(img, parent, name);
  }

  lemma RemovedKeys(img: Image, parent: nat, name: Bytes)
    requires ImgRemove(img, parent, name).Ok?
    ensures RemovalTarget(img, parent, name).Ok? && parent in img
    ensures var img1, target := ImgRemove(img, parent, name).value, RemovalTarget(img, parent, name).value;
            && img1.Keys == img.Keys - {target}
            && forall j :: j in img1 && j != parent ==> img1[j] == img[j]
  {
    RemovalParent(img, parent, name);
    hide Encode, RemoveName, OpenDir, RemovalTarget;
  }

  lemma RemovalParent(img: Image, parent: nat, name: Bytes)
    requires RemovalTarget(img, parent, name).Ok?
    ensures parent in img
  {
    hide Find, Decode;
  }

  lemma LookupIds(img: Image, tgt: Path)
    ensures Lookup(img, tgt).Ok? ==> ReplacedIds(img, tgt) == {Lookup(img, tgt).value}
    ensures Lookup(img, tgt).Err? ==> ReplacedIds(img, tgt) == {}
  {
  }

  lemma TargetLookup(g: Graph, tgt: Path, t: nat)
    requires Local(g) && tgt != [] && Resolve(g, ROOT, Front(tgt)) == Ok(t)
    ensures match Find(Entries(g, t), Last(tgt))
            case None => Resolve(g, ROOT, tgt).Err?
            case Some(y) => Resolve(g, ROOT, tgt) == Ok(y)
  {
    FrontLast(tgt);
    FindEdge(g, t, Last(tgt));
    if Resolve(g, ROOT, tgt).Ok? { ResolveLast(g, Front(tgt), Last(tgt), Resolve(g, ROOT, tgt).value); }
    if Find(Entries(g, t), Last(tgt)).Some? {
      ResolveLast(g, Front(tgt), Last(tgt), Find(Entries(g, t), Last(tgt)).value);
    }
  }

  lemma MoveContents(img1: Image, src: Path, t: nat, name: Bytes, x: nat)
    requires src != [] && t in img1 && ImgMove(img1, src, t, name, x).Ok?
    ensures ImgLink(img1, t, name, x).Ok? && Lookup(ImgLink(img1, t, name, x).value, Front(src)).Ok?
    ensures var p := Lookup(ImgLink(img1, t, name, x).value, Front(src)).value;
            var img3 := ImgMove(img1, src, t, name, x).value;
            && img3.Keys == img1.Keys
            && forall j :: j in img3 && j != t && j != p ==> img3[j] == img1[j]
  {
    hide Resolve, Encode, Decode, Find, RemoveName;
  }

  /** When the source's directory is looked up again it is the one that it was. */
  lemma RenameSource(img: Image, src: Path, tgt: Path)
    requires GoodImage(img) && RenameCheck(img, src, tgt).Ok? && ValidName(Last(tgt))
    ensures var (x, t, img1) := RenameCheck(img, src, tgt).value;
            var img2 := ImgLink(img1, t, Last(tgt), x);
            img2.Ok? && Lookup(img2.value, Front(src)) == Lookup(img, Front(src))
  {
    var g := Names(img);
    var (x, t, img1) := RenameCheck(img, src, tgt).value;
    var from, to := SourceSlot(img, src), Slot(t, Last(tgt));
    CheckFacts(img, src, tgt);
    LinkedAgrees(g, src, tgt, from, x, to);
    MovedInodeSmall(img, src, x);
    hide ValidName, Find, RenameCheck;
    LinkRefines(img1, t, Last(tgt), x);
    SourceDirStays(g, GLink(Cleared(g, to), to.dir, to.name, x), src, tgt, from, x, to);
  }

  /**
    * do_rename: it fails only in its checks, with nothing saved. When it goes through, the source path is gone, paths
    * elsewhere lead where they did, nothing but two directories is rewritten, and the subtree is moved to the target
    * exactly when the target does not lie at or below the source. The namespace stays a tree exactly when the target
    * does not lie below the source and does not take the name of the snapshot entry.
    */
  lemma RenameRefines(img: Image, src: Path, tgt: Path)
    requires GoodImage(img) && (tgt != [] ==> ValidName(Last(tgt)))
    ensures var c := RenameCheck(img, src, tgt);
            var r := ImgRename(img, src, tgt);
            && (c.Err? ==> r == Err(c.error))
            && (c.Ok? ==>
                  && r.Ok?
                  && (Moves(Names(img), Names(r.value), src, tgt) <==> !(src <= tgt))
                  && (forall rest :: Lookup(r.value, src + rest).Err?)
                  && OthersStay(Names(img), Names(r.value), src, tgt)
                  && ContentsStay(img, r.value, src, tgt)
                  && (GoodImage(r.value) <==> !(src < tgt) && tgt != [SNAPSHOT_ENTRY]))
  {
    var c := RenameCheck(img, src, tgt);
    if c.Ok? {
      var g := Names(img);
      var (x, t, _) := c.value;
      var from, to := SourceSlot(img, src), Slot(t, Last(tgt));
      CheckFacts(img, src, tgt);
      RenameGoesThrough(img, src, tgt);
      GoodIff(ImgRename(img, src, tgt).value);
      hide GoodImage, RenameCheck, ImgRename, GRename, Resolve, ValidName, Moves, OthersStay, ContentsStay;
      RenameMoves(g, src, tgt, from, x, to);
      RenameKeepsTree(g, src, tgt, from, x, to);
      RenameContents(img, src, tgt);
    }
  }

  lemma GoodIff(img: Image)
    requires Readable(img)
    ensures GoodImage(img) <==> Tree(Names(img))
  {
  }
}
