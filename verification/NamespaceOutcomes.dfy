// Which lookups, creations, removals and renames succeed, what the others fail with, and what happens to every path.
module NamespaceOutcomes {
  import opened ByteStrings
  import opened Inodes
  import opened Stores
  import opened Directories
  import opened Namespaces
  import opened TreePaths
  import opened Renames
  import opened Images
  import opened ImageRenames

  /** Directory `i` has an entry of that name. */
  ghost predicate Holds(g: Graph, i: nat, name: Bytes) {
    exists e :: Edge(g, i, e) && e.name == name
  }

  lemma FindHolds(g: Graph, i: nat, name: Bytes)
    requires NamesOk(g)
    ensures Find(Entries(g, i), name).Some? <==> Holds(g, i, name)
    ensures forall e :: Edge(g, i, e) && e.name == name ==> Find(Entries(g, i), name) == Some(e.id)
  {
    FindEdge(g, i, name);
    if Find(Entries(g, i), name).Some? {
      assert Edge(g, i, Dentry(name, Find(Entries(g, i), name).value));
    }
  }

  /** The entries of other names, in their order. */
  function Without(es: seq<Dentry>, name: Bytes): seq<Dentry> {
    if es == [] then [] else (if es[0].name == name then [] else [es[0]]) + Without(es[1..], name)
  }

  lemma {:induction false} WithoutAbsent(es: seq<Dentry>, name: Bytes)
    requires forall e :: e in es ==> e.name != name
    ensures Without(es, name) == es
  {
    if es != [] { WithoutAbsent(es[1..], name); }
  }

  lemma {:induction false} RemoveIsWithout(es: seq<Dentry>, name: Bytes)
    requires UniqueNames(es)
    ensures RemoveName(es, name) == Without(es, name)
  {
    if es != [] {
      if es[0].name == name {
        assert forall e :: e in es[1..] ==> e.name != name;
        WithoutAbsent(es[1..], name);
      } else {
        RemoveIsWithout(es[1..], name);
      }
    }
  }

  // ---- Lookup ----

  /** The root is found at the empty path, and one more name is looked up in what has been found so far. */
  lemma ResolveExactly(g: Graph, p: Path, name: Bytes)
    requires NamesOk(g)
    ensures Resolve(g, ROOT, []) == Ok(ROOT)
    ensures Resolve(g, ROOT, p).Err? ==> Resolve(g, ROOT, p + [name]) == Resolve(g, ROOT, p)
    ensures Resolve(g, ROOT, p).Ok? ==>
              var i, r := Resolve(g, ROOT, p).value, Resolve(g, ROOT, p + [name]);
              && (i !in g ==> r == Err(InodeNotFound))
              && (i in g && g[i].File? ==> r == Err(NotADirectory))
              && (i in g && g[i].Dir? && !Holds(g, i, name) ==> r == Err(NoSuchFileOrDir))
              && (forall e :: Edge(g, i, e) && e.name == name ==> r == Ok(e.id))
  {
    ResolveAppend(g, ROOT, p, [name]);
    if Resolve(g, ROOT, p).Ok? {
      var i := Resolve(g, ROOT, p).value;
      FindHolds(g, i, name);
      EdgeSource(g);
      hide NamesOk, Edge, Holds, Find;
      OneName(g, i, name);
    }
  }

  lemma OneName(g: Graph, i: nat, name: Bytes)
    ensures Resolve(g, i, [name]) ==
            if i !in g then Err(InodeNotFound)
            else if g[i].File? then Err(NotADirectory)
            else if Find(Entries(g, i), name).None? then Err(NoSuchFileOrDir)
            else Ok(Find(Entries(g, i), name).value)
  {
    assert [name][1..] == [];
  }

  // ---- Creation ----

  /** Printable bytes other than the slash, and the one below the space. */
  predicate Accepted(name: Bytes) {
    forall k :: 0 <= k < |name| ==> 0x1F <= name[k] as int <= 0x7E && name[k] != '/'
  }

  lemma GoodNames(img: Image)
    requires GoodImage(img)
    ensures Readable(img) && NamesOk(Names(img)) && Local(Names(img))
  {
  }

  lemma NameAccepted(name: Bytes)
    ensures BadName(name) <==> !Accepted(name)
  {
  }

  /** A creation fails in one of five ways, and succeeds otherwise. */
  lemma MakeExactly(img: Image, parent: nat, name: Bytes, id: Option<nat>, isDir: bool)
    requires GoodImage(img)
    ensures var g, r := Names(img), ImgMake(img, parent, name, id, isDir);
            if !Accepted(name) then r == Err(InvalidDentryName)
            else if parent !in g then r == Err(InodeNotFound)
            else if g[parent].File? then r == Err(NotADirectory)
            else if Holds(g, parent, name) then r == Err(DoubleMkPathname)
            else if id.None? then r == Err(IdDepleted)
            else r.Ok?
  {
    NameAccepted(name);
    GoodNames(img);
    OpenIsEntries(img, parent);
    FindHolds(Names(img), parent, name);
    hide GoodImage, Readable, NamesOk, BadName, Accepted, OpenDir, Find, Holds, Edge, Encode;
  }

  /**
    * The new node is found at its path and is empty, nothing is found below it, and all other paths lead where they
    * did.
    */
  ghost predicate GrownAt(g: Graph, g2: Graph, path: Path, n: nat, isDir: bool) {
    && n !in g && n in g2 && g2[n] == (if isDir then Dir([]) else File)
    && Resolve(g2, ROOT, path) == Ok(n)
    && (forall rest :: rest != [] ==> Resolve(g2, ROOT, path + rest).Err?)
    && (forall q :: !(path <= q) ==> Resolve(g2, ROOT, q) == Resolve(g, ROOT, q))
  }

  /**
    * Taking an edge to a file or an empty directory out of a tree: its path is gone, and all others lead where they
    * did.
    */
  lemma RemovedPaths(g: Graph, p: Path, parent: nat, name: Bytes, target: nat)
    requires Tree(g) && Resolve(g, ROOT, p) == Ok(parent)
    requires Edge(g, parent, Dentry(name, target)) && Entries(g, target) == []
    ensures var g2 := GRemove(g, parent, name, target);
            && (forall rest :: Resolve(g2, ROOT, p + [name] + rest).Err?)
            && (forall q :: !(p + [name] <= q) ==> Resolve(g2, ROOT, q) == Resolve(g, ROOT, q))
  {
    var path, slot := p + [name], Slot(parent, name);
    LastIs(path, p, name);
    FindEdge(g, parent, name);
    EdgeSource(g);
    ResolveLast(g, p, name, target);
    hide Tree, Resolve, Edge, Find, GRemove, GRename, Local;
    RenameMoves(g, path, path, slot, target, slot);
    RenameInPlace(g, path, slot, target, slot);
  }

  /** Removing the node that was just made gives back the graph. */
  lemma MakeUndone(g: Graph, parent: nat, name: Bytes, n: nat, isDir: bool)
    requires Local(g) && parent in g && g[parent].Dir? && n !in g && Find(Entries(g, parent), name) == None
    ensures var g2 := GMake(g, parent, name, n, isDir);
            && Edge(g2, parent, Dentry(name, n)) && Entries(g2, n) == [] && n in g2
            && g2[n] == (if isDir then Dir([]) else File)
            && GRemove(g2, parent, name, n) == g
  {
    RemoveLast(Entries(g, parent), Dentry(name, n));
    var es2 := Entries(g, parent) + [Dentry(name, n)];
    assert es2[|es2| - 1] == Dentry(name, n);
    hide RemoveName, Find;
  }

  lemma GrowsAt(g: Graph, p: Path, parent: nat, name: Bytes, n: nat, isDir: bool)
    requires Tree(g) && Tree(GMake(g, parent, name, n, isDir)) && Resolve(g, ROOT, p) == Ok(parent)
    requires parent in g && g[parent].Dir? && n !in g && Find(Entries(g, parent), name) == None
    ensures GrownAt(g, GMake(g, parent, name, n, isDir), p + [name], n, isDir)
  {
    var g2, path := GMake(g, parent, name, n, isDir), p + [name];
    MakeUndone(g, parent, name, n, isDir);
    FoundBelow(g, g2, p, parent, name, n);
    hide Tree, Local, GMake, GRemove, Find, Edge, Entries;
    forall rest | rest != []
      ensures Resolve(g2, ROOT, path + rest).Err?
    {
      ResolveAppend(g2, ROOT, path, rest);
      NothingBelow(g2, n, rest);
    }
    RemovedPaths(g2, p, parent, name, n);
  }

  lemma NothingBelow(g: Graph, n: nat, rest: Path)
    requires Entries(g, n) == [] && rest != []
    ensures Resolve(g, n, rest).Err?
  {
  }

  /** The parent is still at its path, so the new entry is found there. */
  lemma FoundBelow(g: Graph, g2: Graph, p: Path, parent: nat, name: Bytes, n: nat)
    requires Tree(g) && Tree(g2) && Resolve(g, ROOT, p) == Ok(parent)
    requires Edge(g2, parent, Dentry(name, n)) && Entries(g2, n) == [] && GRemove(g2, parent, name, n) == g
    ensures Resolve(g2, ROOT, p) == Ok(parent) && Resolve(g2, ROOT, p + [name]) == Ok(n)
  {
    EdgeSource(g2);
    var p2 := NodeHasPath(g2, parent);
    hide Tree, Local, Edge, Entries, GRemove;
    RemovedPaths(g2, p2, parent, name, n);
    assert Resolve(g, ROOT, p2) == Ok(parent);
    SamePath(g, p, p2);
    assert Tree(g2) ==> Local(g2) by { TreeLocal(g2); }
    ResolveLast(g2, p, name, n);
  }

  lemma TreeLocal(g: Graph)
    requires Tree(g)
    ensures Local(g)
  {
  }

  /** What a creation does to the paths and to the other nodes. */
  lemma MakeGrows(img: Image, p: Path, parent: nat, name: Bytes, n: nat, isDir: bool)
    requires GoodImage(img) && n !in img && n < ID_LIMIT
    requires 1 <= |name| <= 127 && (parent == 0 ==> name != ".snapshot")
    requires Lookup(img, p) == Ok(parent) && ImgMake(img, parent, name, Some(n), isDir).Ok?
    ensures var img2 := ImgMake(img, parent, name, Some(n), isDir).value;
            && GoodImage(img2) && GrownAt(Names(img), Names(img2), p + [name], n, isDir)
            && Entries(Names(img2), parent) == Entries(Names(img), parent) + [Dentry(name, n)]
            && img2.Keys == img.Keys + {n} && forall j :: j in img && j != parent ==> img2[j] == img[j]
  {
    assert MakeSafe(parent, name);
    hide ImgMake, MakeSafe, Resolve, GMake, Find, Encode, Readable, Local, Names, Entries;
    MakeRefines(img, parent, name, n, isDir);
    MadeEntries(img, parent, name, n, isDir);
    SavedOthers(img, parent, Entries(Names(img), parent) + [Dentry(name, n)], n, isDir);
    GoodNames(img);
    DirThere(img, parent);
    MadeLast(Names(img), parent, name, n, isDir);
    GrowsAt(Names(img), p, parent, name, n, isDir);
  }

  lemma SavedOthers(img: Image, parent: nat, es: seq<Dentry>, n: nat, isDir: bool)
    requires parent in img
    ensures var img2 := Save(img[n := Node(isDir, [])], parent, es);
            img2.Keys == img.Keys + {n} && forall j :: j in img && j != parent && j != n ==> img2[j] == img[j]
  {
    hide Encode;
  }

  lemma DirThere(img: Image, i: nat)
    ensures i in img <==> i in Names(img)
    ensures i in img && img[i].isDir ==> Names(img)[i].Dir?
  {
    hide Decode;
  }

  lemma MadeLast(g: Graph, parent: nat, name: Bytes, n: nat, isDir: bool)
    requires n != parent
    ensures Entries(GMake(g, parent, name, n, isDir), parent) == Entries(g, parent) + [Dentry(name, n)]
  {
  }

  // ---- Removal ----

  /** A removal fails in one of four ways, and succeeds otherwise. */
  lemma RemoveExactly(img: Image, parent: nat, name: Bytes)
    requires GoodImage(img)
    ensures var g, r := Names(img), ImgRemove(img, parent, name);
            && (parent !in g ==> r == Err(InodeNotFound))
            && (parent in g && g[parent].File? ==> r == Err(NotADirectory))
            && (parent in g && g[parent].Dir? && !Holds(g, parent, name) ==> r == Err(NoSuchFileOrDir))
            && (forall e :: Edge(g, parent, e) && e.name == name ==>
                  if Entries(g, e.id) != [] then r == Err(DirNotEmpty) else r.Ok?)
    ensures ImgRemove(img, parent, name).Ok? <==>
            exists e :: Edge(Names(img), parent, e) && e.name == name && Entries(Names(img), e.id) == []
    ensures ImgRemove(img, parent, name) == Err(DirNotEmpty) <==>
            exists e :: Edge(Names(img), parent, e) && e.name == name && Entries(Names(img), e.id) != []
  {
    var g := Names(img);
    GoodNames(img);
    OpenIsEntries(img, parent);
    FindHolds(g, parent, name);
    EdgeSource(g);
    if Find(Entries(g, parent), name).Some? { EntryTarget(img, parent, Find(Entries(g, parent), name).value, name); }
    hide GoodImage, Readable, NamesOk, OpenDir, Find, Edge, Encode, Names, Entries, RemoveName;
  }

  /** What an entry of a good image names can be opened, unless it is a file. */
  lemma EntryTarget(img: Image, parent: nat, target: nat, name: Bytes)
    requires GoodImage(img) && Find(Entries(Names(img), parent), name) == Some(target)
    ensures OpenDir(img, target) == Err(NotADirectory) || OpenDir(img, target) == Ok(Entries(Names(img), target))
    ensures OpenDir(img, target) == Err(NotADirectory) ==> Entries(Names(img), target) == []
    ensures Edge(Names(img), parent, Dentry(name, target))
  {
    var g := Names(img);
    FindEdge(g, parent, name);
    assert EdgeOk(g, parent, Dentry(name, target));
    OpenIsEntries(img, target);
    hide OpenDir, Find;
  }

  /** What a removal does to the paths and to the other nodes. */
  lemma RemoveShrinks(img: Image, p: Path, parent: nat, name: Bytes, target: nat)
    requires GoodImage(img) && Lookup(img, p) == Ok(parent)
    requires Edge(Names(img), parent, Dentry(name, target)) && Entries(Names(img), target) == []
    ensures ImgRemove(img, parent, name).Ok?
    ensures var img2 := ImgRemove(img, parent, name).value;
            && GoodImage(img2)
            && (forall rest :: Lookup(img2, p + [name] + rest).Err?)
            && (forall q :: !(p + [name] <= q) ==> Lookup(img2, q) == Lookup(img, q))
            && Entries(Names(img2), parent) == Without(Entries(Names(img), parent), name)
            && img2.Keys == img.Keys - {target} && forall j :: j in img2 && j != parent ==> img2[j] == img[j]
  {
    RemoveExactly(img, parent, name);
    GoodNames(img);
    FindHolds(Names(img), parent, name);
    assert Tree(Names(img));
    hide GoodImage, Names, Entries, Find, ImgRemove, RemovalTarget, Resolve, GRemove, Edge;
    RemoveRefines(img, parent, name);
    RemoveContents(img, parent, name);
    RemovedEntries(Names(img), parent, name, target);
    RemovedPaths(Names(img), p, parent, name, target);
  }

  lemma RemovedEntries(g: Graph, parent: nat, name: Bytes, target: nat)
    requires NamesOk(g) && parent != target
    ensures Entries(GRemove(g, parent, name, target), parent) == Without(Entries(g, parent), name)
  {
    assert UniqueNames(Entries(g, parent));
    RemoveIsWithout(Entries(g, parent), name);
  }

  // ---- Renaming ----

  /** The directory that has been looked up can take the name: it has no such entry, or one without anything below. */
  ghost predicate SlotFree(g: Graph, dir: Result<nat>, name: Bytes) {
    && dir.Ok? && dir.value in g && g[dir.value].Dir?
    && forall e :: Edge(g, dir.value, e) && e.name == name ==> Entries(g, e.id) == []
  }

  /** Freeing a slot fails in one of three ways, and succeeds otherwise. */
  lemma FreeSlotExactly(img: Image, i: nat, name: Bytes)
    requires GoodImage(img)
    ensures var g, r := Names(img), FreeSlot(img, i, name);
            if i !in g then r == Err(InodeNotFound)
            else if g[i].File? then r == Err(NotADirectory)
            else if SlotFree(g, Ok(i), name) then r.Ok?
            else r == Err(DirNotEmpty)
  {
    var g := Names(img);
    GoodNames(img);
    OpenIsEntries(img, i);
    FindHolds(g, i, name);
    RemoveExactly(img, i, name);
    hide GoodImage, Readable, NamesOk, OpenDir, ImgRemove, Find, Edge, Names, Entries;
  }

  /** The checks of a rename, in their order. */
  lemma RenameCheckExactly(img: Image, src: Path, tgt: Path)
    requires GoodImage(img)
    ensures var g, r := Names(img), RenameCheck(img, src, tgt);
            if Resolve(g, ROOT, src).Err? then r == Err(Resolve(g, ROOT, src).error)
            else if src == [] || tgt == [] then r == Err(InvalidDentryName)
            else
              var dir := Resolve(g, ROOT, Front(tgt));
              if dir.Err? then r == Err(dir.error)
              else if dir.value in g && g[dir.value].File? then r == Err(NotADirectory)
              else if SlotFree(g, dir, Last(tgt)) then r.Ok?
              else r == Err(DirNotEmpty)
  {
    hide GoodImage, FreeSlot, Names, SlotFree, Resolve;
    if Lookup(img, src).Ok? && src != [] && tgt != [] && Lookup(img, Front(tgt)).Ok? {
      FreeSlotExactly(img, Lookup(img, Front(tgt)).value, Last(tgt));
      FoundThere(img, Front(tgt));
    }
  }

  lemma FoundThere(img: Image, p: Path)
    requires GoodImage(img) && Lookup(img, p).Ok?
    ensures Lookup(img, p).value in Names(img)
  {
    SamePath(Names(img), p, p);
  }

  /**
    * The entry lists of the two directories: the target's name is appended where it may have stood before, and the
    * source's name is taken out. All other entries stay, in their order.
    */
  ghost predicate EntriesMoved(g: Graph, g2: Graph, src: Path, tgt: Path)
    requires src != [] && tgt != []
  {
    forall p, t, x ::
      Resolve(g, ROOT, Front(src)) == Ok(p) && Resolve(g, ROOT, Front(tgt)) == Ok(t)
        && Resolve(g, ROOT, src) == Ok(x) ==>
        var entered := Without(Entries(g, t), Last(tgt)) + [Dentry(Last(tgt), x)];
        && (p != t ==> Entries(g2, t) == entered)
        && Entries(g2, p) == Without(if p == t then entered else Entries(g, p), Last(src))
  }

  lemma RenameEntries(img: Image, src: Path, tgt: Path)
    requires GoodImage(img) && RenameCheck(img, src, tgt).Ok? && ValidName(Last(tgt)) && ImgRename(img, src, tgt).Ok?
    ensures EntriesMoved(Names(img), Names(ImgRename(img, src, tgt).value), src, tgt)
  {
    var g := Names(img);
    var (x, t, img1) := RenameCheck(img, src, tgt).value;
    var from, to := SourceSlot(img, src), Slot(t, Last(tgt));
    CheckFacts(img, src, tgt);
    RenameGoesThrough(img, src, tgt);
    hide GoodImage, RenameCheck, ImgRename, GRename, Names, ValidName;
    GraphEntries(g, src, tgt, from, x, to);
  }

  lemma GraphEntries(g: Graph, src: Path, tgt: Path, from: Slot, x: nat, to: Slot)
    requires Ready(g, src, tgt, from, x, to)
    ensures EntriesMoved(g, GRename(g, from, x, to), src, tgt)
  {
    hide Tree, Local, Resolve, Edge, Find;
    TreeLocal(g);
    SourceEdge(g, src, from, x);
    ClearEntries(g, to);
    var g0 := Cleared(g, to);
    ClearedLists(g, g0, to, from);
    hide Cleared, ClearedOk, Entries;
    LinkUnlinkLists(g0, from, x, to);
    var entered := Entries(g0, to.dir) + [Dentry(to.name, x)];
    UniqueEntered(g0, to, x, from);
    RemoveIsWithout(if from.dir == to.dir then entered else Entries(g0, from.dir), from.name);
  }

  lemma LinkUnlinkLists(g: Graph, from: Slot, x: nat, to: Slot)
    ensures var g2 := GUnlink(GLink(g, to.dir, to.name, x), from.dir, from.name);
            var entered := Entries(g, to.dir) + [Dentry(to.name, x)];
            && (from.dir != to.dir ==> Entries(g2, to.dir) == entered)
            && Entries(g2, from.dir) ==
               RemoveName(if from.dir == to.dir then entered else Entries(g, from.dir), from.name)
  {
    hide RemoveName;
  }

  lemma UniqueEntered(g: Graph, to: Slot, x: nat, from: Slot)
    requires NamesOk(g) && Find(Entries(g, to.dir), to.name) == None
    ensures UniqueNames(Entries(g, to.dir) + [Dentry(to.name, x)]) && UniqueNames(Entries(g, from.dir))
  {
    UniqueAppend(Entries(g, to.dir), Dentry(to.name, x));
  }

  /** Clearing the target's slot takes its name out of the target's directory, and leaves the source's directory. */
  lemma ClearedLists(g: Graph, g0: Graph, to: Slot, from: Slot)
    requires Local(g) && ClearedOk(g, g0, to) && g0 == Cleared(g, to) && Entries(g, from.dir) != []
    requires forall y :: Replaced(g, to, y) ==> Entries(g, y) == []
    ensures Entries(g0, to.dir) == Without(Entries(g, to.dir), to.name)
    ensures from.dir != to.dir ==> Entries(g0, from.dir) == Entries(g, from.dir)
  {
    assert UniqueNames(Entries(g, to.dir));
    RemoveIsWithout(Entries(g, to.dir), to.name);
    if Find(Entries(g, to.dir), to.name).None? { WithoutAbsent(Entries(g, to.dir), to.name); }
    hide Local, NamesOk, RemoveName, Without, Edge;
    assert forall y :: Replaced(g, to, y) ==> y != from.dir && y != to.dir;
  }
}
