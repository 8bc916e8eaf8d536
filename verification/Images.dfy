// Namespace operations on the image of one version, where directories are byte strings.
module Images {
  import opened ByteStrings
  import opened FreeIds
  import opened Inodes
  import opened Stores
  import opened Directories
  import opened Namespaces
  import opened Renames

  /** Every id that get_free_id can hand out lies below. */
  const ID_LIMIT: nat := 4 * MAX_POOL_SIZE

  function DirEntries(bytes: Bytes): seq<Dentry> {
    match Decode(bytes)
    case None => []
    case Some(es) => es
  }

  /** The namespace that an image stores. */
  function Names(img: Image): Graph {
    map i | i in img :: if img[i].isDir then Dir(DirEntries(img[i].bytes)) else File
  }

  /** The directory resolver's constructor: check that it is a directory and read its entries. */
  function OpenDir(img: Image, i: nat): Result<seq<Dentry>> {
    if i !in img then Err(InodeNotFound)
    else if !img[i].isDir then Err(NotADirectory)
    else
      match Decode(img[i].bytes)
      case None => Err(MalformedDirectory)
      case Some(es) => Ok(es)
  }

  /** save_current(). */
  function Save(img: Image, i: nat, es: seq<Dentry>): Image {
    img[i := Node(true, Encode(es))]
  }

  predicate BadName(name: Bytes) {
    exists k :: 0 <= k < |name| && (name[k] == SEPARATOR || name[k] as int < 0x1F || name[k] as int >= 0x7F)
  }

  function Lookup(img: Image, path: Path): Result<nat> {
    Resolve(Names(img), ROOT, path)
  }

  /** make_child_dentry_under_parent; `id` is the free id, None when the pool is full. */
  function ImgMake(img: Image, parent: nat, name: Bytes, id: Option<nat>, isDir: bool): Result<Image> {
    if BadName(name) then Err(InvalidDentryName)
    else
      match OpenDir(img, parent)
      case Err(e) => Err(e)
      case Ok(es) =>
        if Find(es, name).Some? then Err(DoubleMkPathname)
        else
          match id
          case None => Err(IdDepleted)
          case Some(n) => Ok(Save(img[n := Node(isDir, [])], parent, es + [Dentry(name, n)]))
  }

  /** The entry that remove_child_dentry_under_parent removes: it must not be a directory that has entries. */
  function RemovalTarget(img: Image, parent: nat, name: Bytes): Result<nat> {
    match OpenDir(img, parent)
    case Err(e) => Err(e)
    case Ok(es) =>
      match Find(es, name)
      case None => Err(NoSuchFileOrDir)
      case Some(target) =>
        match OpenDir(img, target)
        case Ok(inside) => if inside != [] then Err(DirNotEmpty) else Ok(target)
        case Err(e) => if e == NotADirectory then Ok(target) else Err(e)
  }

  function ImgRemove(img: Image, parent: nat, name: Bytes): Result<Image> {
    match RemovalTarget(img, parent, name)
    case Err(e) => Err(e)
    case Ok(target) => Ok(Save(img, parent, RemoveName(OpenDir(img, parent).value, name)) - {target})
  }

  /**
    * The part of do_rename that may fail: the moved inode, the target's directory, and the image with the target slot
    * free.
    */
  function RenameCheck(img: Image, src: Path, tgt: Path): (r: Result<(nat, nat, Image)>)
    ensures r.Ok? ==> src != [] && tgt != []
  {
    match Lookup(img, src)
    case Err(e) => Err(e)
    case Ok(x) =>
      if src == [] || tgt == [] then Err(InvalidDentryName)
      else
        match Lookup(img, Front(tgt))
        case Err(e) => Err(e)
        case Ok(t) =>
          match FreeSlot(img, t, Last(tgt))
          case Err(e) => Err(e)
          case Ok(img1) => Ok((x, t, img1))
  }

  /** Remove what a directory has under a name, if anything. */
  function FreeSlot(img: Image, i: nat, name: Bytes): Result<Image> {
    match OpenDir(img, i)
    case Err(e) => Err(e)
    case Ok(es) => if Find(es, name).None? then Ok(img) else ImgRemove(img, i, name)
  }

  /** add_path and save_current. */
  function ImgLink(img: Image, i: nat, name: Bytes, x: nat): Result<Image> {
    match OpenDir(img, i)
    case Err(e) => Err(e)
    case Ok(es) => if Find(es, name).Some? then Err(DoubleMkPathname) else Ok(Save(img, i, es + [Dentry(name, x)]))
  }

  /** remove_path and save_current. */
  function ImgUnlink(img: Image, i: nat, name: Bytes): Result<Image> {
    match OpenDir(img, i)
    case Err(e) => Err(e)
    case Ok(es) => if Find(es, name).None? then Err(InodeNotFound) else Ok(Save(img, i, RemoveName(es, name)))
  }

  /** The part of do_rename after its checks: enter the target, look up the source's directory, clear the source. */
  function ImgMove(img1: Image, src: Path, t: nat, name: Bytes, x: nat): Result<Image>
    requires src != []
  {
    match ImgLink(img1, t, name, x)
    case Err(e) => Err(e)
    case Ok(img2) =>
      match Lookup(img2, Front(src))
      case Err(e) => Err(e)
      case Ok(p) => ImgUnlink(img2, p, Last(src))
  }

  function ImgRename(img: Image, src: Path, tgt: Path): Result<Image> {
    match RenameCheck(img, src, tgt)
    case Err(e) => Err(e)
    case Ok((x, t, img1)) => ImgMove(img1, src, t, Last(tgt), x)
  }

  // ---- Good images ----

  /** All directories can be read, ids are small, and the stored namespace is a tree. */
  ghost predicate Readable(img: Image) {
    forall i :: i in img ==> i < ID_LIMIT && (img[i].isDir ==> Decode(img[i].bytes).Some?)
  }

  ghost predicate GoodImage(img: Image) {
    Readable(img) && Tree(Names(img))
  }

  lemma {:induction false} ShortList(l: seq<nat>, s: set<nat>)
    requires forall x :: x in l ==> x in s
    requires forall a, b :: 0 <= a < b < |l| ==> l[a] != l[b]
    ensures |l| <= |s|
  {
    if l != [] {
      var last := l[|l| - 1];
      var rest := l[..|l| - 1];
      forall x | x in rest
        ensures x in s - {last}
      {
      }
      ShortList(rest, s - {last});
    }
  }

  lemma {:induction false} SmallSet(s: set<nat>, n: nat)
    requires forall x :: x in s ==> x < n
    ensures |s| <= n
    decreases n
  {
    if n > 0 {
      SmallSet(s - {n - 1}, n - 1);
    } else {
      assert s == {};
    }
  }

  lemma EntryFacts(g: Graph, i: nat)
    requires Local(g)
    ensures forall e :: e in Entries(g, i) ==> ValidName(e.name) && e.id in g
    ensures forall a, b :: 0 <= a < b < |Entries(g, i)| ==> Entries(g, i)[a].id != Entries(g, i)[b].id
  {
    hide HasParent;
    var es := Entries(g, i);
    forall e | e in es
      ensures ValidName(e.name) && e.id in g
    {
      assert Edge(g, i, e);
      assert EdgeOk(g, i, e);
    }
    assert UniqueNames(es);
    forall a, b | 0 <= a < b < |es|
      ensures es[a].id != es[b].id
    {
      assert Edge(g, i, es[a]) && Edge(g, i, es[b]);
    }
  }

  lemma FewEntries(img: Image, i: nat)
    requires GoodImage(img)
    ensures |Entries(Names(img), i)| <= ID_LIMIT
    ensures forall e :: e in Entries(Names(img), i) ==> ValidName(e.name) && e.id < ID_LIMIT
  {
    hide Tree, Local, ValidName;
    var g := Names(img);
    EntryFacts(g, i);
    var es := Entries(g, i);
    var l: seq<nat> := seq(|es|, k requires 0 <= k < |es| => es[k].id);
    ShortList(l, g.Keys);
    SmallSet(g.Keys, ID_LIMIT);
  }

  lemma ListStored(es: seq<Dentry>)
    requires |es| <= ID_LIMIT + 1 && forall e :: e in es ==> ValidName(e.name) && e.id < ID_LIMIT
    ensures Decode(Encode(es)) == Some(es)
  {
    AnyListStored(es);
  }

  lemma SaveNames(img: Image, i: nat, es: seq<Dentry>)
    requires Decode(Encode(es)) == Some(es)
    ensures Names(Save(img, i, es)) == Names(img)[i := Dir(es)]
  {
  }

  lemma {:induction false} RemoveNameSubset(es: seq<Dentry>, name: Bytes)
    ensures |RemoveName(es, name)| <= |es|
    ensures forall e :: e in RemoveName(es, name) ==> e in es
  {
    if es != [] {
      RemoveNameSubset(es[1..], name);
      assert es == [es[0]] + es[1..];
    }
  }

  lemma OpenIsEntries(img: Image, i: nat)
    requires Readable(img)
    ensures OpenDir(img, i).Ok? <==> i in Names(img) && Names(img)[i].Dir?
    ensures OpenDir(img, i).Ok? ==> OpenDir(img, i).value == Entries(Names(img), i)
    ensures i in img ==> (OpenDir(img, i).Err? <==> OpenDir(img, i) == Err(NotADirectory))
    ensures i !in img ==> OpenDir(img, i) == Err(InodeNotFound)
  {
  }

  /** A name that can be stored and does not shadow the snapshot entry of the root. */
  predicate MakeSafe(parent: nat, name: Bytes) {
    1 <= |name| < NAME_FIELD && (parent == ROOT ==> name != SNAPSHOT_ENTRY)
  }

  /**
    * make_child_dentry_under_parent on a good image adds one entry and one node to the tree, and keeps the image good
    * exactly when the name can be stored and does not shadow the snapshot entry.
    */
  lemma MakeRefines(img: Image, parent: nat, name: Bytes, id: nat, isDir: bool)
    requires GoodImage(img) && id !in img && id < ID_LIMIT
    ensures var r := ImgMake(img, parent, name, Some(id), isDir);
            r.Ok? ==>
              && (GoodImage(r.value) <==> MakeSafe(parent, name))
              && (MakeSafe(parent, name) ==> Names(r.value) == GMake(Names(img), parent, name, id, isDir))
  {
    hide GoodImage, OpenDir, BadName, ValidName, Find, Encode, DecodeAll;
    if ImgMake(img, parent, name, Some(id), isDir).Ok? {
      MadeEntries(img, parent, name, id, isDir);
      if MakeSafe(parent, name) {
        MakeStored(img, parent, name, id, isDir);
      } else if |name| >= NAME_FIELD {
        LongNameBad(img, parent, name, id, isDir);
      } else {
        ShortNameBad(img, parent, name, id, isDir);
      }
    }
  }

  lemma MadeEntries(img: Image, parent: nat, name: Bytes, id: nat, isDir: bool)
    requires GoodImage(img) && ImgMake(img, parent, name, Some(id), isDir).Ok?
    ensures !BadName(name) && parent in img && img[parent].isDir && Find(Entries(Names(img), parent), name) == None
    ensures ImgMake(img, parent, name, Some(id), isDir).value ==
            Save(img[id := Node(isDir, [])], parent, Entries(Names(img), parent) + [Dentry(name, id)])
  {
    OpenIsEntries(img, parent);
    hide GoodImage, Names, Encode, BadName, Find, OpenDir;
  }

  lemma MakeStored(img: Image, parent: nat, name: Bytes, id: nat, isDir: bool)
    requires GoodImage(img) && id !in img && id < ID_LIMIT && MakeSafe(parent, name) && !BadName(name)
    requires parent in img && img[parent].isDir && Find(Entries(Names(img), parent), name) == None
    ensures var img2 := Save(img[id := Node(isDir, [])], parent, Entries(Names(img), parent) + [Dentry(name, id)]);
            GoodImage(img2) && Names(img2) == GMake(Names(img), parent, name, id, isDir)
  {
    var es2 := Entries(Names(img), parent) + [Dentry(name, id)];
    hide Tree, Encode, BadName, ValidName;
    CleanName(name);
    FewEntries(img, parent);
    ListStored(es2);
    MakeImage(img, parent, name, id, isDir);
    hide Readable, Entries, GMake;
    MakeKeepsTree(Names(img), parent, name, id, isDir);
  }

  /** A directory that shows a name that is not valid is part of no good image. */
  lemma BadEntry(img: Image, i: nat, e: Dentry)
    requires i in img && img[i].isDir && Decode(img[i].bytes).Some? && e in Decode(img[i].bytes).value
    requires !ValidName(e.name) || (i == ROOT && e.name == SNAPSHOT_ENTRY)
    ensures !GoodImage(img)
  {
    hide Decode;
    assert Edge(Names(img), i, e) && !EdgeOk(Names(img), i, e);
  }

  lemma LongNameBad(img: Image, parent: nat, name: Bytes, id: nat, isDir: bool)
    requires GoodImage(img) && |name| >= NAME_FIELD && !BadName(name)
    requires parent in img && img[parent].isDir
    ensures !GoodImage(Save(img[id := Node(isDir, [])], parent, Entries(Names(img), parent) + [Dentry(name, id)]))
  {
    hide Tree, Encode, Decode, ValidName, Names;
    var es, e := Entries(Names(img), parent), Dentry(name, id);
    var img2 := Save(img[id := Node(isDir, [])], parent, es + [e]);
    NoNul(name);
    FewEntries(img, parent);
    LongNameShows(es, e);
    var d := Decode(Encode(es + [e]));
    if d.Some? {
      var x :| x in d.value && |x.name| == NAME_FIELD;
      NotValid(x.name);
      BadEntry(img2, parent, x);
    } else {
      Unreadable(img2, parent);
    }
  }

  lemma Unreadable(img: Image, i: nat)
    requires i in img && img[i].isDir && Decode(img[i].bytes).None?
    ensures !GoodImage(img)
  {
    hide Decode, Tree;
  }

  lemma NotValid(name: Bytes)
    requires |name| == 0 || |name| >= NAME_FIELD
    ensures !ValidName(name)
  {
  }

  lemma NoNul(name: Bytes)
    requires !BadName(name)
    ensures '\0' !in name
  {
    assert forall k :: 0 <= k < |name| ==> name[k] != '\0';
  }

  lemma ShortNameBad(img: Image, parent: nat, name: Bytes, id: nat, isDir: bool)
    requires GoodImage(img) && id < ID_LIMIT && |name| < NAME_FIELD && !MakeSafe(parent, name) && !BadName(name)
    requires parent in img && img[parent].isDir
    ensures !GoodImage(Save(img[id := Node(isDir, [])], parent, Entries(Names(img), parent) + [Dentry(name, id)]))
  {
    hide Tree, Encode, Decode, ValidName, Names;
    var es, e := Entries(Names(img), parent), Dentry(name, id);
    NoNul(name);
    FewEntries(img, parent);
    AnyListStored(es + [e]);
    if name == [] { NotValid(name); }
    assert e in es + [e];
    BadEntry(Save(img[id := Node(isDir, [])], parent, es + [e]), parent, e);
  }

  lemma AnyListStored(es: seq<Dentry>)
    requires |es| <= ID_LIMIT + 1 && forall e :: e in es ==>
             (ValidName(e.name) || (|e.name| < NAME_FIELD && '\0' !in e.name)) && e.id < ID_LIMIT
    ensures Decode(Encode(es)) == Some(es)
  {
    forall e | e in es
      ensures Storable(e)
    {
    }
    DirectoryRoundTrip(es);
  }

  lemma MakeImage(img: Image, parent: nat, name: Bytes, id: nat, isDir: bool)
    requires Readable(img) && id !in img && id < ID_LIMIT && parent in img && img[parent].isDir
    requires var es2 := Entries(Names(img), parent) + [Dentry(name, id)]; Decode(Encode(es2)) == Some(es2)
    ensures var img2 := Save(img[id := Node(isDir, [])], parent, Entries(Names(img), parent) + [Dentry(name, id)]);
            Names(img2) == GMake(Names(img), parent, name, id, isDir) && Readable(img2)
  {
    hide Encode, DecodeAll;
    var mid := img[id := Node(isDir, [])];
    assert Names(mid) == Names(img)[id := if isDir then Dir([]) else File];
    SaveNames(mid, parent, Entries(Names(img), parent) + [Dentry(name, id)]);
    assert parent != id;
  }

  lemma CleanName(name: Bytes)
    requires !BadName(name) && 1 <= |name| < NAME_FIELD
    ensures ValidName(name)
  {
    assert forall k :: 0 <= k < |name| ==> name[k] != '\0';
  }

  /** remove_child_dentry_under_parent on a good image takes one entry and one node out of the tree. */
  lemma RemoveRefines(img: Image, parent: nat, name: Bytes)
    requires GoodImage(img)
    ensures var r := ImgRemove(img, parent, name);
            r.Ok? ==>
              var target := RemovalTarget(img, parent, name).value;
              && Find(Entries(Names(img), parent), name) == Some(target)
              && Entries(Names(img), target) == []
              && parent in Names(img) && Names(img)[parent].Dir? && parent != target
              && Names(r.value) == GRemove(Names(img), parent, name, target)
              && GoodImage(r.value)
  {
    var r := ImgRemove(img, parent, name);
    if r.Ok? {
      var g := Names(img);
      var target := RemovalTarget(img, parent, name).value;
      RemovalFacts(img, parent, name);
      var es2 := RemoveName(Entries(g, parent), name);
      FewEntries(img, parent);
      RemoveNameSubset(Entries(g, parent), name);
      hide Tree, Encode, ValidName, RemoveName, RemovalTarget;
      ListStored(es2);
      RemoveLocal(g, parent, name, target);
      RemoveImage(img, parent, name, target);
      hide Readable, Entries, GRemove;
      RemoveKeepsTree(g, parent, name, target);
    }
  }

  lemma RemovalFacts(img: Image, parent: nat, name: Bytes)
    requires Readable(img) && RemovalTarget(img, parent, name).Ok?
    ensures var target := RemovalTarget(img, parent, name).value;
            && Find(Entries(Names(img), parent), name) == Some(target)
            && Entries(Names(img), target) == []
            && parent in img && img[parent].isDir && parent in Names(img) && Names(img)[parent].Dir?
            && OpenDir(img, parent) == Ok(Entries(Names(img), parent))
  {
    hide OpenDir, Readable, Find;
    OpenIsEntries(img, parent);
    OpenIsEntries(img, RemovalTarget(img, parent, name).value);
  }

  lemma RemoveImage(img: Image, parent: nat, name: Bytes, target: nat)
    requires Readable(img) && parent in img && img[parent].isDir && parent != target
    requires var es2 := RemoveName(Entries(Names(img), parent), name); Decode(Encode(es2)) == Some(es2)
    ensures var img2 := Save(img, parent, RemoveName(Entries(Names(img), parent), name)) - {target};
            Names(img2) == GRemove(Names(img), parent, name, target) && Readable(img2)
  {
    hide Encode, DecodeAll;
    SaveNames(img, parent, RemoveName(Entries(Names(img), parent), name));
  }
}
