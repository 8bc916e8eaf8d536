// The simple form of the filesystem: every version is a full copy.
module Histories {
  import opened ByteStrings
  import opened Buffers
  import opened FreeIds
  import opened Blocks
  import opened Inodes
  import opened Stores
  import opened Directories
  import opened Namespaces
  import opened Renames
  import opened PathStrings
  import opened Images
  import opened ImageRenames

  type History = map<Version, Image>

  datatype Op =
    | Write(i: nat, offset: nat, data: Bytes, resize: bool)
    | PWrite(i: nat, offset: nat, data: Bytes)
    | Truncate(i: nat, length: nat)
    | MakeChild(parent: nat, name: Bytes, isDir: bool)
    | RemoveChild(parent: nat, name: Bytes)
    | Rename(path: Bytes, name: Bytes)
    | CreateVolume(v: Version)
    | DeleteVolume(v: Version)

  /** The state after an operation and the number it returns. */
  datatype Done<+S> = Done(state: S, ret: nat)

  /** What a caller gets, and the state after the call, which an error does not always leave as it was. */
  datatype Reply<+S> = Reply(result: Result<nat>, state: S)

  function AllIds(h: History): set<nat> {
    set v, i | v in h && i in h[v] :: i
  }

  /** write() on the bytes of a file. */
  function WriteBytes(bs: nat, b: Bytes, offset: nat, d: Bytes, resize: bool): Result<(Bytes, nat)>
    requires bs > 0
  {
    if d == [] then Ok((b, 0))
    else if resize then Ok((Resize(b, offset) + d, |d|))
    else if offset == |b| && offset % bs == 0 then Err(OutOfRange)
    else Ok((BufWrite(b, d, offset, false), Fitting(|b|, |d|, offset)))
  }

  function AbsWrite(bs: nat, h: History, i: nat, offset: nat, d: Bytes, resize: bool): Result<Done<History>>
    requires bs > 0 && CURRENT in h
  {
    var img := h[CURRENT];
    if i !in img then Err(InodeNotFound)
    else if img[i].isDir then Err(InvalidWriteInvoke)
    else
      match WriteBytes(bs, img[i].bytes, offset, d, resize)
      case Err(e) => Err(e)
      case Ok((b, n)) => Ok(Done(h[CURRENT := img[i := Node(false, b)]], n))
  }

  function FreshId(h: History): Option<nat> {
    if |AllIds(h)| == MAX_POOL_SIZE then None else Some(FreeId(AllIds(h)))
  }

  function OnCurrent(h: History, r: Result<Image>, ret: nat): Result<Done<History>> {
    match r
    case Err(e) => Err(e)
    case Ok(img) => Ok(Done(h[CURRENT := img], ret))
  }

  /** do_rename on the current copy: the detour through the snapshot entry is taken away first. */
  function ImgRenameByPath(img: Image, path: Bytes, name: Bytes): Result<Image> {
    if CheckReadOnly(path).Err? then Err(CheckReadOnly(path).error)
    else if CheckReadOnly(name).Err? then Err(CheckReadOnly(name).error)
    else if path != [] && path[0] != SEPARATOR then Err(InvalidDentryName)
    else ImgRename(img, Effective(path), Effective(name))
  }

  function AbsApply(bs: nat, h: History, op: Op): Result<Done<History>>
    requires bs > 0 && CURRENT in h
  {
    var img := h[CURRENT];
    match op
    case Write(i, offset, d, resize) => AbsWrite(bs, h, i, offset, d, resize)
    case PWrite(i, offset, d) =>
      if i !in img then Err(InodeNotFound)
      else if img[i].isDir then Err(InvalidWriteInvoke)
      else Ok(Done(h[CURRENT := img[i := Node(false, PosixWrite(img[i].bytes, offset, d))]], |d|))
    case Truncate(i, n) =>
      if i !in img then Err(InodeNotFound)
      else Ok(Done(h[CURRENT := img[i := Node(img[i].isDir, Resize(img[i].bytes, n))]], 0))
    case MakeChild(parent, name, isDir) =>
      OnCurrent(h, ImgMake(img, parent, name, FreshId(h), isDir), FreshId(h).GetOr(0))
    case RemoveChild(parent, name) => OnCurrent(h, ImgRemove(img, parent, name), 0)
    case Rename(path, name) => OnCurrent(h, ImgRenameByPath(img, path, name), 0)
    case CreateVolume(v) => if v in h then Err(DoubleSnapshot) else Ok(Done(h[v := img], 0))
    case DeleteVolume(v) => if v !in h || v == CURRENT then Err(NoSuchSnapshot) else Ok(Done(h - {v}, 0))
  }

  /** Inode `i` was removed, and only snapshots still list it. */
  ghost predicate OnlyInSnapshots(h: History, i: nat)
    requires CURRENT in h
  {
    i in AllIds(h) && i !in h[CURRENT]
  }

  /**
    * The renames that keep every version a tree: the target is not below the source, and its name can be stored and is
    * not that of the snapshot entry. The source `/.snapshot/current` stands above every target but itself.
    */
  ghost predicate RenameSafe(path: Bytes, name: Bytes) {
    var src, tgt := Effective(path), Effective(name);
    && (tgt != [] ==> ValidName(Last(tgt)))
    && tgt != [SNAPSHOT_ENTRY]
    && (Components(path) == [] || !(src < tgt))
  }

  /** What the source's callers guarantee. */
  ghost predicate Legal(h: History, op: Op)
    requires CURRENT in h
  {
    var img := h[CURRENT];
    match op
    case Write(_, _, _, _) => true
    case PWrite(_, _, _) => true
    case Truncate(i, _) => i in img ==> !img[i].isDir
    case MakeChild(parent, name, _) =>
      !OnlyInSnapshots(h, parent) && MakeSafe(parent, name)
    case RemoveChild(parent, _) => !OnlyInSnapshots(h, parent)
    case Rename(path, name) => CheckReadOnly(path).Ok? && CheckReadOnly(name).Ok? ==> RenameSafe(path, name)
    case CreateVolume(_) => true
    case DeleteVolume(_) => true
  }

  /** A change of an inode that was removed and that only snapshots still list. */
  ghost predicate Hidden(h: History, op: Op)
    requires CURRENT in h
  {
    match op
    case Write(i, _, _, _) => OnlyInSnapshots(h, i)
    case PWrite(i, _, _) => OnlyInSnapshots(h, i)
    case Truncate(i, _) => OnlyInSnapshots(h, i)
    case _ => false
  }

  /** Every version shows a tree, and no more inodes exist than a pool can hold. */
  ghost predicate GoodHistory(h: History) {
    CURRENT in h && |AllIds(h)| <= MAX_POOL_SIZE && forall v :: v in h ==> GoodImage(h[v])
  }

  // ---- One step ----

  /** Any other version is exactly what it was. */
  lemma AbsIsolation(bs: nat, h: History, op: Op, v: Version)
    requires bs > 0 && CURRENT in h && v in h && v != CURRENT && op != DeleteVolume(v)
    requires AbsApply(bs, h, op).Ok?
    ensures var h2 := AbsApply(bs, h, op).value.state; v in h2 && h2[v] == h[v] && CURRENT in h2
  {
  }

  lemma FreshIdSmall(h: History)
    requires GoodHistory(h) && FreshId(h).Some?
    ensures FreshId(h).value < ID_LIMIT
    ensures forall v :: v in h ==> FreshId(h).value !in h[v]
  {
    forall v | v in h
      ensures FreshId(h).value !in h[v]
    {
      assert forall i :: i in h[v] ==> i in AllIds(h);
    }
  }

  lemma FileKeepsGood(img: Image, i: nat, b: Bytes)
    requires GoodImage(img) && i in img && !img[i].isDir
    ensures GoodImage(img[i := Node(false, b)])
  {
    hide Tree, Decode;
    assert Names(img[i := Node(false, b)]) == Names(img);
  }

  lemma CurrentStaysGood(bs: nat, h: History, op: Op)
    requires bs > 0 && GoodHistory(h) && Legal(h, op)
    requires AbsApply(bs, h, op).Ok?
    ensures var h2 := AbsApply(bs, h, op).value.state; CURRENT in h2 && GoodImage(h2[CURRENT])
  {
    hide GoodImage, ImgMake, ImgRemove, ImgRenameByPath, RenameSafe, WriteBytes, PosixWrite, FreshId, AllIds, ValidName;
    var img := h[CURRENT];
    assert GoodImage(img);
    match op
    case Write(i, offset, d, resize) => FileKeepsGood(img, i, WriteBytes(bs, img[i].bytes, offset, d, resize).value.0);
    case PWrite(i, offset, d) => FileKeepsGood(img, i, PosixWrite(img[i].bytes, offset, d));
    case Truncate(i, n) => FileKeepsGood(img, i, Resize(img[i].bytes, n));
    case MakeChild(parent, name, isDir) =>
      MakeHasId(img, parent, name, FreshId(h), isDir);
      FreshIdSmall(h);
      MakeRefines(img, parent, name, FreshId(h).value, isDir);
    case RemoveChild(parent, name) => RemoveRefines(img, parent, name);
    case Rename(path, name) => RenameGood(img, path, name);
    case CreateVolume(v) =>
    case DeleteVolume(v) =>
  }

  lemma MakeHasId(img: Image, parent: nat, name: Bytes, id: Option<nat>, isDir: bool)
    requires ImgMake(img, parent, name, id, isDir).Ok?
    ensures id.Some?
  {
  }

  lemma RenameGood(img: Image, path: Bytes, name: Bytes)
    requires GoodImage(img) && ImgRenameByPath(img, path, name).Ok?
    requires CheckReadOnly(path).Ok? && CheckReadOnly(name).Ok? ==> RenameSafe(path, name)
    ensures GoodImage(ImgRenameByPath(img, path, name).value)
  {
    var src, tgt := Effective(path), Effective(name);
    hide GoodImage, ValidName, Moves, OthersStay, ContentsStay, Effective, Components, CheckReadOnly;
    assert RenameCheck(img, src, tgt).Ok? by { hide ImgMove, RenameCheck; }
    assert src != [] ==> Components(path) != [] by { EffectiveNonempty(path); }
    hide RenameCheck, ImgRename;
    RenameRefines(img, src, tgt);
  }

  lemma EffectiveNonempty(path: Bytes)
    ensures Effective(path) != [] ==> Components(path) != []
  {
    hide Components;
  }

  lemma RenameKeys(img: Image, src: Path, tgt: Path)
    requires ImgRename(img, src, tgt).Ok?
    ensures ImgRename(img, src, tgt).value.Keys <= img.Keys
  {
    hide Find, Resolve, Encode, Decode;
  }

  lemma CurrentKeys(bs: nat, h: History, op: Op)
    requires bs > 0 && CURRENT in h && AbsApply(bs, h, op).Ok?
    ensures var h2 := AbsApply(bs, h, op).value.state;
            && CURRENT in h2
            && h2[CURRENT].Keys <= h[CURRENT].Keys +
               if op.MakeChild? && FreshId(h).Some? then {FreshId(h).value} else {}
  {
    hide ImgRename, Encode, Decode, Find, FreshId, WriteBytes, PosixWrite, BadName, CheckReadOnly, Effective;
    if op.Rename? { RenameKeys(h[CURRENT], Effective(op.path), Effective(op.name)); }
  }

  lemma FewIds(bs: nat, h: History, op: Op)
    requires bs > 0 && CURRENT in h && |AllIds(h)| <= MAX_POOL_SIZE
    requires AbsApply(bs, h, op).Ok?
    ensures |AllIds(AbsApply(bs, h, op).value.state)| <= MAX_POOL_SIZE
  {
    var h2 := AbsApply(bs, h, op).value.state;
    var more := if op.MakeChild? && FreshId(h).Some? then {FreshId(h).value} else {};
    CurrentKeys(bs, h, op);
    if op.MakeChild? { MakeHasId(h[CURRENT], op.parent, op.name, FreshId(h), op.isDir); }
    forall i | i in AllIds(h2)
      ensures i in AllIds(h) + more
    {
      var v :| v in h2 && i in h2[v];
      if v != CURRENT && op != CreateVolume(v) { OldVersion(bs, h, op, v); }
    }
    hide AllIds, AbsApply;
    Subset(AllIds(h2), AllIds(h) + more);
    if more != {} { Subset(AllIds(h) + more, AllIds(h) + more); }
  }

  lemma OldVersion(bs: nat, h: History, op: Op, v: Version)
    requires bs > 0 && CURRENT in h && v != CURRENT && op != CreateVolume(v)
    requires AbsApply(bs, h, op).Ok? && v in AbsApply(bs, h, op).value.state
    ensures v in h && AbsApply(bs, h, op).value.state[v] == h[v]
  {
    hide ImgMake, ImgRemove, ImgRenameByPath, WriteBytes, PosixWrite, FreshId;
  }

  lemma Subset(a: set<nat>, b: set<nat>)
    requires a <= b
    ensures |a| <= |b|
  {
    if a != {} {
      var x :| x in a;
      Subset(a - {x}, b - {x});
    }
  }

  /** Every step of the simple form keeps every version a tree. */
  lemma StepKeepsGood(bs: nat, h: History, op: Op)
    requires bs > 0 && GoodHistory(h) && Legal(h, op)
    requires AbsApply(bs, h, op).Ok?
    ensures GoodHistory(AbsApply(bs, h, op).value.state)
  {
    var h2 := AbsApply(bs, h, op).value.state;
    CurrentStaysGood(bs, h, op);
    FewIds(bs, h, op);
    hide AllIds, GoodImage;
    forall v | v in h2
      ensures GoodImage(h2[v])
    {
      if v != CURRENT && op != CreateVolume(v) { OldVersion(bs, h, op, v); }
    }
  }
}
