// The write and rename handlers, from path strings to the filesystem object.
module Fuse {
  import opened ByteStrings
  import opened Inodes
  import opened Stores
  import opened Snapshots
  import opened Directories
  import opened Namespaces
  import opened Renames
  import opened PathStrings
  import opened Images
  import opened Histories
  import opened Filesystems
  import opened Refinement
  import opened StoreRenames
  import opened Runs
  import opened Pools
  import opened InodeObjects
  import opened FilesystemObjects

  ghost function WriteByPath(s: Store, path: Bytes, offset: nat, d: Bytes): Result<Done<Store>>
    requires s.bs > 0
  {
    if CheckReadOnly(path).Err? then Err(CheckReadOnly(path).error)
    else
      match InodeIdByPath(s, path)
      case Err(e) => Err(e)
      case Ok(i) => StorePWrite(s, i, offset, d)
  }

  /** What a path that is not under a snapshot leads to in the current version. */
  ghost function CurrentTarget(img: Image, path: Bytes): Result<nat> {
    if path == [] || path[0] == SEPARATOR then Lookup(img, Effective(path)) else Err(InvalidDentryName)
  }

  /** Writing to a path is POSIX write() on the file that the path leads to, and touches nothing else in any version. */
  lemma WriteByPathIsPosix(s: Store, path: Bytes, offset: nat, d: Bytes)
    requires Reachable(s)
    ensures CheckReadOnly(path).Err? ==> WriteByPath(s, path, offset, d) == Err(CheckReadOnly(path).error)
    ensures CheckReadOnly(path).Ok? ==>
              var img := View(s, CURRENT);
              match CurrentTarget(img, path)
              case Err(e) => WriteByPath(s, path, offset, d) == Err(e)
              case Ok(i) =>
                && i in img
                && if img[i].isDir then WriteByPath(s, path, offset, d) == Err(InvalidWriteInvoke)
                   else
                     var r := WriteByPath(s, path, offset, d);
                     && r.Ok? && r.value.ret == |d| && StoreInv(r.value.state)
                     && Abs(r.value.state) ==
                        Abs(s)[CURRENT := img[i := Node(false, PosixWrite(img[i].bytes, offset, d))]]
  {
    hide Reachable, Inv, StoreInv, View, Lookup, StorePWrite, InodeIdByPath, PosixWrite, Abs, Effective, CheckReadOnly;
    ReachableInv(s);
    var img := View(s, CURRENT);
    if CheckReadOnly(path).Ok? {
      TargetLookedUp(s, path);
      if CurrentTarget(img, path).Ok? {
        var i := CurrentTarget(img, path).value;
        LookupShown(s, Effective(path));
        InvStore(s);
        PWriteRefines(s, i, offset, d);
        ShownParent(s, i);
        AbsCurrent(s);
      }
    }
  }

  lemma TargetLookedUp(s: Store, path: Bytes)
    requires Inv(s) && CheckReadOnly(path).Ok?
    ensures InodeIdByPath(s, path) == CurrentTarget(View(s, CURRENT), path)
  {
    hide Inv, View, Lookup, Effective, CheckReadOnly, StoreResolve;
    if path == [] || path[0] == SEPARATOR {
      LookupChecked(s, path);
      ResolveRefines(s, CURRENT, Effective(path));
    }
  }

  method CheckRdonlyFs(path: Bytes) returns (r: Result<()>)
    ensures r == CheckReadOnly(path)
  {
    var parsed := IfSnapshotMethod(path);
    if parsed.Err? {
      return Err(parsed.error);
    }
    return if parsed.value.0 != CURRENT then Err(ReadOnlyFilesystem) else Ok(());
  }

  /** do_write: resize exactly when the write would not fit. */
  method DoWrite(fs: InodeSmi, path: Bytes, buffer: Bytes, offset: nat) returns (r: Result<nat>)
    requires fs.Valid() && StoreInv(fs.State())
    modifies fs.Nodes, fs.bufferPool.Repr
    ensures fs.Valid() && fresh(fs.bufferPool.Repr - old(fs.bufferPool.Repr))
    ensures Reply(r, fs.State()) == Answer(old(fs.State()), WriteByPath(old(fs.State()), path, offset, buffer))
  {
    hide BufferPool.Valid, BufferPool.Packs, InodeSmi.Valid, InodeSmi.State, Inode.Valid, Inode.LoadedAt,
         Inode.ShapedAt,
         StoreInv, CheckReadOnly, InodeIdByPath, StoreWrite;
    var checked := CheckRdonlyFs(path);
    if checked.Err? {
      return Err(checked.error);
    }
    var id := fs.GetInodeIdByPath(path);
    if id.Err? {
      return Err(id.error);
    }
    r := WriteBySize(fs, id.value, buffer, offset);
  }

  method WriteBySize(fs: InodeSmi, i: nat, buffer: Bytes, offset: nat) returns (r: Result<nat>)
    requires fs.Valid() && StoreInv(fs.State())
    modifies fs.Nodes, fs.bufferPool.Repr
    ensures fs.Valid() && fresh(fs.bufferPool.Repr - old(fs.bufferPool.Repr))
    ensures Reply(r, fs.State()) == Answer(old(fs.State()), StorePWrite(old(fs.State()), i, offset, buffer))
  {
    hide BufferPool.Valid, BufferPool.Packs, InodeSmi.State, Inode.LoadedAt, Inode.ShapedAt, StoreInv, StoreWrite;
    if i !in fs.inodePool {
      return Err(InodeNotFound);
    }
    fs.InodeReadyAt(i, CURRENT);
    var size := fs.inodePool[i].inode.CurrentDataSize(CURRENT);
    var ifResize := false;
    if offset + |buffer| > size.value {
      ifResize := true;
    }
    r := fs.WriteInode(i, buffer, offset, ifResize);
  }

  // ---- Renaming ----

  /** Open directory `i` and enter a name in it. */
  method Enter(fs: InodeSmi, i: nat, name: Bytes, x: nat) returns (r: Result<()>)
    requires fs.Valid() && StoreInv(fs.State())
    modifies fs.Nodes, fs.bufferPool.Repr
    ensures fs.Valid() && fresh(fs.bufferPool.Repr - old(fs.bufferPool.Repr))
    ensures Stepped(StoreLink(old(fs.State()), i, name, x), r, fs.State())
    ensures r.Err? ==> fs.State() == old(fs.State())
  {
    hide BufferPool.Valid, BufferPool.Packs, InodeSmi.Valid, InodeSmi.State, Inode.Valid, Inode.LoadedAt,
         Inode.ShapedAt,
         StoreInv, OpenInode, Find, StoreSave;
    var resolver := fs.OpenAt(i, CURRENT);
    if resolver.Err? {
      return Err(resolver.error);
    }
    fs.InodeReadyAt(i, CURRENT);
    r := fs.LinkEntry(i, resolver.value, name, x);
  }

  /** When the target's slot has to be freed, the state stays sound. */
  ghost predicate RemovalSound(s: Store, t: nat, name: Bytes)
    requires s.bs > 0 && CURRENT in s.versions
  {
    StoreRemove(s, t, name).Ok? ==> StoreInv(StoreRemove(s, t, name).value.state)
  }

  /** The first half: enter the moved inode, if need be after the entry that is in the way is removed. */
  method EnterTargetSlot(fs: InodeSmi, t: nat, name: Bytes, x: nat) returns (r: Result<nat>)
    requires fs.Valid() && StoreInv(fs.State()) && RemovalSound(fs.State(), t, name)
    modifies fs, fs.Nodes, fs.bufferPool.Repr
    ensures fs.Valid() && fresh(fs.bufferPool.Repr - old(fs.bufferPool.Repr)) && fs.Nodes == old(fs.Nodes)
    ensures Reply(r, fs.State()) == EnterTarget(old(fs.State()), t, name, x)
  {
    hide BufferPool.Valid, BufferPool.Packs, InodeSmi.Valid, InodeSmi.State, StoreInv, StoreLink, StoreRemove;
    fs.ValidPool();
    var entered := Enter(fs, t, name, x);
    if entered == Err(DoubleMkPathname) {
      var removed := fs.RemoveChildDentryUnderParent(t, name);
      if removed.Err? {
        return Err(removed.error);
      }
      fs.ValidPool();
      entered := Enter(fs, t, name, x);
    }
    return if entered.Ok? then Ok(0) else Err(entered.error);
  }

  /** The second half: look the source's directory up again and clear the old entry. */
  method ClearSourceSlot(fs: InodeSmi, front: PathT, name: Bytes) returns (r: Result<nat>)
    requires fs.Valid() && StoreInv(fs.State())
    modifies fs.Nodes, fs.bufferPool.Repr
    ensures fs.Valid() && fresh(fs.bufferPool.Repr - old(fs.bufferPool.Repr))
    ensures Reply(r, fs.State()) ==
            ClearSource(old(fs.State()), InodeIdByPath(old(fs.State()), Print(old(front.pathname))), name)
  {
    hide BufferPool.Valid, BufferPool.Packs, InodeSmi.Valid, InodeSmi.State, Inode.Valid, Inode.LoadedAt,
         Inode.ShapedAt,
         StoreInv, OpenInode, Find, StoreSave, InodeIdByPath, RemoveName, Print;
    var text := front.ToString();
    var parent := fs.GetInodeIdByPath(text);
    if parent.Err? {
      return Err(parent.error);
    }
    var resolver := fs.OpenAt(parent.value, CURRENT);
    if resolver.Err? {
      return Err(resolver.error);
    }
    fs.InodeReadyAt(parent.value, CURRENT);
    var removed := fs.UnlinkEntry(parent.value, resolver.value, name);
    return if removed.Ok? then Ok(0) else Err(removed.error);
  }

  /** Where the target's directory is found, the first half can be carried out and leaves a sound state. */
  lemma TargetSound(s: Store, name: Bytes, t: nat, x: nat)
    requires Inv(s) && CheckReadOnly(name).Ok? && Components(name) != []
    requires InodeIdByPath(s, Print(Front(Components(name)))) == Ok(t)
    ensures RemovalSound(s, t, Last(Components(name)))
    ensures StoreInv(EnterTarget(s, t, Last(Components(name)), x).state)
  {
    hide Inv, StoreInv, View, Abs, StoreResolve, Resolve, EnterTarget, StoreRemove, ImgRemove, FreeSlot,
         CheckReadOnly, Effective, Components, Print,
         InodeIdByPath, ImgLink;
    FrontLookup(s, name);
    ResolveRefines(s, CURRENT, Front(Effective(name)));
    LookupShown(s, Front(Effective(name)));
    InvStore(s);
    ShownParent(s, t);
    RemoveRefinesStore(s, t, Last(Components(name)));
    EnterRefines(s, t, Last(Components(name)), x);
  }

  lemma PrintRooted(p: Path)
    ensures Print([[]] + p) == Print(p)
  {
    PrintAppend([[]], p);
  }

  /** Parse a path and take its last name off. */
  method SplitPath(path: Bytes) returns (parent: PathT, last: Bytes)
    ensures fresh(parent)
    ensures if Components(path) == [] then parent.pathname == []
            else parent.pathname == [[]] + Front(Components(path)) && last == Last(Components(path))
  {
    hide Components;
    parent := new PathT(path);
    last := parent.PopEnd();
    if parent.pathname != [] { Popped(Components(path), parent.pathname, last); }
  }

  lemma Popped(p: Path, front: Path, last: Bytes)
    requires front + [last] == [[]] + p && front != []
    ensures p != [] && front == [[]] + Front(p) && last == Last(p)
  {
    assert (front + [last])[..|front|] == front;
    assert (front + [last])[|front|] == last;
  }

  /** Inode `x` gets its new entry, then loses its old one. */
  method MoveDentry(fs: InodeSmi, x: nat, original: PathT, originalName: Bytes, target: PathT, targetName: Bytes,
                    ghost path: Path, ghost name: Bytes)
    returns (r: Result<nat>)
    requires fs.Valid() && Inv(fs.State()) && CheckReadOnly(name).Ok? && path != [] && Components(name) != []
    requires original.pathname == [[]] + Front(path) && originalName == Last(path)
    requires target.pathname == [[]] + Front(Components(name)) && targetName == Last(Components(name))
    requires original !in fs.bufferPool.Repr
    modifies fs, fs.Nodes, fs.bufferPool.Repr
    ensures fs.Valid() && fresh(fs.bufferPool.Repr - old(fs.bufferPool.Repr)) && fs.Nodes == old(fs.Nodes)
    ensures Reply(r, fs.State()) == RenameParsed(old(fs.State()), Ok(x), path, Components(name))
  {
    hide BufferPool.Valid, BufferPool.Packs, InodeSmi.Valid, InodeSmi.State, Inv, StoreInv, InodeIdByPath,
         EnterTarget, ClearSource,
         RemovalSound, Print, Components, CheckReadOnly;
    ghost var s := fs.State();
    InvStore(s);
    PrintRooted(Front(path));
    PrintRooted(Front(Components(name)));
    var text := target.ToString();
    var t := fs.GetInodeIdByPath(text);
    if t.Err? {
      return Err(t.error);
    }
    TargetSound(s, name, t.value, x);
    r := EnterTargetSlot(fs, t.value, targetName, x);
    if r.Err? {
      return;
    }
    fs.ValidPool();
    r := ClearSourceSlot(fs, original, originalName);
  }

  /** do_rename after its two checks. */
  method RenameChecked(fs: InodeSmi, path: Bytes, name: Bytes) returns (r: Result<nat>)
    requires fs.Valid() && Inv(fs.State()) && CheckReadOnly(name).Ok?
    modifies fs, fs.Nodes, fs.bufferPool.Repr
    ensures fs.Valid() && fresh(fs.bufferPool.Repr - old(fs.bufferPool.Repr)) && fs.Nodes == old(fs.Nodes)
    ensures Reply(r, fs.State()) ==
            RenameParsed(old(fs.State()), InodeIdByPath(old(fs.State()), path), Components(path), Components(name))
  {
    hide BufferPool.Valid, BufferPool.Packs, InodeSmi.Valid, InodeSmi.State, Inv, StoreInv, InodeIdByPath,
         EnterTarget, ClearSource,
         CheckReadOnly, Components, Print;
    InvStore(fs.State());
    var inodeId := fs.GetInodeIdByPath(path);
    if inodeId.Err? {
      return Err(inodeId.error);
    }
    var original, originalName := SplitPath(path);
    if |original.pathname| == 0 {
      return Err(InvalidDentryName);
    }
    var target, targetName := SplitPath(name);
    if |target.pathname| == 0 {
      return Err(InvalidDentryName);
    }
    r := MoveDentry(fs, inodeId.value, original, originalName, target, targetName, Components(path), name);
  }

  /** do_rename, for any two strings. */
  method DoRename(fs: InodeSmi, path: Bytes, name: Bytes) returns (r: Result<nat>)
    requires fs.Valid() && Inv(fs.State())
    modifies fs, fs.Nodes, fs.bufferPool.Repr
    ensures fs.Valid() && fresh(fs.bufferPool.Repr - old(fs.bufferPool.Repr)) && fs.Nodes == old(fs.Nodes)
    ensures Reply(r, fs.State()) == RenameByPath(old(fs.State()), path, name)
  {
    hide BufferPool.Valid, BufferPool.Packs, InodeSmi.Valid, InodeSmi.State, Inv, CheckReadOnly, Components,
         InodeIdByPath, RenameParsed;
    var checked := CheckRdonlyFs(path);
    if checked.Err? {
      return Err(checked.error);
    }
    checked := CheckRdonlyFs(name);
    if checked.Err? {
      return Err(checked.error);
    }
    r := RenameChecked(fs, path, name);
  }

  // ---- One request ----

  /** A request is a call of the filesystem object or of one of the two handlers. */
  method Dispatch(fs: InodeSmi, op: Op) returns (r: Result<nat>)
    requires fs.Valid() && Inv(fs.State())
    modifies fs, fs.Nodes, fs.bufferPool.Repr
    ensures fs.Valid() && fresh(fs.bufferPool.Repr - old(fs.bufferPool.Repr)) && fresh(fs.Nodes - old(fs.Nodes))
    ensures Reply(r, fs.State()) == Apply(old(fs.State()), op)
  {
    hide BufferPool.Valid, BufferPool.Packs, InodeSmi.Valid, InodeSmi.State, Inv, StoreInv,
         StoreWrite, StorePWrite, StoreTruncate, StoreMake, StoreRemove, RenameByPath, CreateSnapshot,
           DeleteSnapshot, Answer;
    InvStore(fs.State());
    fs.ValidPool();
    match op {
      case Write(i, offset, d, resize) => r := fs.WriteInode(i, d, offset, resize);
      case PWrite(i, offset, d) => r := WriteBySize(fs, i, d, offset);
      case Truncate(i, n) => r := fs.TruncateInode(i, n);
      case MakeChild(parent, name, isDir) => r := fs.MakeChildDentryUnderParent(parent, name, isDir);
      case RemoveChild(parent, name) => r := fs.RemoveChildDentryUnderParent(parent, name);
      case Rename(path, name) => r := DoRename(fs, path, name);
      case CreateVolume(v) => r := fs.CreateSnapshotVolume(v);
      case DeleteVolume(v) => r := fs.DeleteSnapshotVolume(v);
    }
  }

  /** The object follows the runs: any request takes it to the next state, and a legal one keeps it sound. */
  method Serve(fs: InodeSmi, op: Op) returns (r: Result<nat>)
    requires fs.Valid() && Inv(fs.State())
    modifies fs, fs.Nodes, fs.bufferPool.Repr
    ensures fs.Valid() && fresh(fs.bufferPool.Repr - old(fs.bufferPool.Repr)) && fresh(fs.Nodes - old(fs.Nodes))
    ensures Reply(r, fs.State()) == Apply(old(fs.State()), op)
    ensures Legal(Abs(old(fs.State())), op) ==> Inv(fs.State())
  {
    hide BufferPool.Valid, BufferPool.Packs, InodeSmi.Valid, InodeSmi.State, Inv, Legal, Apply;
    if Legal(Abs(fs.State()), op) { NextInv(fs.State(), op); }
    r := Dispatch(fs, op);
  }
}
