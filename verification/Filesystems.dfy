// The operations of the store, and the proof that it behaves like a history of full copies.
module Filesystems {
  import opened ByteStrings
  import opened Buffers
  import opened FreeIds
  import opened Blocks
  import opened Chunks
  import opened Inodes
  import opened Stores
  import opened Snapshots
  import opened SnapshotInv
  import opened Directories
  import opened Namespaces
  import opened Renames
  import opened PathStrings
  import opened Images
  import opened Histories

  // ---- Single inodes ----

  ghost function StoreWriteRaw(s: Store, i: nat, offset: nat, d: Bytes, resize: bool): Result<Done<Store>>
    requires s.bs > 0 && i in s.inodes && CURRENT in s.inodes[i].vols
  {
    match WriteBank(s.bs, BankOf(s, i), offset, d, resize)
    case Err(e) => Err(e)
    case Ok((b, n)) => Ok(Done(WithBank(s, i, b), n))
  }

  ghost function StoreWrite(s: Store, i: nat, offset: nat, d: Bytes, resize: bool): Result<Done<Store>>
    requires s.bs > 0
  {
    if i !in s.inodes then Err(InodeNotFound)
    else if s.inodes[i].isDir then Err(InvalidWriteInvoke)
    else if CURRENT !in s.inodes[i].vols then Err(OutOfRange)
    else StoreWriteRaw(s, i, offset, d, resize)
  }

  /** do_write: resize exactly when the write would not fit. */
  ghost function StorePWrite(s: Store, i: nat, offset: nat, d: Bytes): Result<Done<Store>>
    requires s.bs > 0
  {
    if i !in s.inodes then Err(InodeNotFound)
    else StoreWrite(s, i, offset, d, offset + |d| > |NodeAt(s, i, CURRENT).bytes|)
  }

  ghost function StoreTruncate(s: Store, i: nat, n: nat): Result<Done<Store>>
    requires s.bs > 0
  {
    if i !in s.inodes then Err(InodeNotFound)
    else if CURRENT !in s.inodes[i].vols then Err(OutOfRange)
    else Ok(Done(WithBank(s, i, TruncateBank(s.bs, BankOf(s, i), n)), 0))
  }

  // ---- Directories ----

  /** The directory resolver's constructor on inode `i` at version `v`. */
  function OpenInode(s: Store, i: nat, v: Version): Result<seq<Dentry>> {
    if i !in s.inodes then Err(InodeNotFound) else OpenVols(s.pool, s.inodes[i].isDir, s.inodes[i].vols, v)
  }

  function OpenVols(p: Pool, isDir: bool, vols: Vols, v: Version): Result<seq<Dentry>> {
    if !isDir then Err(NotADirectory)
    else if v !in vols then Err(NoSuchSnapshot)
    else
      match Decode(Content(p, vols[v]))
      case None => Err(MalformedDirectory)
      case Some(es) => Ok(es)
  }

  /** save_current(): the directory bypasses the write check. */
  ghost function StoreSave(s: Store, i: nat, es: seq<Dentry>): (r: Store)
    requires s.bs > 0 && i in s.inodes && CURRENT in s.inodes[i].vols
    ensures r.bs == s.bs
  {
    match StoreWriteRaw(s, i, 0, Encode(es), true)
    case Err(_) => s
    case Ok(done) => done.state
  }

  function StoreResolve(s: Store, v: Version, i: nat, path: Path): Result<nat>
    decreases |path|
  {
    if path == [] then Ok(i)
    else
      match OpenInode(s, i, v)
      case Err(e) => Err(e)
      case Ok(es) =>
        match Find(es, path[0])
        case None => Err(NoSuchFileOrDir)
        case Some(child) => StoreResolve(s, v, child, path[1..])
  }

  /** get_inode_id_by_path. */
  function InodeIdByPath(s: Store, path: Bytes): Result<nat> {
    if path == [] then Ok(ROOT)
    else if path[0] != SEPARATOR then Err(InvalidDentryName)
    else
      match IfSnapshot(path)
      case Err(e) => Err(e)
      case Ok((version, rest)) =>
        var cs := Components(rest);
        if version != CURRENT && cs == [] then (if version in s.versions then Ok(ROOT) else Err(NoSuchSnapshot))
        else StoreResolve(s, version, ROOT, cs)
  }

  function AddInode(s: Store, n: nat, isDir: bool): Store {
    s.(inodes := s.inodes[n := InodePack(1, isDir, map[CURRENT := []])])
  }

  /** Put a new inode `n` into the pool, into directory `parent` and into the current version. */
  ghost function StoreAdd(s: Store, parent: nat, es: seq<Dentry>, name: Bytes, n: nat, isDir: bool): Store
    requires s.bs > 0 && CURRENT in s.versions && parent in s.inodes && n != parent && CURRENT in s.inodes[parent].vols
  {
    var s1 := StoreSave(AddInode(s, n, isDir), parent, es + [Dentry(name, n)]);
    s1.(versions := s1.versions[CURRENT := s.versions[CURRENT] + [n]])
  }

  /** What make_child_dentry_under_parent checks: the entries of the parent and the id of the child. */
  function MakeCheck(s: Store, parent: nat, name: Bytes): Result<(seq<Dentry>, nat)> {
    if BadName(name) then Err(InvalidDentryName)
    else
      match OpenInode(s, parent, CURRENT)
      case Err(e) => Err(e)
      case Ok(es) =>
        if Find(es, name).Some? then Err(DoubleMkPathname)
        else if |s.inodes| == MAX_POOL_SIZE then Err(IdDepleted)
        else Ok((es, FreeId(s.inodes.Keys)))
  }

  ghost function StoreMake(s: Store, parent: nat, name: Bytes, isDir: bool): Result<Done<Store>>
    requires s.bs > 0 && CURRENT in s.versions
  {
    match MakeCheck(s, parent, name)
    case Err(e) => Err(e)
    case Ok((es, n)) => Ok(Done(StoreAdd(s, parent, es, name, n, isDir), n))
  }

  function RemoveFirst(l: seq<nat>, x: nat): seq<nat> {
    if l == [] then [] else if l[0] == x then l[1..] else [l[0]] + RemoveFirst(l[1..], x)
  }

  /** Drop one link of an inode; the last one erases it and forgets its blocks. */
  function DropInode(s: Store, i: nat): Store
    requires i in s.inodes
  {
    var pack := s.inodes[i];
    if pack.links == 1 then s.(pool := LoseAll(s.pool, CurBlocks(s, i)), inodes := s.inodes - {i})
    else s.(inodes := s.inodes[i := pack.(links := if pack.links == 0 then MAX_COUNT else pack.links - 1)])
  }

  function StoreRemovalTarget(s: Store, parent: nat, name: Bytes): Result<nat> {
    match OpenInode(s, parent, CURRENT)
    case Err(e) => Err(e)
    case Ok(es) =>
      match Find(es, name)
      case None => Err(NoSuchFileOrDir)
      case Some(target) =>
        match OpenInode(s, target, CURRENT)
        case Ok(inside) => if inside != [] then Err(DirNotEmpty) else Ok(target)
        case Err(e) => if e == NotADirectory then Ok(target) else Err(e)
  }

  /** Take an entry out of its directory and the inode out of the current version. */
  ghost function StoreDetach(s: Store, parent: nat, es: seq<Dentry>, name: Bytes, target: nat): Store
    requires s.bs > 0 && CURRENT in s.versions && parent in s.inodes && CURRENT in s.inodes[parent].vols
  {
    var s1 := StoreSave(s, parent, RemoveName(es, name));
    s1.(versions := s1.versions[CURRENT := RemoveFirst(s.versions[CURRENT], target)])
  }

  ghost function StoreRemove(s: Store, parent: nat, name: Bytes): (r: Result<Done<Store>>)
    requires s.bs > 0 && CURRENT in s.versions
    ensures r.Ok? ==> r.value.state.bs == s.bs
  {
    match StoreRemovalTarget(s, parent, name)
    case Err(e) => Err(e)
    case Ok(target) =>
      var s2 := StoreDetach(s, parent, OpenInode(s, parent, CURRENT).value, name, target);
      if target !in s2.inodes then Err(InodeNotFound) else Ok(Done(DropInode(s2, target), 0))
  }

  ghost function StoreLink(s: Store, i: nat, name: Bytes, x: nat): (r: Result<Store>)
    requires s.bs > 0
    ensures r.Ok? ==> r.value.bs == s.bs
  {
    match OpenInode(s, i, CURRENT)
    case Err(e) => Err(e)
    case Ok(es) => if Find(es, name).Some? then Err(DoubleMkPathname) else Ok(StoreSave(s, i, es + [Dentry(name, x)]))
  }

  ghost function StoreUnlink(s: Store, i: nat, name: Bytes): Result<Store>
    requires s.bs > 0
  {
    match OpenInode(s, i, CURRENT)
    case Err(e) => Err(e)
    case Ok(es) => if Find(es, name).None? then Err(InodeNotFound) else Ok(StoreSave(s, i, RemoveName(es, name)))
  }

  // ---- Renaming ----

  /** The first half of do_rename: enter inode `x` at the target, where an entry of that name is removed first. */
  ghost function EnterTarget(s: Store, t: nat, name: Bytes, x: nat): (r: Reply<Store>)
    requires s.bs > 0 && CURRENT in s.versions
    ensures r.state.bs == s.bs
  {
    match StoreLink(s, t, name, x)
    case Ok(s2) => Reply(Ok(0), s2)
    case Err(e) =>
      if e != DoubleMkPathname then Reply(Err(e), s)
      else
        match StoreRemove(s, t, name)
        case Err(e) => Reply(Err(e), s)
        case Ok(done) =>
          match StoreLink(done.state, t, name, x)
          case Err(e) => Reply(Err(e), done.state)
          case Ok(s2) => Reply(Ok(0), s2)
  }

  /** The second half: clear the old entry in the source's directory, which has been looked up again. */
  ghost function ClearSource(s: Store, dir: Result<nat>, name: Bytes): Reply<Store>
    requires s.bs > 0
  {
    match dir
    case Err(e) => Reply(Err(e), s)
    case Ok(p) =>
      match StoreUnlink(s, p, name)
      case Err(e) => Reply(Err(e), s)
      case Ok(s2) => Reply(Ok(0), s2)
  }

  /** A rename in the current version, by components. */
  ghost function StoreRename(s: Store, src: Path, tgt: Path): Reply<Store>
    requires s.bs > 0 && CURRENT in s.versions
  {
    match StoreResolve(s, CURRENT, ROOT, src)
    case Err(e) => Reply(Err(e), s)
    case Ok(x) =>
      if src == [] || tgt == [] then Reply(Err(InvalidDentryName), s)
      else
        match StoreResolve(s, CURRENT, ROOT, Front(tgt))
        case Err(e) => Reply(Err(e), s)
        case Ok(t) =>
          var entered := EnterTarget(s, t, Last(tgt), x);
          if entered.result.Err? then entered
          else ClearSource(entered.state, StoreResolve(entered.state, CURRENT, ROOT, Front(src)), Last(src))
  }

  /** do_rename: all three lookups go by path strings. An error of the last one comes after the first change. */
  ghost function RenameByPath(s: Store, path: Bytes, name: Bytes): Reply<Store>
    requires s.bs > 0 && CURRENT in s.versions
  {
    if CheckReadOnly(path).Err? then Reply(Err(CheckReadOnly(path).error), s)
    else if CheckReadOnly(name).Err? then Reply(Err(CheckReadOnly(name).error), s)
    else RenameParsed(s, InodeIdByPath(s, path), Components(path), Components(name))
  }

  ghost function RenameParsed(s: Store, moved: Result<nat>, path: Path, name: Path): Reply<Store>
    requires s.bs > 0 && CURRENT in s.versions
  {
    match moved
    case Err(e) => Reply(Err(e), s)
    case Ok(x) =>
      if path == [] || name == [] then Reply(Err(InvalidDentryName), s)
      else
        match InodeIdByPath(s, Print(Front(name)))
        case Err(e) => Reply(Err(e), s)
        case Ok(t) =>
          var entered := EnterTarget(s, t, Last(name), x);
          if entered.result.Err? then entered
          else ClearSource(entered.state, InodeIdByPath(entered.state, Print(Front(path))), Last(path))
  }

  // ---- Any operation ----

  ghost function Apply(s: Store, op: Op): Reply<Store>
    requires s.bs > 0 && CURRENT in s.versions
  {
    match op
    case Write(i, offset, d, resize) => Answer(s, StoreWrite(s, i, offset, d, resize))
    case PWrite(i, offset, d) => Answer(s, StorePWrite(s, i, offset, d))
    case Truncate(i, n) => Answer(s, StoreTruncate(s, i, n))
    case MakeChild(parent, name, isDir) => Answer(s, StoreMake(s, parent, name, isDir))
    case RemoveChild(parent, name) => Answer(s, StoreRemove(s, parent, name))
    case Rename(path, name) => RenameByPath(s, path, name)
    case CreateVolume(v) => Answer(s, Returning(CreateSnapshot(s, v)))
    case DeleteVolume(v) => Answer(s, Returning(DeleteSnapshot(s, v)))
  }

  /** An operation that fails leaves the state alone. */
  function Answer<S>(s: S, r: Result<Done<S>>): Reply<S> {
    match r
    case Err(e) => Reply(Err(e), s)
    case Ok(done) => Reply(Ok(done.ret), done.state)
  }

  function Returning(r: Result<Store>): Result<Done<Store>> {
    match r
    case Err(e) => Err(e)
    case Ok(s) => Ok(Done(s, 0))
  }

  // ---- Abstraction and invariant ----

  /** The history of full copies that a store stands for. */
  ghost function Abs(s: Store): History {
    map v | v in s.versions :: View(s, v)
  }

  lemma AbsCurrent(s: Store)
    requires CURRENT in s.versions
    ensures CURRENT in Abs(s) && Abs(s)[CURRENT] == View(s, CURRENT)
  {
  }

  ghost predicate StoreInv(s: Store)
    ensures StoreInv(s) ==> s.bs > 0 && CURRENT in s.versions
  {
    BlocksInv(s) && ListsInv(s)
  }

  ghost predicate Inv(s: Store)
    ensures Inv(s) ==> s.bs > 0 && CURRENT in s.versions && CURRENT in Abs(s)
  {
    StoreInv(s) && GoodHistory(Abs(s))
  }

  /**
    * The reply to a request agrees with the outcome in the history: the same error and no change, or the same result.
    */
  ghost predicate Follows(s: Store, r: Reply<Store>, a: Result<Done<History>>) {
    match a
    case Err(e) => r == Reply(Err(e), s)
    case Ok(done) => r.result == Ok(done.ret) && StoreInv(r.state) && r.state.bs == s.bs && Abs(r.state) == done.state
  }

  lemma MatchesFollows(s: Store, r: Result<Done<Store>>, a: Result<Done<History>>)
    requires Matches(s.bs, r, a)
    ensures Follows(s, Answer(s, r), a)
  {
  }

  /** Two outcomes agree: the same error, or the same number and related states. */
  ghost predicate Matches(bs: nat, r: Result<Done<Store>>, a: Result<Done<History>>) {
    match r
    case Err(e) => a == Err(e)
    case Ok(done) => a.Ok? && StoreInv(done.state) && done.state.bs == bs && a.value == Done(Abs(done.state), done.ret)
  }

  lemma AbsIds(s: Store)
    requires StoreInv(s)
    ensures AllIds(Abs(s)) == s.inodes.Keys
  {
    forall i | i in s.inodes
      ensures i in AllIds(Abs(s))
    {
      assert CountOk(s, i);
      var v :| v in Listing(s, i);
      assert i in Abs(s)[v];
    }
    forall i | i in AllIds(Abs(s))
      ensures i in s.inodes
    {
      var v :| v in s.versions && i in s.versions[v];
      ListedInodes(s, v, i);
    }
  }

  // ---- Writes ----

  /** What a change of the current bytes of `i` means for the history. */
  lemma BankRefines(s: Store, i: nat, b: Bank, bytes: Bytes)
    requires StoreInv(s) && i in s.inodes
    requires Becomes(s.bs, s.pool, s.inodes[i].vols, b, bytes)
    ensures var s2 := WithBank(s, i, b);
            && StoreInv(s2)
            && Abs(s2) == if i in s.versions[CURRENT]
                          then Abs(s)[CURRENT := View(s, CURRENT)[i := Node(s.inodes[i].isDir, bytes)]]
                          else Abs(s)
  {
    hide BlocksInv, ListsInv, Becomes, View;
    BankUpdate(s, i, b, bytes);
    ListsUpdate(s, i, b);
    forall v | v in s.versions {
      ViewsUpdate(s, i, b, bytes, v);
    }
  }

  lemma InodeReady(s: Store, i: nat)
    requires StoreInv(s) && i in s.inodes
    ensures CURRENT in s.inodes[i].vols && InodeOk(s.pool, s.inodes[i].vols)
    ensures forall v :: v in s.inodes[i].vols ==> Shaped(s.bs, ChunksOf(s.pool, s.inodes[i].vols[v]))
  {
    assert CountOk(s, i);
  }

  /** `s2` is `s` but for the current bytes of `i`. */
  ghost predicate Rewrote(s: Store, s2: Store, i: nat, bytes: Bytes)
    requires i in s.inodes && CURRENT in s.versions
  {
    && StoreInv(s2)
    && s2.bs == s.bs && s2.versions == s.versions && s2.inodes.Keys == s.inodes.Keys
    && (forall j :: j in s.inodes ==> s2.inodes[j].(vols := s.inodes[j].vols) == s.inodes[j])
    && (forall j :: j in s.inodes ==> s2.inodes[j].vols.Keys == s.inodes[j].vols.Keys)
    && (forall j, v :: NodeAt(s2, j, v) ==
          if j == i && v == CURRENT then Node(s.inodes[i].isDir, bytes) else NodeAt(s, j, v))
    && Abs(s2) == if i in s.versions[CURRENT]
                  then Abs(s)[CURRENT := View(s, CURRENT)[i := Node(s.inodes[i].isDir, bytes)]]
                  else Abs(s)
  }

  lemma BankRewrites(s: Store, i: nat, b: Bank, bytes: Bytes)
    requires StoreInv(s) && i in s.inodes && CURRENT in s.inodes[i].vols
    requires Becomes(s.bs, s.pool, s.inodes[i].vols, b, bytes)
    ensures Rewrote(s, WithBank(s, i, b), i, bytes)
  {
    hide Becomes, StoreInv, Abs, View, NodeAt;
    BankRefines(s, i, b, bytes);
    forall j, v
      ensures NodeAt(WithBank(s, i, b), j, v) ==
              if j == i && v == CURRENT then Node(s.inodes[i].isDir, bytes) else NodeAt(s, j, v)
    {
      BankNodesInv(s, i, b, bytes, j, v);
    }
  }

  /** write() of an inode refines write() on bytes. */
  lemma WriteBankRefines(bs: nat, p: Pool, vols: Vols, offset: nat, d: Bytes, resize: bool)
    requires bs > 0 && InodeOk(p, vols) && Shaped(bs, ChunksOf(p, vols[CURRENT]))
    ensures var r := WriteBank(bs, Bank(p, vols[CURRENT]), offset, d, resize);
            match WriteBytes(bs, Content(p, vols[CURRENT]), offset, d, resize)
            case Err(e) => r == Err(e)
            case Ok((bytes, n)) => r.Ok? && r.value.1 == n && Becomes(bs, p, vols, r.value.0, bytes)
  {
    hide Becomes, InodeOk, Shaped, Flatten, TruncateBank, PutBank, Thaw, BufWrite;
    if d == [] {
      UnchangedBecomes(bs, p, vols);
    } else if resize {
      ResizingWriteRefines(bs, p, vols, offset, d);
    } else {
      FixedWriteAsBuffer(bs, p, vols, offset, d);
    }
  }

  lemma RawWriteRefines(s: Store, i: nat, offset: nat, d: Bytes, resize: bool)
    requires StoreInv(s) && i in s.inodes
    ensures CURRENT in s.inodes[i].vols
    ensures var r := StoreWriteRaw(s, i, offset, d, resize);
            match WriteBytes(s.bs, NodeAt(s, i, CURRENT).bytes, offset, d, resize)
            case Err(e) => r == Err(e)
            case Ok((bytes, n)) => r.Ok? && r.value.ret == n && Rewrote(s, r.value.state, i, bytes)
  {
    InodeReady(s, i);
    hide StoreInv, Becomes, InodeOk, Shaped, Flatten, WriteBank, WriteBytes, Rewrote;
    var vols := s.inodes[i].vols;
    WriteBankRefines(s.bs, s.pool, vols, offset, d, resize);
    var r := WriteBank(s.bs, BankOf(s, i), offset, d, resize);
    var a := WriteBytes(s.bs, NodeAt(s, i, CURRENT).bytes, offset, d, resize);
    if a.Ok? { BankRewrites(s, i, r.value.0, a.value.0); }
  }

  lemma BankNodesInv(s: Store, i: nat, b: Bank, bytes: Bytes, j: nat, v: Version)
    requires StoreInv(s) && i in s.inodes
    requires Becomes(s.bs, s.pool, s.inodes[i].vols, b, bytes)
    ensures NodeAt(WithBank(s, i, b), j, v) ==
            if j == i && v == CURRENT then Node(s.inodes[i].isDir, bytes) else NodeAt(s, j, v)
  {
    hide BlocksInv, ListsInv, Becomes;
    BankNodes(s, i, b, bytes, j, v);
  }

  lemma NodeInView(s: Store, i: nat)
    requires StoreInv(s) && i in s.inodes && i in s.versions[CURRENT]
    ensures i in View(s, CURRENT) && View(s, CURRENT)[i] == NodeAt(s, i, CURRENT)
            && NodeAt(s, i, CURRENT).isDir == s.inodes[i].isDir
  {
    InodeReady(s, i);
  }

  lemma ListedIffShown(s: Store, i: nat)
    requires StoreInv(s)
    ensures i in s.versions[CURRENT] <==> i in View(s, CURRENT)
    ensures i in s.inodes <==> i in View(s, CURRENT) || OnlyInSnapshots(Abs(s), i)
    ensures OnlyInSnapshots(Abs(s), i) ==> i !in s.versions[CURRENT]
  {
    AbsIds(s);
    if i in s.versions[CURRENT] { ListedInodes(s, CURRENT, i); }
  }

  /**
    * A change of an inode: no version sees it if only snapshots list the inode, and else it is the one of the
    * history.
    */
  ghost predicate Changes(s: Store, i: nat, r: Result<Done<Store>>, a: Result<Done<History>>)
    requires CURRENT in s.versions && CURRENT in Abs(s)
  {
    if OnlyInSnapshots(Abs(s), i)
    then r.Ok? ==> StoreInv(r.value.state) && r.value.state.bs == s.bs && Abs(r.value.state) == Abs(s)
    else Matches(s.bs, r, a)
  }

  lemma WriteRefines(s: Store, i: nat, offset: nat, d: Bytes, resize: bool)
    requires StoreInv(s)
    ensures Changes(s, i, StoreWrite(s, i, offset, d, resize), AbsWrite(s.bs, Abs(s), i, offset, d, resize))
  {
    hide StoreInv, View, WriteBytes, AllIds, OnlyInSnapshots;
    ListedIffShown(s, i);
    if i in s.inodes {
      if i in s.versions[CURRENT] { NodeInView(s, i); }
      hide NodeAt, StoreWriteRaw;
      if !s.inodes[i].isDir {
        RawWriteRefines(s, i, offset, d, resize);
      }
    }
  }

  /** do_write is the zero-filling overlay of POSIX write(). */
  lemma PWriteBytes(bs: nat, b: Bytes, offset: nat, d: Bytes)
    requires bs > 0
    ensures WriteBytes(bs, b, offset, d, offset + |d| > |b|) == Ok((PosixWrite(b, offset, d), |d|))
  {
    if d != [] {
      if offset + |d| > |b| {
        assert Overlay(Resize(b, offset + |d|), offset, d) == Resize(b, offset) + d;
      } else {
        assert d[..|d|] == d;
      }
    }
  }

  lemma PWriteRefines(s: Store, i: nat, offset: nat, d: Bytes)
    requires StoreInv(s)
    ensures Changes(s, i, StorePWrite(s, i, offset, d), AbsApply(s.bs, Abs(s), PWrite(i, offset, d)))
  {
    hide StoreInv, View, NodeAt, StoreWrite, WriteBytes, PosixWrite, AllIds, OnlyInSnapshots, Matches, AbsWrite;
    ListedIffShown(s, i);
    if i in s.inodes {
      var resize := offset + |d| > |NodeAt(s, i, CURRENT).bytes|;
      WriteRefines(s, i, offset, d, resize);
      if i in s.versions[CURRENT] {
        NodeInView(s, i);
        PWriteBytes(s.bs, NodeAt(s, i, CURRENT).bytes, offset, d);
        AbsPWrite(s.bs, Abs(s), i, offset, d);
      }
    } else {
      MissingMatches(s, i, offset, d);
    }
  }

  lemma AbsPWrite(bs: nat, h: History, i: nat, offset: nat, d: Bytes)
    requires bs > 0 && CURRENT in h && i in h[CURRENT]
    ensures var b := h[CURRENT][i].bytes;
            AbsApply(bs, h, PWrite(i, offset, d)) == AbsWrite(bs, h, i, offset, d, offset + |d| > |b|)
  {
    PWriteBytes(bs, h[CURRENT][i].bytes, offset, d);
    hide WriteBytes, PosixWrite;
  }

  lemma MissingMatches(s: Store, i: nat, offset: nat, d: Bytes)
    requires s.bs > 0 && CURRENT in s.versions && i !in s.inodes && i !in View(s, CURRENT)
    ensures Matches(s.bs, StorePWrite(s, i, offset, d), AbsApply(s.bs, Abs(s), PWrite(i, offset, d)))
  {
    hide View, NodeAt, StoreWrite, PosixWrite;
    assert Abs(s)[CURRENT] == View(s, CURRENT);
  }

  lemma TruncateRefinesStore(s: Store, i: nat, n: nat)
    requires StoreInv(s)
    ensures Changes(s, i, StoreTruncate(s, i, n), AbsApply(s.bs, Abs(s), Histories.Truncate(i, n)))
  {
    hide StoreInv, View, AllIds, StoreTruncate, NodeAt, OnlyInSnapshots;
    ListedIffShown(s, i);
    if i in s.inodes {
      if i in s.versions[CURRENT] { NodeInView(s, i); }
      TruncateRewrites(s, i, n);
    } else {
      TruncateMissing(s, i, n);
    }
  }

  lemma TruncateMissing(s: Store, i: nat, n: nat)
    requires s.bs > 0 && i !in s.inodes
    ensures StoreTruncate(s, i, n) == Err(InodeNotFound)
  {
  }

  lemma TruncateRewrites(s: Store, i: nat, n: nat)
    requires StoreInv(s) && i in s.inodes
    ensures var r := StoreTruncate(s, i, n);
            r.Ok? && r.value.ret == 0 && Rewrote(s, r.value.state, i, Resize(NodeAt(s, i, CURRENT).bytes, n))
  {
    InodeReady(s, i);
    hide StoreInv, Becomes, TruncateBank, Rewrote, InodeOk, Shaped, Flatten;
    TruncateBankRefines(s.bs, s.pool, s.inodes[i].vols, n);
    BankRewrites(s, i, TruncateBank(s.bs, BankOf(s, i), n), Resize(NodeAt(s, i, CURRENT).bytes, n));
  }

  // ---- Directories ----

  lemma OpenIsOpenDir(s: Store, i: nat, v: Version)
    requires StoreInv(s) && v in s.versions && i in View(s, v)
    ensures OpenInode(s, i, v) == OpenDir(View(s, v), i)
  {
    ListedInodes(s, v, i);
    assert CountOk(s, i);
    assert v in Listing(s, i);
  }

  lemma {:induction false} ResolveFrom(s: Store, v: Version, i: nat, path: Path)
    requires StoreInv(s) && v in s.versions && i in View(s, v)
    requires Readable(View(s, v)) && Closed(Names(View(s, v)))
    ensures StoreResolve(s, v, i, path) == Resolve(Names(View(s, v)), i, path)
    decreases |path|
  {
    hide StoreInv, View, Readable, OpenInode;
    if path != [] {
      var g := Names(View(s, v));
      OpenIsOpenDir(s, i, v);
      OpenIsEntries(View(s, v), i);
      hide OpenDir;
      var found := Find(Entries(g, i), path[0]);
      if found.Some? && g[i].Dir? {
        var e :| e in Entries(g, i) && e.name == path[0] && e.id == found.value;
        assert Edge(g, i, e);
        ResolveFrom(s, v, found.value, path[1..]);
      }
    }
  }

  /** A lookup that succeeds in the image meets only nodes that are there. */
  lemma {:induction false} ResolveFound(s: Store, v: Version, i: nat, path: Path)
    requires StoreInv(s) && v in s.versions && (path != [] ==> i in View(s, v))
    requires Readable(View(s, v)) && Resolve(Names(View(s, v)), i, path).Ok?
    ensures StoreResolve(s, v, i, path) == Resolve(Names(View(s, v)), i, path)
    decreases |path|
  {
    hide StoreInv, View, Readable, OpenInode;
    if path != [] {
      OpenIsOpenDir(s, i, v);
      OpenIsEntries(View(s, v), i);
      hide OpenDir;
      ResolveFound(s, v, Find(Entries(Names(View(s, v)), i), path[0]).value, path[1..]);
    }
  }

  /** Every entry names a node that is there. */
  ghost predicate Closed(g: Graph) {
    ROOT in g && forall i: nat, e: Dentry :: Edge(g, i, e) ==> e.id in g
  }

  lemma LocalClosed(g: Graph)
    requires Local(g)
    ensures Closed(g)
  {
    forall i: nat, e: Dentry | Edge(g, i, e)
      ensures e.id in g
    {
      assert EdgeOk(g, i, e);
    }
  }

  /** Path lookup in the store is path lookup in the image of the version. */
  lemma ResolveRefines(s: Store, v: Version, path: Path)
    requires Inv(s) && v in s.versions
    ensures StoreResolve(s, v, ROOT, path) == Lookup(View(s, v), path)
  {
    assert GoodImage(Abs(s)[v]);
    LocalClosed(Names(View(s, v)));
    ResolveFrom(s, v, ROOT, path);
  }

  /** Saving a list of entries stores its encoding as the directory's current bytes. */
  lemma SaveRewrites(s: Store, i: nat, es: seq<Dentry>)
    requires StoreInv(s) && i in s.inodes
    ensures CURRENT in s.inodes[i].vols && Rewrote(s, StoreSave(s, i, es), i, Encode(es))
  {
    hide StoreInv, Rewrote, StoreWriteRaw, Encode, WriteBytes, NodeAt;
    RawWriteRefines(s, i, 0, Encode(es), true);
    SaveBytes(s.bs, NodeAt(s, i, CURRENT).bytes, es);
  }

  lemma SaveBytes(bs: nat, b: Bytes, es: seq<Dentry>)
    requires bs > 0
    ensures WriteBytes(bs, b, 0, Encode(es), true) == Ok((Encode(es), |Encode(es)|))
  {
    assert Resize(b, 0) + Encode(es) == Encode(es);
  }

  lemma SaveRefines(s: Store, i: nat, es: seq<Dentry>)
    requires StoreInv(s) && i in View(s, CURRENT) && View(s, CURRENT)[i].isDir
    ensures i in s.inodes && CURRENT in s.inodes[i].vols
    ensures Rewrote(s, StoreSave(s, i, es), i, Encode(es))
    ensures Abs(StoreSave(s, i, es)) == Abs(s)[CURRENT := Save(View(s, CURRENT), i, es)]
  {
    ListedInodes(s, CURRENT, i);
    NodeInView(s, i);
    hide StoreInv, Encode, StoreSave;
    SaveRewrites(s, i, es);
  }
}
