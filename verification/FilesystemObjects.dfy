// The filesystem object: inode pool, buffer pool and version lists, updated in place.
module FilesystemObjects {
  import opened ByteStrings
  import opened FreeIds
  import opened Chunks
  import opened Blocks
  import opened Inodes
  import opened Stores
  import opened Snapshots
  import opened SnapshotInv
  import opened BlockLoops
  import opened Pools
  import opened InodeObjects
  import opened Directories
  import opened Namespaces
  import opened TreePaths
  import opened PathStrings
  import opened Images
  import opened Histories
  import opened Filesystems
  import opened Refinement
  import opened Exports
  import opened Lookups
  import opened Resolvers

  datatype InodeEntry = InodeEntry(linkCount: nat, inode: Inode)

  /** An inode that holds block references into a sound store finds its blocks. */
  lemma BlocksReady(s: Store, i: nat, v: Version)
    requires StoreInv(s) && i in s.inodes && v in s.inodes[i].vols
    ensures Loaded(s.pool, s.inodes[i].vols[v]) && Shaped(s.bs, ChunksOf(s.pool, s.inodes[i].vols[v]))
  {
    hide InodeOk, Shaped, ListsInv, NoSharing, OrphansOk;
    InodeLoaded(s.pool, s.inodes[i].vols, v);
  }

  /** Writing back what is there changes nothing. */
  lemma SameBank(s: Store, i: nat)
    requires i in s.inodes && CURRENT in s.inodes[i].vols
    ensures WithBank(s, i, BankOf(s, i)) == s
  {
    var pack := s.inodes[i];
    assert pack.vols[CURRENT := pack.vols[CURRENT]] == pack.vols;
    assert s.inodes[i := pack] == s.inodes;
  }

  lemma SameSize<A, B>(a: map<nat, A>, b: map<nat, B>)
    requires a.Keys == b.Keys
    ensures |a| == |b|
  {
    assert |a| == |a.Keys| && |b| == |b.Keys|;
  }

  ghost predicate Stepped(spec: Result<Store>, r: Result<()>, after: Store) {
    match spec
    case Err(e) => r == Err(e)
    case Ok(s) => r == Ok(()) && after == s
  }

  /** Stores are equal part by part, and their inode pools id by id. */
  lemma SameStore(a: Store, b: Store)
    requires a.bs == b.bs && a.pool == b.pool && a.versions == b.versions && a.inodes.Keys == b.inodes.Keys
    requires forall i :: i in a.inodes ==> a.inodes[i] == b.inodes[i]
    ensures a == b
  {
    assert a.inodes == b.inodes;
  }

  /** The store after link_inode. */
  function Linked(s: Store, i: nat): Store
    requires i in s.inodes
  {
    s.(inodes := s.inodes[i := s.inodes[i].(links := s.inodes[i].links + 1)])
  }

  lemma CreateMissing(s: Store, i: nat, v: Version)
    requires i !in s.inodes
    ensures CreateOne(s, i, v) == Err(InodeNotFound)
  {
  }

  /** Linking the inode and creating its volume is one step of the creation. */
  lemma CreatesAfterLink(s: Store, i: nat, v: Version)
    requires i in s.inodes && CURRENT in s.inodes[i].vols
    ensures i in Linked(s, i).inodes
    ensures var vols := Linked(s, i).inodes[i].vols;
            && CURRENT in vols
            && CreateOne(s, i, v) ==
               if v in vols then Err(DoubleSnapshot)
               else
                 match LinkAll(Linked(s, i).pool, vols[CURRENT])
                 case Err(e) => Err(e)
                 case Ok(pool) => Ok(WithVolumes(Linked(s, i), i, pool, AddVolume(vols, v)))
  {
    hide LinkAll, AddVolume;
    var t := Linked(s, i);
    assert forall vols ::
        t.inodes[i := t.inodes[i].(vols := vols)] ==
        s.inodes[i := s.inodes[i].(links := s.inodes[i].links + 1, vols := vols)];
  }

  /** A new snapshot's creation goes through, inode by inode, and then the version is entered. */
  lemma CreationSucceeds(s: Store, v: Version)
    requires StoreInv(s) && v !in s.versions
    ensures var all := CreateAll(s, s.versions[CURRENT], v);
            && all.Ok?
            && CreateSnapshot(s, v) == Ok(all.value.(versions := all.value.versions[v := s.versions[CURRENT]]))
  {
    hide BlocksInv, ListsInv, View, CreateAll;
    CreateSnapshotRefines(s, v);
  }

  lemma CreateTwice(s: Store, v: Version)
    requires CURRENT in s.versions && v in s.versions
    ensures CreateSnapshot(s, v) == Err(DoubleSnapshot)
  {
  }

  lemma CreateNext(s: Store, rest: seq<nat>, v: Version)
    requires rest != [] && CreateAll(s, rest, v).Ok?
    ensures CreateOne(s, rest[0], v).Ok?
            && CreateAll(CreateOne(s, rest[0], v).value, rest[1..], v) == CreateAll(s, rest, v)
  {
    hide CreateOne;
  }

  lemma CreateDone(s: Store, v: Version)
    ensures CreateAll(s, [], v) == Ok(s)
  {
  }

  /** The deletion of a snapshot goes through, unless it is the current version, where the first step fails. */
  lemma DeletionSucceeds(s: Store, v: Version)
    requires StoreInv(s) && v in s.versions
    ensures var all := DeleteAll(s, s.versions[v], v);
            && (v != CURRENT ==>
                  all.Ok? && DeleteSnapshot(s, v) == Ok(all.value.(versions := all.value.versions - {v})))
            && (v == CURRENT ==>
                  && s.versions[v] != []
                  && DeleteOne(s, s.versions[v][0], v) == DeleteSnapshot(s, v) == Err(NoSuchSnapshot))
  {
    hide BlocksInv, View, DeleteAll, UnlinkAll, LoseAll;
    DeleteSnapshotRefines(s, v);
    if v == CURRENT {
      assert ListOk(s, v);
      assert ROOT in s.versions[v] && s.versions[v][0] in s.versions[v];
    }
  }

  lemma DeleteUnknown(s: Store, v: Version)
    requires v !in s.versions
    ensures DeleteSnapshot(s, v) == Err(NoSuchSnapshot)
  {
  }

  lemma DeleteNext(s: Store, rest: seq<nat>, v: Version)
    requires rest != [] && DeleteAll(s, rest, v).Ok?
    ensures DeleteOne(s, rest[0], v).Ok?
            && DeleteAll(DeleteOne(s, rest[0], v).value, rest[1..], v) == DeleteAll(s, rest, v)
  {
    hide DeleteOne;
  }

  lemma DeleteDone(s: Store, v: Version)
    ensures DeleteAll(s, [], v) == Ok(s)
  {
  }

  lemma SameVolumes(s: Store, i: nat)
    requires i in s.inodes
    ensures WithVolumes(s, i, s.pool, s.inodes[i].vols) == s
  {
    assert s.inodes[i := s.inodes[i]] == s.inodes;
  }

  /** Deleting a volume and dropping the link is one step of the deletion. */
  lemma DropsAfterVolume(s: Store, i: nat, v: Version)
    requires i in s.inodes && CURRENT in s.inodes[i].vols
    ensures v != CURRENT && v in s.inodes[i].vols ==>
              var all := UnlinkAll(s.pool, s.inodes[i].vols[v]);
              all.Ok? ==> DeleteOne(s, i, v) == Ok(DropInode(WithVolumes(s, i, all.value, s.inodes[i].vols - {v}), i))
  {
    hide UnlinkAll, LoseAll;
    if v != CURRENT && v in s.inodes[i].vols {
      var all := UnlinkAll(s.pool, s.inodes[i].vols[v]);
      if all.Ok? {
        var t := WithVolumes(s, i, all.value, s.inodes[i].vols - {v});
        assert t.inodes - {i} == s.inodes - {i};
        assert CurBlocks(t, i) == CurBlocks(s, i);
        var pack := t.inodes[i];
        var fewer := pack.(links := if pack.links == 0 then MAX_COUNT else pack.links - 1);
        assert t.inodes[i := fewer] == s.inodes[i := fewer];
      }
    }
  }

  /** The store with another pool and other volumes of inode `i`. */
  function WithVolumes(s: Store, i: nat, pool: Pool, vols: Vols): Store
    requires i in s.inodes
  {
    s.(pool := pool, inodes := s.inodes[i := s.inodes[i].(vols := vols)])
  }

  lemma {:induction false} RemovesFirst(list: seq<nat>, x: nat, k: nat)
    requires k <= |list| && x !in list[..k] && (k < |list| ==> list[k] == x)
    ensures RemoveFirst(list, x) == if k < |list| then list[..k] + list[k + 1..] else list
  {
    if k > 0 {
      assert list[0] == list[..k][0];
      assert list[1..][..k - 1] == list[..k][1..];
      RemovesFirst(list[1..], x, k - 1);
      assert list == [list[0]] + list[1..];
    }
  }

  /** A removal that passes its checks detaches the entry and drops the inode. */
  lemma RemoveIs(s: Store, parent: nat, name: Bytes)
    requires s.bs > 0 && CURRENT in s.versions
    ensures StoreRemovalTarget(s, parent, name).Err? ==>
            StoreRemove(s, parent, name) == Err(StoreRemovalTarget(s, parent, name).error)
    ensures StoreRemovalTarget(s, parent, name).Ok? ==>
              var target, es := StoreRemovalTarget(s, parent, name).value, OpenInode(s, parent, CURRENT);
              && es.Ok? && parent in s.inodes && CURRENT in s.inodes[parent].vols
              && var s2 := StoreDetach(s, parent, es.value, name, target);
                 target in s2.inodes ==> StoreRemove(s, parent, name) == Ok(Done(DropInode(s2, target), 0))
  {
    hide StoreDetach, DropInode, Find, Decode;
  }

  /** The checks of a creation, one after the other. */
  lemma MakeChecks(s: Store, parent: nat, name: Bytes)
    ensures BadName(name) ==> MakeCheck(s, parent, name) == Err(InvalidDentryName)
    ensures !BadName(name) ==>
              var dir := OpenInode(s, parent, CURRENT);
              && (dir.Err? ==> MakeCheck(s, parent, name) == Err(dir.error))
              && (dir.Ok? && Find(dir.value, name).Some? ==> MakeCheck(s, parent, name) == Err(DoubleMkPathname))
              && (dir.Ok? && Find(dir.value, name).None? ==>
                    MakeCheck(s, parent, name) ==
                    if |s.inodes| == MAX_POOL_SIZE then Err(IdDepleted) else Ok((dir.value, FreeId(s.inodes.Keys))))
  {
    hide BadName, OpenInode, Find, FreeId;
  }

  /** A creation that passes its checks adds the child. */
  lemma MakeIs(s: Store, parent: nat, name: Bytes, isDir: bool)
    requires s.bs > 0 && CURRENT in s.versions
    ensures MakeCheck(s, parent, name).Err? ==>
            StoreMake(s, parent, name, isDir) == Err(MakeCheck(s, parent, name).error)
    ensures MakeCheck(s, parent, name).Ok? ==>
              var (es, n) := MakeCheck(s, parent, name).value;
              && parent in s.inodes && n !in s.inodes && CURRENT in s.inodes[parent].vols && Find(es, name) == None
              && StoreMake(s, parent, name, isDir) == Ok(Done(StoreAdd(s, parent, es, name, n, isDir), n))
  {
    hide StoreAdd, Find, Decode, FreeId, BadName;
  }

  lemma TargetThere(s: Store, parent: nat, name: Bytes)
    requires StoreRemovalTarget(s, parent, name).Ok?
    ensures StoreRemovalTarget(s, parent, name).value in s.inodes
  {
  }

  /** The printed paths of the entries of the directory at `path`. */
  ghost function LevelAt(s: Store, v: Version, path: Path): seq<Bytes>
    requires v in s.versions && Lookup(View(s, v), path).Ok?
  {
    PrintAll(Level(Entries(Names(View(s, v)), Lookup(View(s, v), path).value), path))
  }

  /** The prefix that the export carries along leads to the directory that it was made for. */
  lemma PrefixFinds(s: Store, v: Version, path: Path, prefix: Bytes)
    requires Inv(s) && v in s.versions && Proper(v)
    requires prefix == Print(path) + [SEPARATOR] && Lookup(View(s, v), path).Ok?
    ensures InodeIdByPath(s, MakePathWithVersion(prefix, v)) == Lookup(View(s, v), path)
    ensures Lookup(View(s, v), path).value in View(s, v)
  {
    var g := Names(View(s, v));
    InvImage(s, v);
    hide Inv, View, Local, Tree, InodeIdByPath, Resolve, Components;
    ResolvedProper(g, ROOT, path);
    SamePath(g, path, path);
    PrefixComponents(path, prefix);
    PrintStarts(path);
    if path != [] { NoSnapshotEntry(g, path); }
    LookupUnder(s, v, prefix);
  }

  lemma PrefixComponents(path: Path, prefix: Bytes)
    requires AllProper(path) && prefix == Print(path) + [SEPARATOR]
    ensures Components(prefix) == path
  {
    ComponentsSplit(Print(path), [SEPARATOR], []);
    ParsePrint(path);
    RootHasNoComponents();
  }

  /** A listed inode opens as the namespace of its version says. */
  lemma ShownReadable(s: Store, v: Version, i: nat)
    requires Inv(s) && v in s.versions && i in View(s, v)
    ensures var es := Entries(Names(View(s, v)), i);
            OpenInode(s, i, v) == Ok(es) || (OpenInode(s, i, v).Err? && es == [])
  {
    InvImage(s, v);
    OpenIsOpenDir(s, i, v);
    OpenIsEntries(View(s, v), i);
  }

  lemma EntryNames(s: Store, v: Version, i: nat)
    requires Inv(s) && v in s.versions
    ensures forall e :: e in Entries(Names(View(s, v)), i) ==> e.name != []
  {
    InvImage(s, v);
    EntryFacts(Names(View(s, v)), i);
  }

  lemma LevelText(es: seq<Dentry>, path: Path, prefix: Bytes, k: nat)
    requires k < |es| && es[k].name != [] && prefix == Print(path) + [SEPARATOR]
    ensures PrintAll(Level(es, path))[k] == prefix + es[k].name
  {
    PrintAppend(path, [es[k].name]);
    assert Print([es[k].name]) == [SEPARATOR] + es[k].name + Print([]);
    assert Print([es[k].name]) == [SEPARATOR] + es[k].name;
  }

  /** `path` leads to a node from which the walk below it ends. */
  ghost predicate Walkable(s: Store, v: Version, path: Path, rank: map<nat, nat>, bound: nat) {
    && v in s.versions && Lookup(View(s, v), path).Ok?
    && var g := Names(View(s, v));
       Local(g) && Ranked(g, rank, bound) && Lookup(View(s, v), path).value in g
  }

  ghost function Depth(s: Store, v: Version, path: Path, rank: map<nat, nat>, bound: nat): nat
    requires Walkable(s, v, path, rank, bound)
  {
    bound - rank[Lookup(View(s, v), path).value]
  }

  /** The printed walk below `path`. */
  ghost function WalkText(s: Store, v: Version, path: Path, rank: map<nat, nat>, bound: nat): seq<Bytes>
    requires Walkable(s, v, path, rank, bound)
  {
    PrintAll(Walk(Names(View(s, v)), rank, bound, Lookup(View(s, v), path).value, path))
  }

  /** The printed walks below the entries from `k` on. */
  ghost function RestText(s: Store, v: Version, path: Path, rank: map<nat, nat>, bound: nat, k: nat): seq<Bytes>
    requires Walkable(s, v, path, rank, bound) && k <= |LevelAt(s, v, path)|
  {
    PrintAll(WalkFrom(Names(View(s, v)), rank, bound, Lookup(View(s, v), path).value, k, path))
  }

  lemma PrintAllConcat(a: seq<Path>, b: seq<Path>)
    ensures PrintAll(a + b) == PrintAll(a) + PrintAll(b)
  {
  }

  lemma WalkStarts(s: Store, v: Version, path: Path, rank: map<nat, nat>, bound: nat)
    requires Walkable(s, v, path, rank, bound)
    ensures v in s.versions && Lookup(View(s, v), path).Ok?
    ensures LevelAt(s, v, path) + RestText(s, v, path, rank, bound, 0) == WalkText(s, v, path, rank, bound)
  {
    var g, i := Names(View(s, v)), Lookup(View(s, v), path).value;
    hide View, Names, Lookup, Local, Ranked;
    PrintAllConcat(Level(Entries(g, i), path), WalkFrom(g, rank, bound, i, 0, path));
  }

  lemma WalkEnds(s: Store, v: Version, path: Path, rank: map<nat, nat>, bound: nat)
    requires Walkable(s, v, path, rank, bound)
    ensures RestText(s, v, path, rank, bound, |LevelAt(s, v, path)|) == []
  {
  }

  /** The walk goes on below entry `k`, whose printed path the directory's list holds. */
  lemma WalkGoesOn(s: Store, v: Version, path: Path, rank: map<nat, nat>, bound: nat, k: nat) returns (child: Path)
    requires Walkable(s, v, path, rank, bound) && k < |LevelAt(s, v, path)|
    ensures Print(child) == LevelAt(s, v, path)[k]
    ensures Walkable(s, v, child, rank, bound) && Depth(s, v, child, rank, bound) < Depth(s, v, path, rank, bound)
    ensures RestText(s, v, path, rank, bound, k) == WalkText(s, v, child, rank, bound) +
            RestText(s, v, path, rank, bound, k + 1)
  {
    var img := View(s, v);
    var g, i := Names(img), Lookup(img, path).value;
    var e := Entries(g, i)[k];
    child := path + [e.name];
    ChildBelow(g, rank, bound, i, k);
    ResolveLast(g, path, e.name, e.id);
    assert Lookup(img, child) == Ok(e.id);
    hide View, Names, Lookup, Local, Ranked, Print;
    PrintAllConcat(Walk(g, rank, bound, e.id, child), WalkFrom(g, rank, bound, i, k + 1, path));
  }

  /** `l` is the exported map of version `v`. */
  ghost predicate Exported(s: Store, v: Version, l: seq<Bytes>) {
    v in s.versions && Tree(Names(View(s, v))) && l == StoreExport(s, v)
  }

  /** A ranking that shows the export to end. */
  lemma ExportRanks(s: Store, v: Version) returns (rank: map<nat, nat>, bound: nat)
    requires Inv(s) && v in s.versions
    ensures Walkable(s, v, [], rank, bound) && Exported(s, v, WalkText(s, v, [], rank, bound))
    ensures [SEPARATOR] == Print([]) + [SEPARATOR]
  {
    hide Inv, StoreInv, View, Names, Local, Ranked, Walk, Tree, ExportPaths, Readable;
    InvImage(s, v);
    LookupRoot(s, v);
    rank, bound := TreeRanks(Names(View(s, v)));
  }

  lemma TreeRanks(g: Graph) returns (rank: map<nat, nat>, bound: nat)
    requires Tree(g)
    ensures Local(g) && Ranked(g, rank, bound) && ExportPaths(g) == Walk(g, rank, bound, ROOT, [])
  {
    rank, bound :| Ranked(g, rank, bound);
    ExportIsWalk(g, rank, bound);
  }

  /** The root of a version is found if the version is there. */
  lemma VersionRoot(s: Store, v: Version)
    requires Inv(s) && SEPARATOR !in v
    ensures InodeIdByPath(s, MakePathWithVersion([SEPARATOR], v)) ==
            if v == [] then Err(InvalidDentryName) else if v in s.versions then Ok(ROOT) else Err(NoSuchSnapshot)
  {
    hide Inv, Components, View, Lookup, InodeIdByPath, Addressed, MakePathWithVersion;
    SnapshotText(v);
    InvStore(s);
    LookupByPath(s, MakePathWithVersion([SEPARATOR], v));
    RootHasNoComponents();
    VersionText(v);
    if v in s.versions { LookupRoot(s, v); }
  }

  lemma SnapshotText(v: Version)
    ensures var path := MakePathWithVersion([SEPARATOR], v); path != [] && path[0] == SEPARATOR
  {
  }

  lemma VersionText(v: Version)
    requires SEPARATOR !in v
    ensures Addressed(Components(MakePathWithVersion([SEPARATOR], v))) ==
            if v == [] then Err(InvalidDentryName) else Ok((v, []))
  {
    VersionedHead([SEPARATOR], v);
    RootHasNoComponents();
    if v != [] && v != CURRENT { VersionedComponents([SEPARATOR], v); }
  }

  class InodeSmi {
    const blockSize: nat
    const bufferPool: BufferPool
    var inodePool: map<nat, InodeEntry>
    var versions: map<Version, seq<nat>>
    ghost var Nodes: set<Inode>

    ghost predicate Valid()
      reads this, bufferPool, bufferPool.Repr, Nodes
    {
      && blockSize > 0
      && bufferPool.Valid()
      && this !in bufferPool.Repr
      && (forall inode :: inode in Nodes ==> inode !in bufferPool.Repr)
      && (forall i :: i in inodePool ==> inodePool[i].inode in Nodes && InodeValid(inodePool[i].inode))
      && (forall i, j :: i in inodePool && j in inodePool && i != j ==> inodePool[i].inode != inodePool[j].inode)
    }

    ghost predicate InodeValid(inode: Inode)
      reads this, inode
    {
      inode.blockSize == blockSize && inode.filesystem == bufferPool && CURRENT in inode.bufferMap
    }

    /** The filesystem as a value. */
    ghost function State(): (s: Store)
      requires Valid()
      reads this, bufferPool, bufferPool.Repr, Nodes
      ensures s.inodes.Keys == inodePool.Keys && s.bs == blockSize && s.versions == versions
              && s.pool == bufferPool.Packs()
      ensures forall i :: i in inodePool ==>
                s.inodes[i] == InodePack(inodePool[i].linkCount, inodePool[i].inode.isDir, inodePool[i].inode.bufferMap)
    {
      Store(blockSize, bufferPool.Packs(),
            map i | i in inodePool ::
              InodePack(inodePool[i].linkCount, inodePool[i].inode.isDir, inodePool[i].inode.bufferMap),
            versions)
    }

    constructor (blockSize: nat)
      requires blockSize > 0
      ensures Valid() && State() == Init(blockSize)
    {
      hide BufferPool.Valid, BufferPool.Packs;
      var pool := new BufferPool();
      var root := new Inode(blockSize, pool, true);
      this.blockSize := blockSize;
      bufferPool := pool;
      inodePool := map[ROOT := InodeEntry(1, root)];
      versions := map[CURRENT := [ROOT]];
      Nodes := {root};
    }

    /** The resolver of inode `i`. */
    method OpenAt(i: nat, version: Version) returns (r: Result<DirectoryResolver>)
      requires Valid() && StoreInv(State())
      ensures Valid() && State() == old(State())
      ensures match OpenInode(State(), i, version)
              case Err(e) => r == Err(e)
              case Ok(es) =>
                && r.Ok? && fresh(r.value) && r.value.path == es && r.value.accessVersion == version
                && i in inodePool && r.value.associatedInode == inodePool[i].inode
    {
      hide BufferPool.Valid, BufferPool.Packs, Valid, State, Inode.Valid, Inode.LoadedAt, Inode.ShapedAt, StoreInv,
           OpenVols;
      if i !in inodePool {
        return Err(InodeNotFound);
      }
      InodeReadyAt(i, version);
      r := DirectoryResolver.Open(inodePool[i].inode, version);
    }

    /** Only the volumes of inode `i` and the pool have changed. */
    twostate lemma OnlyInode(i: nat)
      requires old(Valid()) && i in old(inodePool)
      requires inodePool == old(inodePool) && versions == old(versions) && Nodes == old(Nodes)
      requires bufferPool.Valid() && fresh(bufferPool.Repr - old(bufferPool.Repr))
      requires forall j :: j in inodePool && j != i ==>
               inodePool[j].inode.bufferMap == old(inodePool[j].inode.bufferMap)
      requires inodePool[i].inode.Valid()
      ensures Valid()
      ensures State() == WithVolumes(old(State()), i, bufferPool.Packs(), inodePool[i].inode.bufferMap)
    {
      hide BufferPool.Valid, BufferPool.Packs, State;
    }

    /** save_current() of the resolver of directory `i`. */
    method SaveResolver(i: nat, resolver: DirectoryResolver)
      requires Valid() && i in inodePool && resolver.associatedInode == inodePool[i].inode
               && resolver !in bufferPool.Repr
      requires inodePool[i].inode.Valid() && inodePool[i].inode.LoadedAt(CURRENT)
               && inodePool[i].inode.ShapedAt(CURRENT)
      modifies inodePool[i].inode`bufferMap, bufferPool.Repr
      ensures Valid() && fresh(bufferPool.Repr - old(bufferPool.Repr))
      ensures State() == StoreSave(old(State()), i, resolver.path)
    {
      hide BufferPool.Valid, BufferPool.Packs, Loaded, Shaped, Flatten, Encode, WriteBank;
      resolver.SaveCurrent();
      OnlyInode(i);
    }

    // ---- Single inodes ----

    method WriteCurrent(i: nat, buffer: Bytes, offset: nat, resize: bool) returns (r: Result<nat>)
      requires Valid() && i in inodePool
      requires inodePool[i].inode.Valid() && inodePool[i].inode.LoadedAt(CURRENT)
               && inodePool[i].inode.ShapedAt(CURRENT)
      modifies inodePool[i].inode`bufferMap, bufferPool.Repr
      ensures Valid() && fresh(bufferPool.Repr - old(bufferPool.Repr))
      ensures Reply(r, State()) ==
              Answer(old(State()), if inodePool[i].inode.isDir then Err(InvalidWriteInvoke)
                                   else StoreWriteRaw(old(State()), i, offset, buffer, resize))
    {
      hide BufferPool.Valid, BufferPool.Packs, Loaded, Shaped, WriteBank;
      r := inodePool[i].inode.Write(buffer, offset, resize, false);
      OnlyInode(i);
      SameBank(old(State()), i);
    }

    method TruncateCurrent(i: nat, length: nat)
      requires Valid() && i in inodePool
      requires inodePool[i].inode.Valid() && inodePool[i].inode.LoadedAt(CURRENT)
      modifies inodePool[i].inode`bufferMap, bufferPool.Repr
      ensures Valid() && fresh(bufferPool.Repr - old(bufferPool.Repr))
      ensures State() == WithBank(old(State()), i, TruncateBank(blockSize, BankOf(old(State()), i), length))
    {
      hide BufferPool.Valid, BufferPool.Packs, Loaded, Shaped, TruncateBank;
      inodePool[i].inode.Truncate(length);
      OnlyInode(i);
    }

    /** What a sound state says about an inode of the pool. */
    lemma InodeReadyAt(i: nat, version: Version)
      requires Valid() && StoreInv(State()) && i in inodePool
      ensures inodePool[i].inode.Valid() && inodePool[i].inode.LoadedAt(version) && inodePool[i].inode.ShapedAt(version)
      ensures this !in bufferPool.Repr && inodePool[i].inode in Nodes && CURRENT in inodePool[i].inode.bufferMap
              && inodePool[i].inode.filesystem == bufferPool
    {
      hide BufferPool.Valid, BufferPool.Packs, StoreInv, Loaded, Shaped;
      if version in inodePool[i].inode.bufferMap { BlocksReady(State(), i, version); }
    }

    lemma ValidPool()
      requires Valid()
      ensures blockSize > 0 && bufferPool.Valid() && bufferPool in bufferPool.Repr && this !in bufferPool.Repr
    {
    }

    lemma ValidFacts(i: nat)
      requires Valid() && i in inodePool
      ensures bufferPool in bufferPool.Repr && this !in bufferPool.Repr
      ensures inodePool[i].inode in Nodes && CURRENT in inodePool[i].inode.bufferMap
    {
    }

    /** write() of inode `i`, as it is called from outside the directory resolver. */
    method WriteInode(i: nat, buffer: Bytes, offset: nat, resize: bool) returns (r: Result<nat>)
      requires Valid() && StoreInv(State())
      modifies Nodes, bufferPool.Repr
      ensures Valid() && fresh(bufferPool.Repr - old(bufferPool.Repr))
      ensures Reply(r, State()) == Answer(old(State()), StoreWrite(old(State()), i, offset, buffer, resize))
    {
      hide BufferPool.Valid, BufferPool.Packs, Valid, State, Inode.Valid, Inode.LoadedAt, Inode.ShapedAt, StoreInv,
           StoreWriteRaw;
      if i !in inodePool {
        return Err(InodeNotFound);
      }
      InodeReadyAt(i, CURRENT);
      r := WriteCurrent(i, buffer, offset, resize);
    }

    method TruncateInode(i: nat, length: nat) returns (r: Result<nat>)
      requires Valid() && StoreInv(State())
      modifies Nodes, bufferPool.Repr
      ensures Valid() && fresh(bufferPool.Repr - old(bufferPool.Repr))
      ensures Reply(r, State()) == Answer(old(State()), StoreTruncate(old(State()), i, length))
    {
      hide BufferPool.Valid, BufferPool.Packs, Valid, State, Inode.Valid, Inode.LoadedAt, Inode.ShapedAt, StoreInv,
           TruncateBank;
      if i !in inodePool {
        return Err(InodeNotFound);
      }
      InodeReadyAt(i, CURRENT);
      TruncateCurrent(i, length);
      return Ok(0);
    }

    // ---- Children ----

    /** emplace() of a new inode. */
    method EmplaceInode(id: nat, inode: Inode)
      requires Valid() && id !in inodePool && InodeValid(inode) && inode !in Nodes && inode !in bufferPool.Repr
      modifies this`inodePool, this`Nodes
      ensures Valid() && Nodes == old(Nodes) + {inode}
      ensures State() == old(State()).(inodes := old(State()).inodes[id := InodePack(1, inode.isDir, inode.bufferMap)])
      ensures inodePool == old(inodePool)[id := InodeEntry(1, inode)]
    {
      hide BufferPool.Valid, BufferPool.Packs, State;
      ghost var before := State();
      inodePool := inodePool[id := InodeEntry(1, inode)];
      Nodes := Nodes + {inode};
      assert bufferPool.Valid() && bufferPool.Packs() == before.pool;
      assert Valid();
      SameStore(State(), before.(inodes := before.inodes[id := InodePack(1, inode.isDir, inode.bufferMap)]));
    }

    /** A new, empty inode in the pool. */
    method AddNode(id: nat, isDir: bool)
      requires Valid() && id !in inodePool
      modifies this`inodePool, this`Nodes
      ensures Valid() && fresh(Nodes - old(Nodes))
      ensures State() == AddInode(old(State()), id, isDir)
      ensures forall i :: i in old(inodePool) ==> i in inodePool && inodePool[i] == old(inodePool[i])
    {
      ValidPool();
      hide BufferPool.Valid, BufferPool.Packs, Valid, State, Inode.Valid;
      var inode := new Inode(blockSize, bufferPool, isDir);
      assert Valid() && State() == old(State());
      EmplaceInode(id, inode);
    }

    method CheckName(name: Bytes) returns (bad: bool)
      ensures bad == BadName(name)
    {
      for k := 0 to |name|
        invariant forall j :: 0 <= j < k ==> !(name[j] == SEPARATOR || name[j] as int < 0x1F || name[j] as int >= 0x7F)
      {
        if name[k] == SEPARATOR || name[k] as int < 0x1F || name[k] as int >= 0x7F {
          return true;
        }
      }
      return false;
    }

    method SetVersion(version: Version, list: seq<nat>)
      requires Valid()
      modifies this`versions
      ensures Valid() && State() == old(State()).(versions := old(versions)[version := list])
    {
      hide BufferPool.Valid, BufferPool.Packs, State;
      versions := versions[version := list];
    }

    /** add_path and save_current. */
    method LinkEntry(i: nat, resolver: DirectoryResolver, name: Bytes, id: nat) returns (r: Result<()>)
      requires Valid() && i in inodePool && resolver.associatedInode == inodePool[i].inode
               && resolver !in bufferPool.Repr
      requires inodePool[i].inode.Valid() && inodePool[i].inode.LoadedAt(CURRENT)
               && inodePool[i].inode.ShapedAt(CURRENT)
      modifies inodePool[i].inode`bufferMap, bufferPool.Repr, resolver
      ensures Valid() && fresh(bufferPool.Repr - old(bufferPool.Repr))
      ensures if Find(old(resolver.path), name).Some?
              then r == Err(DoubleMkPathname) && State() == old(State()) && resolver.path == old(resolver.path)
              else r == Ok(()) && State() == StoreSave(old(State()), i, old(resolver.path) + [Dentry(name, id)])
    {
      hide BufferPool.Valid, BufferPool.Packs, State, Inode.LoadedAt, Inode.ShapedAt, StoreSave, Find;
      r := resolver.AddPath(name, id);
      if r.Ok? {
        SaveResolver(i, resolver);
      }
    }

    /** remove_path and save_current. */
    method UnlinkEntry(i: nat, resolver: DirectoryResolver, name: Bytes) returns (r: Result<()>)
      requires Valid() && i in inodePool && resolver.associatedInode == inodePool[i].inode
               && resolver !in bufferPool.Repr
      requires inodePool[i].inode.Valid() && inodePool[i].inode.LoadedAt(CURRENT)
               && inodePool[i].inode.ShapedAt(CURRENT)
      modifies inodePool[i].inode`bufferMap, bufferPool.Repr, resolver
      ensures Valid() && fresh(bufferPool.Repr - old(bufferPool.Repr))
      ensures if Find(old(resolver.path), name).None? then r == Err(InodeNotFound) && State() == old(State())
              else r == Ok(()) && State() == StoreSave(old(State()), i, RemoveName(old(resolver.path), name))
    {
      hide BufferPool.Valid, BufferPool.Packs, State, Inode.LoadedAt, Inode.ShapedAt, StoreSave, Find, RemoveName;
      r := resolver.RemovePath(name);
      if r.Ok? {
        SaveResolver(i, resolver);
      }
    }

    /** Add the new inode `id` to the pool, to its directory and to the current version. */
    method AddChild(parent: nat, name: Bytes, id: nat, isDir: bool, resolver: DirectoryResolver)
      requires Valid() && parent in inodePool && id !in inodePool && CURRENT in versions
      requires resolver.associatedInode == inodePool[parent].inode && resolver !in bufferPool.Repr
      requires Find(resolver.path, name).None?
      requires inodePool[parent].inode.Valid() && inodePool[parent].inode.LoadedAt(CURRENT)
               && inodePool[parent].inode.ShapedAt(CURRENT)
      requires this !in bufferPool.Repr && CURRENT in inodePool[parent].inode.bufferMap
               && inodePool[parent].inode.filesystem == bufferPool
      modifies this, inodePool[parent].inode`bufferMap, bufferPool.Repr, resolver
      ensures Valid() && fresh(bufferPool.Repr - old(bufferPool.Repr)) && fresh(Nodes - old(Nodes))
      ensures State() == StoreAdd(old(State()), parent, old(resolver.path), name, id, isDir)
    {
      hide BufferPool.Valid, BufferPool.Packs, Valid, State, Inode.Valid, Inode.LoadedAt, Inode.ShapedAt, StoreSave,
           AddInode, Find;
      AddNode(id, isDir);
      var added := LinkEntry(parent, resolver, name, id);
      SetVersion(CURRENT, versions[CURRENT] + [id]);
    }

    /** The checks before a child is made. */
    method PrepareChild(parent: nat, name: Bytes) returns (r: Result<DirectoryResolver>, id: nat)
      requires Valid() && StoreInv(State())
      ensures Valid() && State() == old(State())
      ensures match MakeCheck(State(), parent, name)
              case Err(e) => r == Err(e)
              case Ok((es, n)) =>
                && r.Ok? && fresh(r.value) && r.value.path == es && id == n
                && parent in inodePool && r.value.associatedInode == inodePool[parent].inode
    {
      hide BufferPool.Valid, BufferPool.Packs, Valid, State, StoreInv, Find, BadName, OpenInode, FreeId, MakeCheck;
      MakeChecks(State(), parent, name);
      id := 0;
      var bad := CheckName(name);
      if bad {
        return Err(InvalidDentryName), id;
      }
      assert State() == old(State());
      r := OpenAt(parent, CURRENT);
      if r.Err? {
        return;
      }
      var available := r.value.CheckAvailability(name);
      assert Valid() && State() == old(State());
      if !available {
        return Err(DoubleMkPathname), id;
      }
      assert |inodePool| == |State().inodes| by { SameSize(inodePool, State().inodes); }
      var free := GetFreeId(inodePool, MAX_POOL_SIZE);
      if free.None? {
        return Err(IdDepleted), id;
      }
      id := free.value;
    }

    method MakeChildDentryUnderParent(parent: nat, name: Bytes, isDir: bool) returns (r: Result<nat>)
      requires Valid() && StoreInv(State())
      modifies this, Nodes, bufferPool.Repr
      ensures Valid() && fresh(bufferPool.Repr - old(bufferPool.Repr)) && fresh(Nodes - old(Nodes))
      ensures Reply(r, State()) == Answer(old(State()), StoreMake(old(State()), parent, name, isDir))
    {
      hide BufferPool.Valid, BufferPool.Packs, Valid, State, Inode.Valid, Inode.LoadedAt, Inode.ShapedAt, StoreInv,
           MakeCheck, StoreMake, StoreAdd, Find;
      MakeIs(State(), parent, name, isDir);
      var checked, id := PrepareChild(parent, name);
      if checked.Err? {
        return Err(checked.error);
      }
      InodeReadyAt(parent, CURRENT);
      AddChild(parent, name, id, isDir, checked.value);
      return Ok(id);
    }

    /** The checks before an entry is removed: the resolver of the parent and the inode that the entry names. */
    method CheckRemoval(parent: nat, name: Bytes) returns (r: Result<DirectoryResolver>, target: nat)
      requires Valid() && StoreInv(State())
      ensures Valid()
      ensures match StoreRemovalTarget(State(), parent, name)
              case Err(e) => r == Err(e)
              case Ok(t) =>
                && r.Ok? && fresh(r.value) && target == t
                && parent in inodePool && r.value.associatedInode == inodePool[parent].inode
                && OpenInode(State(), parent, CURRENT) == Ok(r.value.path) && Find(r.value.path, name) == Some(t)
    {
      hide BufferPool.Valid, BufferPool.Packs, Valid, State, StoreInv, Find, OpenInode;
      target := 0;
      r := OpenAt(parent, CURRENT);
      if r.Err? {
        return;
      }
      var found := r.value.Namei(name);
      if found.Err? {
        return Err(found.error), target;
      }
      target := found.value;
      var ifTargetIsDir := OpenAt(target, CURRENT);
      if ifTargetIsDir.Ok? {
        if |ifTargetIsDir.value.path| != 0 {
          return Err(DirNotEmpty), target;
        }
      } else if ifTargetIsDir.error != NotADirectory {
        return Err(ifTargetIsDir.error), target;
      }
    }

    /** Erase the first occurrence of an inode from the current list. */
    method ForgetInCurrent(target: nat)
      requires Valid() && CURRENT in versions
      modifies this`versions
      ensures Valid() && State() ==
              old(State()).(versions := old(versions)[CURRENT := RemoveFirst(old(versions)[CURRENT], target)])
    {
      hide BufferPool.Valid, BufferPool.Packs, Valid, State;
      var list := versions[CURRENT];
      var k := 0;
      while k < |list| && list[k] != target
        invariant k <= |list| && target !in list[..k]
      {
        k := k + 1;
      }
      RemovesFirst(list, target, k);
      SetVersion(CURRENT, if k < |list| then list[..k] + list[k + 1..] else list);
    }

    /** Only the entry of inode `i` in the pool has changed, and it still names the same inode. */
    twostate lemma EntryChanged(i: nat)
      requires old(Valid()) && i in old(inodePool) && i in inodePool && inodePool[i].inode == old(inodePool[i].inode)
      requires inodePool == old(inodePool)[i := inodePool[i]]
      requires unchanged(this`versions, this`Nodes, old(bufferPool.Repr), old(Nodes))
      requires unchanged(bufferPool)
      ensures Valid() && bufferPool.Packs() == old(bufferPool.Packs())
    {
      hide BufferPool.Valid, BufferPool.Packs;
    }

    method SetLinkCount(i: nat, count: nat)
      requires Valid() && i in inodePool
      modifies this`inodePool
      ensures Valid() && State() ==
              old(State()).(inodes := old(State()).inodes[i := old(State()).inodes[i].(links := count)])
      ensures inodePool.Keys == old(inodePool).Keys
      ensures forall j :: j in inodePool ==> inodePool[j].inode == old(inodePool[j].inode)
      ensures i in inodePool && inodePool[i].linkCount == count
    {
      hide BufferPool.Valid, BufferPool.Packs, Valid, State;
      ValidPool();
      ValidFacts(i);
      ghost var before := State();
      inodePool := inodePool[i := inodePool[i].(linkCount := count)];
      EntryChanged(i);
      SameStore(State(), before.(inodes := before.inodes[i := before.inodes[i].(links := count)]));
    }

    method EraseInode(i: nat)
      requires Valid() && i in inodePool
      modifies this`inodePool
      ensures Valid() && State() == old(State()).(inodes := old(State()).inodes - {i})
    {
      hide BufferPool.Valid, BufferPool.Packs, State;
      inodePool := inodePool - {i};
    }

    /** Bookkeeping: the current blocks of an inode that is erased go away without an unlink. */
    ghost method LoseBlocks(blocks: seq<BlockRef>)
      requires Valid()
      modifies bufferPool`lost
      ensures Valid() && bufferPool.Repr == old(bufferPool.Repr)
      ensures State() == old(State()).(pool := LoseAll(old(State()).pool, blocks))
    {
      hide BufferPool.Valid, BufferPool.Packs, State;
      bufferPool.LoseRefs(blocks);
    }

    /** Drop one link of an inode; the last one erases it. */
    method UnlinkInode(i: nat) returns (r: Result<()>)
      requires Valid()
      modifies this`inodePool, bufferPool`lost
      ensures Valid() && bufferPool.Repr == old(bufferPool.Repr)
      ensures i !in old(State()).inodes ==> r == Err(InodeNotFound) && State() == old(State())
      ensures i in old(State()).inodes ==> r == Ok(()) && State() == DropInode(old(State()), i)
    {
      hide BufferPool.Valid, BufferPool.Packs, Valid, State;
      if i !in inodePool {
        return Err(InodeNotFound);
      }
      ValidFacts(i);
      var count := if inodePool[i].linkCount == 0 then MAX_COUNT else inodePool[i].linkCount - 1;
      if count == 0 {
        LoseBlocks(inodePool[i].inode.bufferMap[CURRENT]);
        EraseInode(i);
      } else {
        SetLinkCount(i, count);
      }
      return Ok(());
    }

    /** Take the entry out of its directory and the inode out of the current version. */
    method Detach(parent: nat, name: Bytes, target: nat, resolver: DirectoryResolver)
      requires Valid() && parent in inodePool && CURRENT in versions
      requires resolver.associatedInode == inodePool[parent].inode && resolver !in bufferPool.Repr
      requires Find(resolver.path, name).Some?
      requires inodePool[parent].inode.Valid() && inodePool[parent].inode.LoadedAt(CURRENT)
               && inodePool[parent].inode.ShapedAt(CURRENT)
      requires this !in bufferPool.Repr && CURRENT in inodePool[parent].inode.bufferMap
               && inodePool[parent].inode.filesystem == bufferPool
      modifies this`versions, inodePool[parent].inode`bufferMap, bufferPool.Repr, resolver
      ensures Valid() && fresh(bufferPool.Repr - old(bufferPool.Repr))
      ensures State() == StoreDetach(old(State()), parent, old(resolver.path), name, target)
    {
      hide BufferPool.Valid, BufferPool.Packs, Valid, State, Inode.Valid, Inode.LoadedAt, Inode.ShapedAt, StoreSave,
           Find, RemoveName, RemoveFirst;
      var removed := UnlinkEntry(parent, resolver, name);
      ForgetInCurrent(target);
    }

    /** The changes of a removal: the entry goes, and the inode loses a link. */
    method DetachAndDrop(parent: nat, name: Bytes, target: nat, resolver: DirectoryResolver)
      requires Valid() && StoreInv(State()) && parent in inodePool && target in inodePool
      requires resolver.associatedInode == inodePool[parent].inode && resolver !in bufferPool.Repr
      requires Find(resolver.path, name).Some?
      modifies this, Nodes, bufferPool.Repr, resolver
      ensures Valid() && fresh(bufferPool.Repr - old(bufferPool.Repr)) && Nodes == old(Nodes)
      ensures target in StoreDetach(old(State()), parent, old(resolver.path), name, target).inodes
      ensures State() == DropInode(StoreDetach(old(State()), parent, old(resolver.path), name, target), target)
    {
      hide BufferPool.Valid, BufferPool.Packs, Valid, State, Inode.Valid, Inode.LoadedAt, Inode.ShapedAt, StoreInv,
           StoreDetach, DropInode, Find;
      InodeReadyAt(parent, CURRENT);
      Detach(parent, name, target, resolver);
      ValidFacts(target);
      var unlinked := UnlinkInode(target);
    }

    method RemoveChildDentryUnderParent(parent: nat, name: Bytes) returns (r: Result<nat>)
      requires Valid() && StoreInv(State())
      modifies this, Nodes, bufferPool.Repr
      ensures Valid() && fresh(bufferPool.Repr - old(bufferPool.Repr)) && Nodes == old(Nodes)
      ensures Reply(r, State()) == Answer(old(State()), StoreRemove(old(State()), parent, name))
    {
      hide BufferPool.Valid, BufferPool.Packs, Valid, State, Inode.Valid, Inode.LoadedAt, Inode.ShapedAt, StoreInv,
           StoreRemove, StoreDetach, DropInode, StoreRemovalTarget, OpenInode, Find;
      RemoveIs(State(), parent, name);
      var checked, target := CheckRemoval(parent, name);
      if checked.Err? {
        return Err(checked.error);
      }
      TargetThere(State(), parent, name);
      ValidPool();
      DetachAndDrop(parent, name, target, checked.value);
      return Ok(0);
    }

    // ---- Snapshots ----

    /** link_inode and create_new_volume of one listed inode. */
    method CreateVolumeOf(i: nat, version: Version) returns (r: Result<()>)
      requires Valid()
      modifies this`inodePool, Nodes, bufferPool.Repr
      ensures Valid() && bufferPool.Repr == old(bufferPool.Repr)
      ensures Stepped(CreateOne(old(State()), i, version), r, State())
    {
      hide BufferPool.Valid, BufferPool.Packs, Valid, State, Inode.Valid, LinkAll, AddVolume, WithVolumes, CreateOne;
      if i !in inodePool {
        CreateMissing(State(), i, version);
        return Err(InodeNotFound);
      }
      ValidFacts(i);
      CreatesAfterLink(State(), i, version);
      SetLinkCount(i, inodePool[i].linkCount + 1);
      r := NewVolume(i, version);
    }

    method NewVolume(i: nat, version: Version) returns (r: Result<()>)
      requires Valid() && i in inodePool
      modifies inodePool[i].inode`bufferMap, bufferPool.Repr
      ensures Valid() && bufferPool.Repr == old(bufferPool.Repr)
      ensures var vols := old(State()).inodes[i].vols;
              && CURRENT in vols
              && if version in vols then r == Err(DoubleSnapshot)
                 else
                   match LinkAll(old(State()).pool, vols[CURRENT])
                   case Err(e) => r == Err(e)
                   case Ok(pool) =>
                     && r == Ok(())
                     && State() == WithVolumes(old(State()), i, pool, AddVolume(vols, version))
    {
      hide BufferPool.Valid, BufferPool.Packs, LinkAll, AddVolume;
      r := inodePool[i].inode.CreateNewVolume(version);
      OnlyInode(i);
    }

    method CreateSnapshotVolume(version: Version) returns (r: Result<nat>)
      requires Valid() && StoreInv(State())
      modifies this, Nodes, bufferPool.Repr
      ensures Valid() && fresh(bufferPool.Repr - old(bufferPool.Repr)) && Nodes == old(Nodes)
      ensures Reply(r, State()) == Answer(old(State()), Returning(CreateSnapshot(old(State()), version)))
    {
      hide BufferPool.Valid, BufferPool.Packs, Valid, State, StoreInv, CreateOne, CreateAll, CreateSnapshot;
      if version in versions {
        CreateTwice(State(), version);
        return Err(DoubleSnapshot);
      }
      CreationSucceeds(State(), version);
      var rootVec := versions[CURRENT];
      assert rootVec[0..] == rootVec;
      ghost var all := CreateAll(State(), rootVec, version);
      for k := 0 to |rootVec|
        invariant Valid() && bufferPool.Repr == old(bufferPool.Repr) && Nodes == old(Nodes) && versions == old(versions)
        invariant CreateAll(State(), rootVec[k..], version) == all
      {
        assert rootVec[k..][1..] == rootVec[k + 1..];
        CreateNext(State(), rootVec[k..], version);
        ValidPool();
        var created := CreateVolumeOf(rootVec[k], version);
        assert created.Ok?;
      }
      CreateDone(State(), version);
      SetVersion(version, rootVec);
      return Ok(0);
    }

    method OldVolume(i: nat, version: Version) returns (r: Result<()>)
      requires Valid() && i in inodePool
      modifies inodePool[i].inode`bufferMap, bufferPool.Repr
      ensures Valid() && bufferPool.Repr == old(bufferPool.Repr)
      ensures var vols := old(State()).inodes[i].vols;
              if version == CURRENT || version !in vols then r == Err(NoSuchSnapshot) && State() == old(State())
              else
                match UnlinkAll(old(State()).pool, vols[version])
                case Err(e) => r == Err(e)
                case Ok(pool) => r == Ok(()) && State() == WithVolumes(old(State()), i, pool, vols - {version})
    {
      hide BufferPool.Valid, BufferPool.Packs, UnlinkAll;
      r := inodePool[i].inode.DeleteVolume(version);
      OnlyInode(i);
      SameVolumes(old(State()), i);
    }

    /** delete_volume and unlink_inode of one listed inode. */
    method DeleteVolumeOf(i: nat, version: Version) returns (r: Result<()>)
      requires Valid()
      modifies this`inodePool, Nodes, bufferPool.Repr
      ensures Valid() && bufferPool.Repr == old(bufferPool.Repr)
      ensures Stepped(DeleteOne(old(State()), i, version), r, State())
      ensures version == CURRENT ==> r.Err? && State() == old(State())
    {
      hide BufferPool.Valid, BufferPool.Packs, Valid, State, Inode.Valid, UnlinkAll, LoseAll, WithVolumes, DropInode;
      if i !in inodePool {
        return Err(InodeNotFound);
      }
      ValidFacts(i);
      DropsAfterVolume(State(), i, version);
      r := OldVolume(i, version);
      if r.Ok? {
        r := UnlinkInode(i);
      }
    }

    method DeleteSnapshotVolume(version: Version) returns (r: Result<nat>)
      requires Valid() && StoreInv(State())
      modifies this, Nodes, bufferPool.Repr
      ensures Valid() && fresh(bufferPool.Repr - old(bufferPool.Repr)) && Nodes == old(Nodes)
      ensures Reply(r, State()) == Answer(old(State()), Returning(DeleteSnapshot(old(State()), version)))
    {
      hide BufferPool.Valid, BufferPool.Packs, Valid, State, StoreInv, DeleteOne, DeleteAll, DeleteSnapshot;
      if version !in versions {
        DeleteUnknown(State(), version);
        return Err(NoSuchSnapshot);
      }
      DeletionSucceeds(State(), version);
      var targetVec := versions[version];
      assert targetVec[0..] == targetVec;
      ghost var all := DeleteAll(State(), targetVec, version);
      for k := 0 to |targetVec|
        invariant Valid() && bufferPool.Repr == old(bufferPool.Repr) && Nodes == old(Nodes) && versions == old(versions)
        invariant version != CURRENT ==> DeleteAll(State(), targetVec[k..], version) == all
        invariant version == CURRENT ==> k == 0 && State() == old(State())
      {
        assert targetVec[k..][1..] == targetVec[k + 1..];
        if version != CURRENT { DeleteNext(State(), targetVec[k..], version); }
        ValidPool();
        var deleted := DeleteVolumeOf(targetVec[k], version);
        if deleted.Err? {
          return Err(deleted.error);
        }
      }
      DeleteDone(State(), version);
      DropVersion(version);
      return Ok(0);
    }

    method DropVersion(version: Version)
      requires Valid()
      modifies this`versions
      ensures Valid() && State() == old(State()).(versions := old(versions) - {version})
    {
      hide BufferPool.Valid, BufferPool.Packs, State;
      versions := versions - {version};
    }

    // ---- Paths ----

    method GetInodeIdByPath(path: Bytes) returns (r: Result<nat>)
      requires Valid() && StoreInv(State())
      ensures r == InodeIdByPath(State(), path)
    {
      hide BufferPool.Valid, BufferPool.Packs, Valid, State, StoreInv, IfSnapshot, StoreResolve;
      if |path| == 0 {
        return Ok(ROOT);
      }
      if path[0] != SEPARATOR {
        return Err(InvalidDentryName);
      }
      var parsed := IfSnapshotMethod(path);
      if parsed.Err? {
        return Err(parsed.error);
      }
      var (version, parsedPath) := parsed.value;
      var vecPath := new PathT(parsedPath);
      if version != CURRENT && |vecPath.pathname| == 1 {
        if version !in versions {
          return Err(NoSuchSnapshot);
        }
        return Ok(ROOT);
      }
      ComponentsProper(parsedPath, []);
      r := Descend(version, vecPath.pathname, Components(parsedPath));
    }

    /** The loop of get_inode_id_by_path; the first name is the empty one that stands for the root. */
    method Descend(version: Version, pathname: seq<Component>, ghost cs: Path) returns (r: Result<nat>)
      requires Valid() && StoreInv(State())
      requires pathname == [[]] + cs && AllProper(cs)
      ensures r == StoreResolve(State(), version, ROOT, cs)
    {
      hide BufferPool.Valid, BufferPool.Packs, Valid, State, StoreInv, OpenInode, Find;
      var current: nat := ROOT;
      assert cs[0..] == cs;
      for k := 0 to |pathname|
        invariant StoreResolve(State(), version, current, cs[if k == 0 then 0 else k - 1..]) ==
                  StoreResolve(State(), version, ROOT, cs)
      {
        if pathname[k] != [] {
          assert cs[k - 1..][1..] == cs[k..];
          var resolver := OpenAt(current, version);
          if resolver.Err? {
            return Err(resolver.error);
          }
          var found := resolver.value.Namei(pathname[k]);
          if found.Err? {
            return Err(found.error);
          }
          current := found.value;
        } else {
          assert k > 0 ==> Proper(cs[k - 1]);
        }
      }
      return Ok(current);
    }

    /** The paths of the entries of one directory, and none for a file. */
    method MakePathForCurrentDentry(version: Version, prefix: Bytes, ghost s: Store, ghost path: Path)
      returns (ret: seq<Bytes>)
      requires Valid() && s == State() && Inv(s) && version in s.versions && Proper(version)
      requires prefix == Print(path) + [SEPARATOR] && Lookup(View(s, version), path).Ok?
      ensures ret == LevelAt(s, version, path)
    {
      hide BufferPool.Valid, BufferPool.Packs, Valid, State, Inv, StoreInv, Lookup, View, InodeIdByPath, Level,
           Entries, Names;
      InvStore(s);
      PrefixFinds(s, version, path, prefix);
      var parent := GetInodeIdByPath(MakePathWithVersion(prefix, version));
      ShownReadable(s, version, parent.value);
      var resolver := OpenAt(parent.value, version);
      if resolver.Err? {
        return [];
      }
      EntryNames(s, version, parent.value);
      ret := LevelPaths(resolver.value.path, prefix, path);
    }

    /** The paths below one directory: its entries first, then what is below each of them. */
    method ExportBelow(version: Version, prefix: Bytes, ghost s: Store, ghost path: Path, ghost rank: map<nat, nat>,
                       ghost bound: nat)
      returns (filesystemMap: seq<Bytes>)
      requires Valid() && s == State() && Inv(s) && version in s.versions && Proper(version)
      requires prefix == Print(path) + [SEPARATOR] && Walkable(s, version, path, rank, bound)
      ensures filesystemMap == WalkText(s, version, path, rank, bound)
      decreases Depth(s, version, path, rank, bound)
    {
      hide BufferPool.Valid, BufferPool.Packs, Valid, State, Inv, StoreInv, Walkable, WalkText, RestText, LevelAt,
           Depth, Print;
      WalkStarts(s, version, path, rank, bound);
      var dentryList := MakePathForCurrentDentry(version, prefix, s, path);
      filesystemMap := dentryList;
      for k := 0 to |dentryList|
        invariant filesystemMap + RestText(s, version, path, rank, bound, k) == WalkText(s, version, path, rank, bound)
      {
        var child := WalkGoesOn(s, version, path, rank, bound, k);
        var below := ExportBelow(version, dentryList[k] + [SEPARATOR], s, child, rank, bound);
        filesystemMap := filesystemMap + below;
      }
      WalkEnds(s, version, path, rank, bound);
    }

    method ExportTree(version: Version) returns (filesystemMap: seq<Bytes>)
      requires Valid() && Inv(State()) && version in versions && Proper(version)
      ensures Valid() && Exported(State(), version, filesystemMap)
    {
      hide BufferPool.Valid, BufferPool.Packs, Valid, State, Inv, Walkable, WalkText, Exported, Print;
      ghost var rank, bound := ExportRanks(State(), version);
      filesystemMap := ExportBelow(version, [SEPARATOR], State(), [], rank, bound);
    }

    /** An unknown version fails in the first lookup. */
    method ExportAsFilesystemMap(version: Version) returns (r: Result<seq<Bytes>>)
      requires Valid() && Inv(State()) && SEPARATOR !in version
      ensures Valid()
      ensures if version == [] then r == Err(InvalidDentryName)
              else if version !in State().versions then r == Err(NoSuchSnapshot)
              else r.Ok? && Exported(State(), version, r.value)
    {
      hide BufferPool.Valid, BufferPool.Packs, Valid, State, Inv, StoreInv, Exported, InodeIdByPath,
           MakePathWithVersion;
      InvStore(State());
      VersionRoot(State(), version);
      var root := GetInodeIdByPath(MakePathWithVersion([SEPARATOR], version));
      if root.Err? {
        return Err(root.error);
      }
      var filesystemMap := ExportTree(version);
      return Ok(filesystemMap);
    }
  }

  method LevelPaths(es: seq<Dentry>, prefix: Bytes, ghost path: Path) returns (ret: seq<Bytes>)
    requires prefix == Print(path) + [SEPARATOR] && forall e :: e in es ==> e.name != []
    ensures ret == PrintAll(Level(es, path))
  {
    ret := [];
    for k := 0 to |es|
      invariant ret == PrintAll(Level(es, path))[..k]
    {
      LevelText(es, path, prefix, k);
      ret := ret + [prefix + es[k].name];
    }
  }
}
