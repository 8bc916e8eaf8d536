// What the invariant says to a user of the store: reads, block and inode accounting, ownership, and undoing a snapshot.
module Consequences {
  import opened ByteStrings
  import opened Buffers
  import opened FreeIds
  import opened Blocks
  import opened Chunks
  import opened Inodes
  import opened Stores
  import opened Snapshots
  import opened SnapshotInv
  import opened Directories
  import opened Namespaces
  import opened TreePaths
  import opened Images
  import opened Histories
  import opened Filesystems
  import opened Refinement
  import opened Runs

  // ---- Reads ----

  /** inode_t::read of a version. */
  function StoreRead(s: Store, i: nat, v: Version, length: nat, offset: nat): Result<Bytes>
    requires s.bs > 0
  {
    if i !in s.inodes then Err(InodeNotFound)
    else if length == 0 then Ok([])
    else if v !in s.inodes[i].vols then Err(NoSuchSnapshot)
    else ReadBank(s.bs, Bank(s.pool, s.inodes[i].vols[v]), length, offset)
  }

  /** inode_t::to_string of a version. */
  function StoreToString(s: Store, i: nat, v: Version): Result<Bytes>
    requires s.bs > 0
  {
    if i !in s.inodes then Err(InodeNotFound)
    else if v !in s.inodes[i].vols then Err(NoSuchSnapshot)
    else BankToString(s.bs, Bank(s.pool, s.inodes[i].vols[v]))
  }

  /**
    * Reading listed inode `i` at version `v` delivers what the version shows from `offset` on, up to the length asked
    * for.
    */
  lemma ReadShows(s: Store, i: nat, v: Version, length: nat, offset: nat)
    requires Inv(s) && v in s.versions && i in View(s, v)
    ensures var b := View(s, v)[i].bytes;
            && StoreToString(s, i, v) == Ok(b)
            && StoreRead(s, i, v, length, offset) ==
               if length > 0 && offset == |b| && offset % s.bs == 0 then Err(OutOfRange)
               else if offset > |b| then Ok([])
               else Ok(b[offset..if length <= |b| - offset then offset + length else |b|])
  {
    InvStore(s);
    ListedInodes(s, v, i);
    assert CountOk(s, i) && v in Listing(s, i);
    InodeReady(s, i);
    hide StoreInv, InodeOk, Shaped, Flatten, ReadBank, BankToString;
    var b := Bank(s.pool, s.inodes[i].vols[v]);
    ReadRefines(s.bs, b, length, offset);
    ReadExactly(View(s, v)[i].bytes, length, offset);
    ToStringRefines(s.bs, b);
  }

  /** What reading fails with: no such inode if no version lists it, and else no such snapshot if this one does not. */
  lemma ReadRefused(s: Store, i: nat, v: Version, length: nat, offset: nat)
    requires Inv(s) && (v in s.versions ==> i !in View(s, v))
    ensures (forall w :: w in s.versions ==> i !in View(s, w)) ==>
              StoreRead(s, i, v, length, offset) == Err(InodeNotFound) && StoreToString(s, i, v) == Err(InodeNotFound)
    ensures v != CURRENT && (exists w :: w in s.versions && i in View(s, w)) ==>
              && StoreToString(s, i, v) == Err(NoSuchSnapshot)
              && StoreRead(s, i, v, length, offset) == if length == 0 then Ok([]) else Err(NoSuchSnapshot)
  {
    InvStore(s);
    AbsIds(s);
    hide Inv, BlocksInv, View, ReadBank, BankToString;
    if i in s.inodes {
      assert CountOk(s, i);
      assert v !in Listing(s, i) by { hide CountOk; ViewIsList(s, v, i); }
    }
    IdsAreShown(s, i);
  }

  lemma ViewIsList(s: Store, v: Version, i: nat)
    ensures v in s.versions ==> (i in View(s, v) <==> i in s.versions[v])
  {
    hide NodeAt;
  }

  lemma IdsAreShown(s: Store, i: nat)
    ensures i in AllIds(Abs(s)) <==> exists w :: w in s.versions && i in View(s, w)
  {
    hide View;
    if w :| w in s.versions && i in View(s, w) { assert w in Abs(s) && i in Abs(s)[w]; }
  }

  /** Whatever happens after its creation, a snapshot reads, byte for byte, as the current version did then. */
  lemma SnapshotReads(s: Store, ops: seq<Op>, v: Version, i: nat, length: nat, offset: nat)
    requires Reachable(s) && v !in s.versions && i in View(s, CURRENT)
    requires LegalRun(s.bs, Abs(s), [CreateVolume(v)] + ops) && DeleteVolume(v) !in ops
    ensures var s2 := Run(s, [CreateVolume(v)] + ops);
            && s2.bs == s.bs
            && StoreRead(s2, i, v, length, offset) == StoreRead(s, i, CURRENT, length, offset)
            && StoreToString(s2, i, v) == StoreToString(s, i, CURRENT)
  {
    hide Reachable, LegalRun, View, Run, Inv, StoreRead, StoreToString, Abs;
    ReachableInv(s);
    SnapshotForever(s, ops, v);
    RunRefines(s, [CreateVolume(v)] + ops);
    ReadShows(s, i, CURRENT, length, offset);
    ReadShows(Run(s, [CreateVolume(v)] + ops), i, v, length, offset);
  }

  /**
    * Saving a directory and reading it back, over any blocks it had before, gives the same list exactly when every
    * name is storable.
    */
  lemma SaveThenRefresh(s: Store, i: nat, es: seq<Dentry>)
    requires StoreInv(s) && i in s.inodes && s.inodes[i].isDir
    requires |es| < U64 && forall e :: e in es ==> e.id < U64
    ensures CURRENT in s.inodes[i].vols
    ensures OpenInode(StoreSave(s, i, es), i, CURRENT) == Ok(es) <==> forall e :: e in es ==> Storable(e)
  {
    hide StoreInv, StoreSave, Encode, Decode, Abs, View;
    SaveRewrites(s, i, es);
    DirectoryRoundTrip(es);
    var s2 := StoreSave(s, i, es);
    assert NodeAt(s2, i, CURRENT).bytes == Encode(es);
    assert s2.inodes[i].isDir == s2.inodes[i].(vols := s.inodes[i].vols).isDir;
  }

  // ---- Block accounting ----

  /** Where a block reference stands. */
  datatype Position = Position(inode: nat, version: Version, index: nat)

  /** All live references to a block. */
  ghost function LiveRefs(s: Store, id: nat): set<Position> {
    set i, v, k: nat |
      && i in s.inodes && v in s.inodes[i].vols && k < |s.inodes[i].vols[v]|
      && s.inodes[i].vols[v][k].id == id ::
      Position(i, v, k)
  }

  function Tagged(h: set<Version>, i: nat, k: nat): set<Position> {
    set v | v in h :: Position(i, v, k)
  }

  lemma {:induction false} TaggedSize(h: set<Version>, i: nat, k: nat)
    ensures |Tagged(h, i, k)| == |h|
  {
    if h != {} {
      var x :| x in h;
      TaggedSize(h - {x}, i, k);
      assert Tagged(h, i, k) == Tagged(h - {x}, i, k) + {Position(i, x, k)};
    }
  }

  lemma RefHome(s: Store, i: nat, v: Version, k: nat, p: Position)
    requires BlocksInv(s) && i in s.inodes && v in s.inodes[i].vols && k < |s.inodes[i].vols[v]|
    requires p in LiveRefs(s, s.inodes[i].vols[v][k].id)
    ensures p.inode == i && p.index == k && p.version in Holders(s.inodes[i].vols, k, s.inodes[i].vols[v][k].id)
  {
    InodeOkOf(s, i);
    IdIn(s.inodes[i].vols, v, k);
    IdIn(s.inodes[p.inode].vols, p.version, p.index);
    OneOwner(s, i, p.inode, s.inodes[i].vols[v][k].id);
  }

  lemma OneOwner(s: Store, i: nat, j: nat, id: nat)
    requires NoSharing(s) && i in s.inodes && j in s.inodes
    requires id in Ids(s.inodes[i].vols) && id in Ids(s.inodes[j].vols)
    ensures i == j
  {
  }

  /** All references to a block stand in one inode, at one index. */
  lemma RefsOfOwner(s: Store, i: nat, v: Version, k: nat)
    requires BlocksInv(s) && i in s.inodes && v in s.inodes[i].vols && k < |s.inodes[i].vols[v]|
    ensures var id := s.inodes[i].vols[v][k].id;
            LiveRefs(s, id) == Tagged(Holders(s.inodes[i].vols, k, id), i, k)
  {
    hide BlocksInv;
    var id := s.inodes[i].vols[v][k].id;
    var h := Holders(s.inodes[i].vols, k, id);
    forall p | p in LiveRefs(s, id)
      ensures p in Tagged(h, i, k)
    {
      RefHome(s, i, v, k, p);
      assert p == Position(i, p.version, k);
    }
  }

  /** The link count of every pooled buffer is its live references plus the ones lost without an unlink. */
  lemma BlockAccounting(s: Store, id: nat)
    requires Reachable(s) && id in s.pool
    ensures s.pool[id].links == |LiveRefs(s, id)| + s.pool[id].lost
  {
    hide *;
    ReachableInv(s);
    InvStore(s);
    InvBlocks(s);
    PooledAccounting(s, id);
  }

  lemma InvBlocks(s: Store)
    requires StoreInv(s)
    ensures BlocksInv(s)
  {
  }

  lemma PooledAccounting(s: Store, id: nat)
    requires BlocksInv(s) && id in s.pool
    ensures s.pool[id].links == |LiveRefs(s, id)| + s.pool[id].lost
  {
    if i :| i in s.inodes && id in Ids(s.inodes[i].vols) {
      var vols: Vols := s.inodes[i].vols;
      InodeOkOf(s, i);
      var v, k: nat :| v in vols && k < |vols[v]| && vols[v][k].id == id;
      assert EntryOk(s.pool, vols, v, k);
      hide BlocksInv, InodeOk, Ids, LiveRefs;
      RefsOfOwner(s, i, v, k);
      TaggedSize(Holders(vols, k, id), i, k);
    } else {
      assert !Owned(s, id);
      NoRefs(s, id);
    }
  }

  lemma NoRefs(s: Store, id: nat)
    requires !Owned(s, id)
    ensures LiveRefs(s, id) == {}
  {
    forall i, v, k: nat | i in s.inodes && v in s.inodes[i].vols && k < |s.inodes[i].vols[v]|
      ensures s.inodes[i].vols[v][k].id != id
    {
      IdIn(s.inodes[i].vols, v, k);
    }
  }

  /** No block reference dangles, and an unfrozen one is the only reference to its block. */
  lemma Ownership(s: Store, i: nat, v: Version, k: nat)
    requires Reachable(s) && i in s.inodes && v in s.inodes[i].vols && k < |s.inodes[i].vols[v]|
    ensures var r := s.inodes[i].vols[v][k];
            && r.id in s.pool && |LiveRefs(s, r.id)| > 0
            && (v != CURRENT ==> r.frozen)
            && (!r.frozen ==>
                  && s.pool[r.id].links == 1 && s.pool[r.id].lost == 0
                  && LiveRefs(s, r.id) == {Position(i, CURRENT, k)})
            && forall p :: p in LiveRefs(s, r.id) ==> p.inode == i && p.index == k
  {
    hide Reachable, Inv, StoreInv, BlocksInv, InodeOk, LiveRefs, Holders;
    ReachableInv(s);
    InvStore(s);
    InvBlocks(s);
    InodeOkOf(s, i);
    EntryOwnership(s.pool, s.inodes[i].vols, v, k);
    RefsOfOwner(s, i, v, k);
    assert Position(i, v, k) in LiveRefs(s, s.inodes[i].vols[v][k].id);
  }

  lemma EntryOwnership(pool: Pool, vols: Vols, v: Version, k: nat)
    requires InodeOk(pool, vols) && v in vols && k < |vols[v]|
    ensures var r := vols[v][k];
            && r.id in pool && v in Holders(vols, k, r.id)
            && (v != CURRENT ==> r.frozen)
            && (!r.frozen ==> pool[r.id].links == 1 && pool[r.id].lost == 0 && Holders(vols, k, r.id) == {CURRENT})
  {
    assert EntryOk(pool, vols, v, k);
    if !vols[v][k].frozen { UnfrozenIsPrivate(pool, vols, k); }
    hide InodeOk;
  }

  // ---- Inode accounting ----

  /** Link counts of inodes are exact, and an inode has a volume for a snapshot exactly when the snapshot lists it. */
  lemma InodeAccounting(s: Store, i: nat)
    requires Reachable(s)
    ensures i in s.inodes <==> Listing(s, i) != {}
    ensures i in s.inodes ==> s.inodes[i].links == |Listing(s, i)|
    ensures i in s.inodes ==> forall v :: v != CURRENT ==>
            (v in s.inodes[i].vols <==> v in s.versions && i in s.versions[v])
  {
    hide Reachable, Inv, BlocksInv;
    ReachableInv(s);
    InvStore(s);
    if i in s.inodes {
      assert CountOk(s, i);
    } else if v :| v in Listing(s, i) {
      ListedInodes(s, v, i);
    }
  }

  /** A new inode's id occurs in no version, neither as a node nor in a directory. */
  lemma FreshIdIsUnused(s: Store, v: Version)
    requires Reachable(s) && v in s.versions
    ensures var n := FreeId(s.inodes.Keys);
            && n !in View(s, v)
            && forall d, e :: e in Entries(Names(View(s, v)), d) ==> e.id != n
  {
    hide Reachable, Inv;
    ReachableInv(s);
    InvImage(s, v);
    var n := FreeId(s.inodes.Keys);
    forall i | i in View(s, v)
      ensures i in s.inodes
    {
      ListedInodes(s, v, i);
    }
    forall d, e | e in Entries(Names(View(s, v)), d)
      ensures e.id in View(s, v)
    {
      assert Edge(Names(View(s, v)), d, e);
      assert EdgeOk(Names(View(s, v)), d, e);
    }
  }

  /** In every reachable state, the namespace of every version is a tree in which lookup is one to one. */
  lemma EveryVersionIsATree(s: Store, v: Version)
    requires Reachable(s) && v in s.versions
    ensures var g := Names(View(s, v));
            && Tree(g)
            && (forall j :: j in g ==> exists p :: LeadsTo(g, p, j))
            && (forall j, p, q :: LeadsTo(g, p, j) && LeadsTo(g, q, j) ==> j in g && p == q)
  {
    ReachableInv(s);
    InvImage(s, v);
    hide Inv, StoreInv, Tree, LeadsTo, View;
    LookupIsBijective(Names(View(s, v)));
  }

  // ---- Creating and deleting a snapshot ----

  /** The store with the current blocks of all listed inodes marked frozen. */
  function FreezeCurrent(s: Store): Store
    requires CURRENT in s.versions
  {
    s.(inodes := map i | i in s.inodes ::
         if i in s.versions[CURRENT] && CURRENT in s.inodes[i].vols
         then s.inodes[i].(vols := s.inodes[i].vols[CURRENT := Freeze(s.inodes[i].vols[CURRENT])])
         else s.inodes[i])
  }

  /** Deleting a snapshot right after its creation restores everything but frozen flags. */
  lemma CreateThenDelete(s: Store, v: Version)
    requires Reachable(s) && v !in s.versions
    ensures var s2 := CreateSnapshot(s, v);
            s2.Ok? && DeleteSnapshot(s2.value, v) == Ok(FreezeCurrent(s))
  {
    hide *;
    ReachableInv(s);
    InvStore(s);
    Undone(s, v);
  }

  lemma Undone(s: Store, v: Version)
    requires StoreInv(s) && v !in s.versions
    ensures var s2 := CreateSnapshot(s, v);
            s2.Ok? && DeleteSnapshot(s2.value, v) == Ok(FreezeCurrent(s))
  {
    hide BlocksInv, ListsInv, CreateReady, DeleteReady, CreateAll, DeleteAll;
    var list := s.versions[CURRENT];
    CreateIsReady(s, v);
    CreateAllIs(s, list, v);
    var s1 := CreateAll(s, list, v).value;
    CreateSnapshotRefines(s, v);
    var s2 := CreateSnapshot(s, v).value;
    CreateNotCurrent(s, v);
    DeleteIsReady(s2, v);
    DeleteAllIs(s2, list, v);
    var s3 := DeleteAll(s2, list, v).value;
    hide Created, Deleted;
    InodesBack(s, v, s1, s2, s3);
    PoolBack(s, v, s1, s2, s3);
    VersionsBack(s, v, s1, s2, s3);
  }

  lemma CreateNotCurrent(s: Store, v: Version)
    requires ListsInv(s) && v !in s.versions
    ensures v != CURRENT && forall i :: i in s.inodes ==>
            v !in s.inodes[i].vols && CURRENT in s.inodes[i].vols && s.inodes[i].links > 0
  {
    forall i | i in s.inodes
      ensures v !in s.inodes[i].vols && CURRENT in s.inodes[i].vols && s.inodes[i].links > 0
    {
      assert CountOk(s, i) && v !in Listing(s, i);
    }
  }

  lemma VersionsBack(s: Store, v: Version, s1: Store, s2: Store, s3: Store)
    requires CURRENT in s.versions && v !in s.versions
    requires Created(s, s.versions[CURRENT], v, s1)
    requires s2 == s1.(versions := s1.versions[v := s.versions[CURRENT]])
    requires Deleted(s2, s.versions[CURRENT], v, s3)
    ensures s3.versions - {v} == s.versions && s3.bs == s.bs
  {
    hide DeletedPool, DeletedInodes, InList;
  }

  lemma InodesBack(s: Store, v: Version, s1: Store, s2: Store, s3: Store)
    requires ListsInv(s) && v !in s.versions
    requires Created(s, s.versions[CURRENT], v, s1)
    requires s2 == s1.(versions := s1.versions[v := s.versions[CURRENT]])
    requires Deleted(s2, s.versions[CURRENT], v, s3)
    ensures s3.inodes == FreezeCurrent(s).inodes
  {
    hide ListsInv, Created, Deleted, FreezeCurrent;
    CreateNotCurrent(s, v);
    FreezeKeys(s);
    forall i: nat
      ensures i in s3.inodes <==> i in s.inodes
      ensures i in s.inodes ==> s3.inodes[i] == FreezeCurrent(s).inodes[i]
    {
      InodeBack(s, v, s1, s2, s3, i);
    }
  }

  lemma FreezeKeys(s: Store)
    requires CURRENT in s.versions
    ensures FreezeCurrent(s).inodes.Keys == s.inodes.Keys
  {
  }

  lemma InodeBack(s: Store, v: Version, s1: Store, s2: Store, s3: Store, i: nat)
    requires CURRENT in s.versions && v != CURRENT
    requires i in s.inodes ==> v !in s.inodes[i].vols && CURRENT in s.inodes[i].vols && s.inodes[i].links > 0
    requires Created(s, s.versions[CURRENT], v, s1)
    requires s2 == s1.(versions := s1.versions[v := s.versions[CURRENT]])
    requires Deleted(s2, s.versions[CURRENT], v, s3)
    ensures i in s3.inodes <==> i in s.inodes
    ensures i in s.inodes ==> s3.inodes[i] == FreezeCurrent(s).inodes[i]
  {
    hide DeletedPool, InList, Plus, AddVolume, Freeze;
    if i in s.inodes && i in s.versions[CURRENT] { AddThenDrop(s.inodes[i].vols, v); }
  }

  lemma AddThenDrop(vols: Vols, v: Version)
    requires CURRENT in vols && v !in vols && v != CURRENT
    ensures AddVolume(vols, v) - {v} == vols[CURRENT := Freeze(vols[CURRENT])]
  {
  }

  /** Each shared block got one link and lost it again; it never came down to its last one. */
  lemma PoolBack(s: Store, v: Version, s1: Store, s2: Store, s3: Store)
    requires StoreInv(s) && v !in s.versions
    requires Created(s, s.versions[CURRENT], v, s1)
    requires s2 == s1.(versions := s1.versions[v := s.versions[CURRENT]])
    requires Deleted(s2, s.versions[CURRENT], v, s3)
    ensures s3.pool == s.pool
  {
    hide BlocksInv, ListsInv, Created, Deleted;
    CreateNotCurrent(s, v);
    forall id: nat
      ensures id in s3.pool <==> id in s.pool
      ensures id in s.pool ==> s3.pool[id] == s.pool[id]
    {
      PackBack(s, v, s1, s2, s3, id);
    }
  }

  lemma PackBack(s: Store, v: Version, s1: Store, s2: Store, s3: Store, id: nat)
    requires BlocksInv(s) && CURRENT in s.versions && v != CURRENT
    requires forall i :: i in s.inodes ==>
             v !in s.inodes[i].vols && CURRENT in s.inodes[i].vols && s.inodes[i].links > 0
    requires Created(s, s.versions[CURRENT], v, s1)
    requires s2 == s1.(versions := s1.versions[v := s.versions[CURRENT]])
    requires Deleted(s2, s.versions[CURRENT], v, s3)
    ensures id in s3.pool <==> id in s.pool
    ensures id in s.pool ==> s3.pool[id] == s.pool[id]
  {
    hide BlocksInv, DeletedInodes, InList, InErased;
    var list := s.versions[CURRENT];
    assert DeletedEntry(s2.pool, s3.pool, id, InList(s2, list, v, id), InErased(s2, list, id));
    SameShared(s, v, s1, s2, id);
    if id in s.pool && InList(s, list, CURRENT, id) { SharedHasLink(s, list, id); }
  }

  lemma SameShared(s: Store, v: Version, s1: Store, s2: Store, id: nat)
    requires CURRENT in s.versions && v != CURRENT
    requires forall i :: i in s.inodes ==>
             v !in s.inodes[i].vols && CURRENT in s.inodes[i].vols && s.inodes[i].links > 0
    requires Created(s, s.versions[CURRENT], v, s1)
    requires s2 == s1.(versions := s1.versions[v := s.versions[CURRENT]])
    ensures InList(s2, s.versions[CURRENT], v, id) <==> InList(s, s.versions[CURRENT], CURRENT, id)
    ensures !InErased(s2, s.versions[CURRENT], id)
  {
    var list := s.versions[CURRENT];
    forall i | i in list && i in s.inodes
      ensures BlockIds(s2.inodes[i].vols[v]) == BlockIds(s.inodes[i].vols[CURRENT])
      ensures s2.inodes[i].links == s.inodes[i].links + 1
    {
      FreezeIds(s.inodes[i].vols[CURRENT]);
    }
    hide BlockIds;
  }

  lemma FreezeIds(blocks: seq<BlockRef>)
    ensures BlockIds(Freeze(blocks)) == BlockIds(blocks)
  {
    forall id | id in BlockIds(blocks)
      ensures id in BlockIds(Freeze(blocks))
    {
      var k :| 0 <= k < |blocks| && blocks[k].id == id;
      assert Freeze(blocks)[k].id == id;
    }
  }

  lemma SharedHasLink(s: Store, list: seq<nat>, id: nat)
    requires BlocksInv(s) && InList(s, list, CURRENT, id)
    ensures id in s.pool && s.pool[id].links > 0
  {
    var i :| i in list && i in s.inodes && CURRENT in s.inodes[i].vols && id in BlockIds(s.inodes[i].vols[CURRENT]);
    InodeOkOf(s, i);
    VolumeIds(s.pool, s.inodes[i].vols, CURRENT);
  }
}
