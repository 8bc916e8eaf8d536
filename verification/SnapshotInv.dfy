// Creating and deleting a snapshot keeps the store invariant, and shows what it should.
module SnapshotInv {
  import opened ByteStrings
  import opened Chunks
  import opened Blocks
  import opened Inodes
  import opened Stores
  import opened Snapshots

  lemma VolumeIds(pool: Pool, vols: Vols, v: Version)
    requires InodeOk(pool, vols) && v in vols
    ensures DistinctIds(vols[v])
    ensures BlockIds(vols[v]) <= Ids(vols) <= pool.Keys
    ensures forall id :: id in BlockIds(vols[v]) ==> id in pool && pool[id].links > 0
  {
    IdsInPool(pool, vols);
    forall id | id in BlockIds(vols[v])
      ensures id in Ids(vols) && id in pool && pool[id].links > 0
    {
      var k: nat :| k < |vols[v]| && vols[v][k].id == id;
      IdIn(vols, v, k);
      assert EntryOk(pool, vols, v, k);
      assert v in Holders(vols, k, id);
    }
  }

  /** Of the blocks of one inode, a loop over inodes touches those that this inode contributes. */
  lemma InListOwn(s: Store, list: seq<nat>, w: Version, i: nat, id: nat)
    requires InodesOk(s) && NoSharing(s)
    requires i in s.inodes && id in Ids(s.inodes[i].vols)
    ensures InList(s, list, w, id) <==> i in list && w in s.inodes[i].vols && id in BlockIds(s.inodes[i].vols[w])
  {
    if j :| j in list && j in s.inodes && w in s.inodes[j].vols && id in BlockIds(s.inodes[j].vols[w]) {
      VolumeIds(s.pool, s.inodes[j].vols, w);
      assert j == i || Ids(s.inodes[j].vols) !! Ids(s.inodes[i].vols);
    }
  }

  lemma InListOwned(s: Store, list: seq<nat>, w: Version, id: nat)
    requires InodesOk(s)
    ensures InList(s, list, w, id) ==> Owned(s, id)
  {
    if j :| j in list && j in s.inodes && w in s.inodes[j].vols && id in BlockIds(s.inodes[j].vols[w]) {
      VolumeIds(s.pool, s.inodes[j].vols, w);
    }
  }

  // ---- Creation ----

  lemma CreateIsReady(s: Store, v: Version)
    requires BlocksInv(s) && ListsInv(s) && v !in s.versions
    ensures CreateReady(s, s.versions[CURRENT], v)
  {
    hide InodeOk, Ids, AllShaped, OrphansOk;
    var list := s.versions[CURRENT];
    assert ListOk(s, CURRENT);
    forall i | i in list
      ensures i in s.inodes && CURRENT in s.inodes[i].vols && v !in s.inodes[i].vols
      ensures DistinctIds(s.inodes[i].vols[CURRENT])
      ensures BlockIds(s.inodes[i].vols[CURRENT]) <= Ids(s.inodes[i].vols) <= s.pool.Keys
    {
      assert CountOk(s, i) && v !in Listing(s, i);
      VolumeIds(s.pool, s.inodes[i].vols, CURRENT);
    }
  }

  lemma AddVolumeIds(vols: Vols, v: Version)
    requires CURRENT in vols && v !in vols
    ensures Ids(AddVolume(vols, v)) == Ids(vols)
  {
    var vols2: Vols := AddVolume(vols, v);
    forall id | id in Ids(vols)
      ensures id in Ids(vols2)
    {
      var w, k: nat :| w in vols && k < |vols[w]| && vols[w][k].id == id;
      assert vols2[w][k].id == id;
    }
    forall id | id in Ids(vols2)
      ensures id in Ids(vols)
    {
      var w, k: nat :| w in vols2 && k < |vols2[w]| && vols2[w][k].id == id;
      assert vols[if w == v then CURRENT else w][k].id == id;
    }
  }

  /** Where an inode lists `id` at all, it lists it at its home index. */
  lemma AtHome(vols: Vols, w: Version, k: nat, u: Version)
    requires SameHome(vols) && w in vols && k < |vols[w]| && u in vols
    ensures vols[w][k].id in BlockIds(vols[u]) <==> k < |vols[u]| && vols[u][k].id == vols[w][k].id
    ensures vols[w][k].id in BlockIds(vols[u]) <==> u in Holders(vols, k, vols[w][k].id)
  {
    if vols[w][k].id in BlockIds(vols[u]) {
      var j: nat :| j < |vols[u]| && vols[u][j].id == vols[w][k].id;
      assert j == k;
    }
  }

  lemma SnappedHolders(vols: Vols, v: Version, w: Version, k: nat)
    requires CURRENT in vols && v !in vols && SameHome(vols)
    requires w in vols && k < |vols[w]|
    ensures var id := vols[w][k].id;
            |Holders(AddVolume(vols, v), k, id)| == |Holders(vols, k, id)| +
              if id in BlockIds(vols[CURRENT]) then 1 else 0
  {
    var id := vols[w][k].id;
    var vols2: Vols := AddVolume(vols, v);
    AtHome(vols, w, k, CURRENT);
    hide SameHome, BlockIds;
    var more: set<Version> := if CURRENT in Holders(vols, k, id) then {v} else {};
    assert Holders(vols2, k, id) == Holders(vols, k, id) + more;
  }

  /** The new volume shares the current blocks, each with one more link, all frozen from now on. */
  lemma SnappedOk(p: Pool, q: Pool, vols: Vols, v: Version)
    requires InodeOk(p, vols) && v !in vols && v != CURRENT
    requires forall id :: id in Ids(vols) ==> id in p && id in q && q[id] == Plus(p[id], id in BlockIds(vols[CURRENT]))
    ensures InodeOk(q, AddVolume(vols, v))
  {
    var vols2: Vols := AddVolume(vols, v);
    forall w, k: nat | w in vols2 && k < |vols2[w]|
      ensures EntryOk(q, vols2, w, k)
    {
      var w0 := if w == v then CURRENT else w;
      IdIn(vols, w0, k);
      assert vols[w0][k].id == vols2[w][k].id;
      assert EntryOk(p, vols, w0, k);
      SnappedHolders(vols, v, w0, k);
      if w0 == CURRENT { assert vols[CURRENT][k].id in BlockIds(vols[CURRENT]); }
      if w0 != CURRENT { assert vols2[w][k].frozen; }
    }
    SnappedHome(vols, v);
  }

  lemma SnappedHome(vols: Vols, v: Version)
    requires CURRENT in vols && v !in vols && SameHome(vols)
    ensures SameHome(AddVolume(vols, v))
  {
    var vols2: Vols := AddVolume(vols, v);
    forall a: Version, b: Version, k: nat, l: nat | a in vols2 && b in vols2 && k < |vols2[a]| && l < |vols2[b]|
      && vols2[a][k].id == vols2[b][l].id
      ensures k == l
    {
      var a0 := if a == v then CURRENT else a;
      var b0 := if b == v then CURRENT else b;
      assert vols[a0][k].id == vols2[a][k].id && vols[b0][l].id == vols2[b][l].id;
    }
  }

  /** What creation does to one inode. */
  lemma CreatedInode(s: Store, list: seq<nat>, v: Version, s2: Store, i: nat)
    requires BlocksInv(s) && CreateReady(s, list, v) && Created(s, list, v, s2) && i in s.inodes
    ensures i in s2.inodes && InodeOk(s2.pool, s2.inodes[i].vols)
    ensures Ids(s2.inodes[i].vols) == Ids(s.inodes[i].vols)
  {
    hide Ids, SameHome, AllShaped, OrphansOk, Shaped;
    var vols := s.inodes[i].vols;
    assert InodeOk(s.pool, vols);
    IdsInPool(s.pool, vols);
    forall id | id in Ids(vols)
      ensures id in s.pool && s2.pool[id] == Plus(s.pool[id], i in list && id in BlockIds(vols[CURRENT]))
    {
      InListOwn(s, list, CURRENT, i, id);
    }
    if i in list {
      SnappedOk(s.pool, s2.pool, vols, v);
      AddVolumeIds(vols, v);
    } else {
      InodeOkFrame(s.pool, s2.pool, vols);
    }
  }

  lemma CreatedChunks(s: Store, list: seq<nat>, v: Version, s2: Store, blocks: seq<BlockRef>)
    requires Created(s, list, v, s2)
    ensures ChunksOf(s2.pool, blocks) == ChunksOf(s.pool, blocks)
    ensures ChunksOf(s2.pool, Freeze(blocks)) == ChunksOf(s.pool, blocks)
  {
    forall id
      ensures DataAt(s2.pool, id) == DataAt(s.pool, id)
    {
    }
  }

  /** No byte changes: the new volume of a listed inode shows what the current one shows. */
  lemma CreatedNodes(s: Store, list: seq<nat>, v: Version, s2: Store, i: nat, w: Version)
    requires BlocksInv(s) && CreateReady(s, list, v) && Created(s, list, v, s2)
    requires i in s.inodes && (w != v || i in list)
    ensures NodeAt(s2, i, w) == NodeAt(s, i, if w == v then CURRENT else w)
  {
    hide BlocksInv, Flatten;
    var vols := s.inodes[i].vols;
    if CURRENT in vols { CreatedChunks(s, list, v, s2, vols[CURRENT]); }
    if w in vols { CreatedChunks(s, list, v, s2, vols[w]); }
  }

  lemma CreatedShaped(s: Store, list: seq<nat>, v: Version, s2: Store, i: nat, w: Version)
    requires BlocksInv(s) && CreateReady(s, list, v) && Created(s, list, v, s2)
    requires i in s.inodes && w in s2.inodes[i].vols
    ensures Shaped(s.bs, ChunksOf(s2.pool, s2.inodes[i].vols[w]))
  {
    hide InodesOk, NoSharing, OrphansOk, Shaped;
    var vols := s.inodes[i].vols;
    var w0 := if w == v && i in list then CURRENT else w;
    assert w0 in vols && Shaped(s.bs, ChunksOf(s.pool, vols[w0]));
    CreatedChunks(s, list, v, s2, vols[w0]);
  }

  lemma CreatedBlocksInv(s: Store, list: seq<nat>, v: Version, s2: Store)
    requires BlocksInv(s) && CreateReady(s, list, v) && Created(s, list, v, s2)
    ensures BlocksInv(s2)
  {
    hide InodeOk, Ids, Shaped;
    forall i | i in s.inodes
      ensures i in s2.inodes && InodeOk(s2.pool, s2.inodes[i].vols)
      ensures Ids(s2.inodes[i].vols) == Ids(s.inodes[i].vols)
      ensures forall w :: w in s2.inodes[i].vols ==> Shaped(s.bs, ChunksOf(s2.pool, s2.inodes[i].vols[w]))
    {
      CreatedInode(s, list, v, s2, i);
      forall w | w in s2.inodes[i].vols
        ensures Shaped(s.bs, ChunksOf(s2.pool, s2.inodes[i].vols[w]))
      {
        CreatedShaped(s, list, v, s2, i, w);
      }
    }
    forall id | id in s2.pool && !Owned(s2, id)
      ensures Leaked(s2.pool[id])
    {
      assert !Owned(s, id);
      InListOwned(s, list, CURRENT, id);
    }
  }

  lemma CreatedCount(s: Store, v: Version, s1: Store, i: nat)
    requires ListsInv(s) && v !in s.versions && i in s.inodes
    requires Created(s, s.versions[CURRENT], v, s1)
    ensures CountOk(s1.(versions := s1.versions[v := s.versions[CURRENT]]), i)
  {
    hide ListsOk, InList, Plus, Distinct;
    CreatedListing(s, v, s1, i);
    assert CountOk(s, i);
    hide Listing;
  }

  lemma CreatedListing(s: Store, v: Version, s1: Store, i: nat)
    requires CURRENT in s.versions && v !in s.versions && s1.versions == s.versions
    ensures v !in Listing(s, i)
    ensures Listing(s1.(versions := s1.versions[v := s.versions[CURRENT]]), i) ==
            Listing(s, i) + if i in s.versions[CURRENT] then {v} else {}
  {
  }

  lemma CreatedListsInv(s: Store, v: Version, s1: Store)
    requires ListsInv(s) && v !in s.versions
    requires Created(s, s.versions[CURRENT], v, s1)
    ensures ListsInv(s1.(versions := s1.versions[v := s.versions[CURRENT]]))
  {
    hide CountOk, InList, Plus, Distinct, AddVolume;
    var list := s.versions[CURRENT];
    var s2 := s1.(versions := s1.versions[v := list]);
    forall i | i in s.inodes
      ensures CountOk(s2, i)
    {
      CreatedCount(s, v, s1, i);
    }
    forall w | w in s2.versions
      ensures ListOk(s2, w)
    {
      assert ListOk(s, if w == v then CURRENT else w);
    }
  }

  /**
    * create_snapshot_volume: fails exactly on a known name; otherwise the new version shows what the current one
    * shows.
    */
  lemma CreateSnapshotRefines(s: Store, v: Version)
    requires BlocksInv(s) && ListsInv(s)
    ensures v in s.versions ==> CreateSnapshot(s, v) == Err(DoubleSnapshot)
    ensures v !in s.versions ==>
              var r := CreateSnapshot(s, v);
              && r.Ok? && BlocksInv(r.value) && ListsInv(r.value)
              && r.value.versions.Keys == s.versions.Keys + {v}
              && r.value.bs == s.bs && r.value.inodes.Keys == s.inodes.Keys
              && View(r.value, v) == View(s, CURRENT)
              && forall w :: w in s.versions ==> View(r.value, w) == View(s, w)
  {
    hide BlocksInv, ListsInv, CreateAll, CreateReady, View;
    if v !in s.versions {
      var list := s.versions[CURRENT];
      CreateIsReady(s, v);
      CreateAllIs(s, list, v);
      var s1 := CreateAll(s, list, v).value;
      CreatedBlocksInv(s, list, v, s1);
      CreatedListsInv(s, v, s1);
      var s2 := CreateSnapshot(s, v).value;
      VersionsIrrelevant(s1, s2);
      CreatedViews(s, v, s1, s2);
    }
  }

  lemma ListedInodes(s: Store, v: Version, i: nat)
    requires ListsInv(s) && v in s.versions && i in s.versions[v]
    ensures i in s.inodes
  {
    assert ListOk(s, v);
  }

  lemma CreatedViews(s: Store, v: Version, s1: Store, s2: Store)
    requires BlocksInv(s) && ListsInv(s) && v !in s.versions
    requires CreateReady(s, s.versions[CURRENT], v) && Created(s, s.versions[CURRENT], v, s1)
    requires s2 == s1.(versions := s.versions[v := s.versions[CURRENT]])
    ensures View(s2, v) == View(s, CURRENT)
    ensures forall w :: w in s.versions ==> View(s2, w) == View(s, w)
  {
    hide BlocksInv, Created, CreateReady, NodeAt, ListsInv;
    var list := s.versions[CURRENT];
    VersionsIrrelevant(s1, s2);
    forall i | i in list
      ensures NodeAt(s2, i, v) == NodeAt(s, i, CURRENT)
    {
      ListedInodes(s, CURRENT, i);
      CreatedNodes(s, list, v, s1, i, v);
    }
    forall w | w in s.versions
      ensures View(s2, w) == View(s, w)
    {
      forall i | i in s.versions[w]
        ensures NodeAt(s2, i, w) == NodeAt(s, i, w)
      {
        ListedInodes(s, w, i);
        CreatedNodes(s, list, v, s1, i, w);
      }
    }
  }

  lemma VersionsIrrelevant(s: Store, s2: Store)
    requires s2 == s.(versions := s2.versions)
    ensures BlocksInv(s) ==> BlocksInv(s2)
    ensures forall i, v :: NodeAt(s2, i, v) == NodeAt(s, i, v)
  {
    hide InodeOk, Ids, Shaped;
    forall id
      ensures Owned(s2, id) <==> Owned(s, id)
    {
    }
  }

  // ---- Deletion ----

  lemma DeleteIsReady(s: Store, v: Version)
    requires BlocksInv(s) && ListsInv(s) && v in s.versions && v != CURRENT
    ensures DeleteReady(s, s.versions[v], v)
  {
    hide InodeOk, Ids, AllShaped, OrphansOk;
    var list := s.versions[v];
    assert ListOk(s, v);
    forall i | i in list
      ensures i in s.inodes && CURRENT in s.inodes[i].vols && v in s.inodes[i].vols && s.inodes[i].links > 0
      ensures DistinctIds(s.inodes[i].vols[v]) && DistinctIds(s.inodes[i].vols[CURRENT])
      ensures DeletedIds(s, i, v) <= Ids(s.inodes[i].vols)
      ensures forall id :: id in BlockIds(s.inodes[i].vols[v]) ==> id in s.pool && s.pool[id].links > 0
    {
      assert CountOk(s, i) && v in Listing(s, i);
      VolumeIds(s.pool, s.inodes[i].vols, CURRENT);
      VolumeIds(s.pool, s.inodes[i].vols, v);
    }
  }

  lemma InErasedOwn(s: Store, list: seq<nat>, i: nat, id: nat)
    requires InodesOk(s) && NoSharing(s)
    requires i in s.inodes && id in Ids(s.inodes[i].vols)
    ensures InErased(s, list, id) <==> i in list && s.inodes[i].links == 1 && id in BlockIds(CurBlocks(s, i))
  {
    if j :| j in list && j in s.inodes && s.inodes[j].links == 1 && id in BlockIds(CurBlocks(s, j)) {
      VolumeIds(s.pool, s.inodes[j].vols, CURRENT);
      assert j == i || Ids(s.inodes[j].vols) !! Ids(s.inodes[i].vols);
    }
  }

  lemma InErasedOwned(s: Store, list: seq<nat>, id: nat)
    requires InodesOk(s)
    ensures InErased(s, list, id) ==> Owned(s, id)
  {
    if j :| j in list && j in s.inodes && s.inodes[j].links == 1 && id in BlockIds(CurBlocks(s, j)) {
      VolumeIds(s.pool, s.inodes[j].vols, CURRENT);
    }
  }

  lemma UnsnappedHolders(vols: Vols, v: Version, w: Version, k: nat)
    requires SameHome(vols) && v in vols && w in vols && k < |vols[w]|
    ensures var id := vols[w][k].id;
            |Holders(vols - {v}, k, id)| == |Holders(vols, k, id)| - if id in BlockIds(vols[v]) then 1 else 0
  {
    var id := vols[w][k].id;
    AtHome(vols, w, k, v);
    hide SameHome, BlockIds;
    var less: set<Version> := if v in Holders(vols, k, id) then {v} else {};
    assert Holders(vols - {v}, k, id) == Holders(vols, k, id) - less;
  }

  /** Dropping a volume takes one link from each of its blocks and leaves the other volumes consistent. */
  lemma UnsnappedOk(p: Pool, q: Pool, vols: Vols, v: Version)
    requires InodeOk(p, vols) && v in vols && v != CURRENT
    requires forall id :: id in Ids(vols) ==> DeletedEntry(p, q, id, id in BlockIds(vols[v]), false)
    ensures InodeOk(q, vols - {v})
  {
    var vols2: Vols := vols - {v};
    forall w, k: nat | w in vols2 && k < |vols2[w]|
      ensures EntryOk(q, vols2, w, k)
    {
      var id := vols[w][k].id;
      IdIn(vols, w, k);
      assert EntryOk(p, vols, w, k);
      UnsnappedHolders(vols, v, w, k);
      AtHome(vols, w, k, v);
      assert w in Holders(vols2, k, id);
      if !vols[w][k].frozen {
        UnfrozenIsPrivate(p, vols, k);
      }
    }
    assert SameHome(vols2);
  }

  /** What deletion does to an inode that stays. */
  lemma DeletedInode(s: Store, list: seq<nat>, v: Version, s2: Store, i: nat)
    requires BlocksInv(s) && DeleteReady(s, list, v) && Deleted(s, list, v, s2) && i in s2.inodes
    ensures i in s.inodes && InodeOk(s2.pool, s2.inodes[i].vols)
    ensures Ids(s2.inodes[i].vols) <= Ids(s.inodes[i].vols)
  {
    hide Ids, SameHome, AllShaped, OrphansOk, DeletedEntry, BlockIds;
    assert i in s.inodes;
    var vols := s.inodes[i].vols;
    assert InodeOk(s.pool, vols);
    IdsInPool(s.pool, vols);
    forall id | id in Ids(vols)
      ensures DeletedEntry(s.pool, s2.pool, id, i in list && id in BlockIds(vols[v]), false)
    {
      InListOwn(s, list, v, i, id);
      InErasedOwn(s, list, i, id);
      assert DeletedEntry(s.pool, s2.pool, id, InList(s, list, v, id), InErased(s, list, id));
    }
    if i in list {
      UnsnappedOk(s.pool, s2.pool, vols, v);
      FewerIds(vols, v);
    } else {
      UntouchedOk(s.pool, s2.pool, vols);
    }
  }

  lemma FewerIds(vols: Vols, v: Version)
    ensures Ids(vols - {v}) <= Ids(vols)
  {
  }

  lemma UntouchedOk(p: Pool, q: Pool, vols: Vols)
    requires InodeOk(p, vols)
    requires forall id :: id in Ids(vols) ==> DeletedEntry(p, q, id, false, false)
    ensures InodeOk(q, vols)
  {
    hide InodeOk, Ids;
    IdsInPool(p, vols);
    InodeOkFrame(p, q, vols);
  }

  lemma DeletedVolume(s: Store, list: seq<nat>, v: Version, s2: Store, i: nat, w: Version)
    requires DeletedInodes(s, list, v, s2)
    requires i in s2.inodes && w in s2.inodes[i].vols
    ensures i in s.inodes && w in s.inodes[i].vols && s2.inodes[i].vols[w] == s.inodes[i].vols[w]
  {
  }

  lemma DeletedData(s: Store, list: seq<nat>, v: Version, s2: Store, id: nat)
    requires DeletedPool(s, list, v, s2) && id in s2.pool
    ensures DataAt(s2.pool, id) == DataAt(s.pool, id)
  {
    assert DeletedEntry(s.pool, s2.pool, id, InList(s, list, v, id), InErased(s, list, id));
  }

  /** No byte of a remaining volume changes. */
  lemma DeletedChunks(s: Store, list: seq<nat>, v: Version, s2: Store, i: nat, w: Version)
    requires BlocksInv(s) && DeleteReady(s, list, v) && Deleted(s, list, v, s2)
    requires i in s2.inodes && w in s2.inodes[i].vols
    ensures i in s.inodes && w in s.inodes[i].vols && s2.inodes[i].vols[w] == s.inodes[i].vols[w]
    ensures ChunksOf(s2.pool, s2.inodes[i].vols[w]) == ChunksOf(s.pool, s.inodes[i].vols[w])
  {
    hide BlocksInv, InodeOk, DeleteReady, Ids, DeletedPool, DeletedInodes, DataAt;
    DeletedVolume(s, list, v, s2, i, w);
    DeletedInode(s, list, v, s2, i);
    var blocks := s2.inodes[i].vols[w];
    VolumeIds(s2.pool, s2.inodes[i].vols, w);
    forall k: nat | k < |blocks|
      ensures DataAt(s2.pool, blocks[k].id) == DataAt(s.pool, blocks[k].id)
    {
      assert blocks[k].id in BlockIds(blocks);
      DeletedData(s, list, v, s2, blocks[k].id);
    }
  }

  /** An erased inode had nothing but its current volume and the deleted one. */
  lemma ErasedVolumes(s: Store, v: Version, i: nat)
    requires ListsInv(s) && v in s.versions && v != CURRENT && i in s.versions[v]
    requires i in s.inodes && s.inodes[i].links == 1
    ensures s.inodes[i].vols.Keys == {CURRENT, v}
  {
    assert CountOk(s, i);
    var l := Listing(s, i);
    assert v in l;
    assert |l - {v}| == 0;
    forall w | w in s.inodes[i].vols
      ensures w in {CURRENT, v}
    {
      assert w in l ==> w == v || w in l - {v};
    }
  }

  lemma TwoHolders(vols: Vols, v: Version, k: nat, id: nat)
    requires vols.Keys == {CURRENT, v} && v != CURRENT
    ensures |Holders(vols, k, id)| == (if v in Holders(vols, k, id) then 1 else 0) +
            (if CURRENT in Holders(vols, k, id) then 1 else 0)
  {
    var h := Holders(vols, k, id);
    assert h <= {CURRENT, v};
    assert h == (if v in h then {v} else {}) + (if CURRENT in h then {CURRENT} else {});
  }

  lemma OnlyHolder(vols: Vols, v: Version, w: Version, k: nat)
    requires SameHome(vols) && v in vols && w in vols && k < |vols[w]|
    requires vols[w][k].id !in Ids(vols - {v})
    ensures Holders(vols, k, vols[w][k].id) == {v} && vols[w][k].id in BlockIds(vols[v])
  {
    var id := vols[w][k].id;
    forall u | u in Holders(vols, k, id)
      ensures u == v
    {
      if u != v { IdIn(vols - {v}, u, k); }
    }
    assert w in Holders(vols, k, id);
    assert vols[v][k].id == id;
  }

  lemma OrphanOfStaying(p: Pool, q: Pool, vols: Vols, v: Version, id: nat)
    requires InodeOk(p, vols) && v in vols && id in Ids(vols) && id !in Ids(vols - {v}) && id in q
    requires DeletedEntry(p, q, id, id in BlockIds(vols[v]), false)
    ensures Leaked(q[id])
  {
    var w, k: nat :| w in vols && k < |vols[w]| && vols[w][k].id == id;
    assert EntryOk(p, vols, w, k);
    OnlyHolder(vols, v, w, k);
  }

  lemma OrphanOfErased(p: Pool, q: Pool, vols: Vols, v: Version, id: nat)
    requires InodeOk(p, vols) && vols.Keys == {CURRENT, v} && v != CURRENT && id in Ids(vols) && id in q
    requires DeletedEntry(p, q, id, id in BlockIds(vols[v]), id in BlockIds(vols[CURRENT]))
    ensures Leaked(q[id])
  {
    var w, k: nat :| w in vols && k < |vols[w]| && vols[w][k].id == id;
    assert EntryOk(p, vols, w, k);
    AtHome(vols, w, k, v);
    AtHome(vols, w, k, CURRENT);
    TwoHolders(vols, v, k, id);
  }

  /** A block that loses its last reference keeps exactly its lost links. */
  lemma DeletedOrphan(s: Store, v: Version, s2: Store, i: nat, id: nat)
    requires BlocksInv(s) && ListsInv(s) && v in s.versions && v != CURRENT
    requires DeleteReady(s, s.versions[v], v) && Deleted(s, s.versions[v], v, s2)
    requires i in s.inodes && id in Ids(s.inodes[i].vols)
    requires id in s2.pool && (i in s2.inodes ==> id !in Ids(s2.inodes[i].vols))
    ensures Leaked(s2.pool[id])
  {
    hide InodeOk, Ids, BlockIds, InList, InErased, DeletedEntry, DeletedPool, ListsInv, BlocksInv, InodesOk, NoSharing,
         DistinctIds, DeletedIds;
    var list := s.versions[v];
    var vols := s.inodes[i].vols;
    InodeOkOf(s, i);
    BlockParts(s);
    InListOwn(s, list, v, i, id);
    InErasedOwn(s, list, i, id);
    DeletedAt(s, list, v, s2, id);
    if i in s2.inodes {
      OrphanOfStaying(s.pool, s2.pool, vols, v, id);
    } else {
      ErasedVolumes(s, v, i);
      OrphanOfErased(s.pool, s2.pool, vols, v, id);
    }
  }

  lemma BlockParts(s: Store)
    requires BlocksInv(s)
    ensures InodesOk(s) && NoSharing(s)
  {
    hide InodesOk, AllShaped, NoSharing, OrphansOk;
  }

  lemma DeletedAt(s: Store, list: seq<nat>, v: Version, s2: Store, id: nat)
    requires Deleted(s, list, v, s2)
    ensures DeletedEntry(s.pool, s2.pool, id, InList(s, list, v, id), InErased(s, list, id))
  {
    hide DeletedInodes, DeletedEntry, InList, InErased;
  }

  lemma DeletedBlocksInv(s: Store, v: Version, s2: Store)
    requires BlocksInv(s) && ListsInv(s) && v in s.versions && v != CURRENT
    requires DeleteReady(s, s.versions[v], v) && Deleted(s, s.versions[v], v, s2)
    ensures BlocksInv(s2)
  {
    hide InodeOk, Ids, Shaped, DeleteReady, DeletedEntry, ListsInv;
    var list := s.versions[v];
    forall i | i in s2.inodes
      ensures i in s.inodes && InodeOk(s2.pool, s2.inodes[i].vols)
      ensures Ids(s2.inodes[i].vols) <= Ids(s.inodes[i].vols)
      ensures forall w :: w in s2.inodes[i].vols ==> Shaped(s.bs, ChunksOf(s2.pool, s2.inodes[i].vols[w]))
    {
      DeletedInode(s, list, v, s2, i);
      forall w | w in s2.inodes[i].vols
        ensures Shaped(s.bs, ChunksOf(s2.pool, s2.inodes[i].vols[w]))
      {
        DeletedChunks(s, list, v, s2, i, w);
      }
    }
    forall id | id in s2.pool && !Owned(s2, id)
      ensures Leaked(s2.pool[id])
    {
      DeletedUnowned(s, v, s2, id);
    }
  }

  lemma DeletedUnowned(s: Store, v: Version, s2: Store, id: nat)
    requires BlocksInv(s) && ListsInv(s) && v in s.versions && v != CURRENT
    requires DeleteReady(s, s.versions[v], v) && Deleted(s, s.versions[v], v, s2)
    requires id in s2.pool && !Owned(s2, id)
    ensures Leaked(s2.pool[id])
  {
    hide InodeOk, Ids, Shaped, DeleteReady, ListsInv;
    var list := s.versions[v];
    if i :| i in s.inodes && id in Ids(s.inodes[i].vols) {
      DeletedOrphan(s, v, s2, i, id);
    } else {
      InListOwned(s, list, v, id);
      InErasedOwned(s, list, id);
      assert DeletedEntry(s.pool, s2.pool, id, InList(s, list, v, id), InErased(s, list, id));
      assert !Owned(s, id);
    }
  }

  lemma DeletedCount(s: Store, v: Version, s1: Store, i: nat)
    requires ListsInv(s) && v in s.versions && v != CURRENT && i in s1.inodes
    requires DeletedInodes(s, s.versions[v], v, s1) && s1.versions == s.versions
    ensures CountOk(s1.(versions := s1.versions - {v}), i)
  {
    hide ListsOk;
    var list := s.versions[v];
    var s2 := s1.(versions := s1.versions - {v});
    assert CountOk(s, i);
    assert v in Listing(s, i) <==> i in list;
    assert Listing(s2, i) == Listing(s, i) - {v};
  }

  lemma DeletedListsInv(s: Store, v: Version, s1: Store)
    requires ListsInv(s) && v in s.versions && v != CURRENT
    requires Deleted(s, s.versions[v], v, s1)
    ensures ListsInv(s1.(versions := s1.versions - {v}))
  {
    hide CountOk, InList, Distinct, DeletedPool;
    var s2 := s1.(versions := s1.versions - {v});
    forall i | i in s1.inodes
      ensures CountOk(s2, i)
    {
      DeletedCount(s, v, s1, i);
    }
    forall w | w in s2.versions
      ensures ListOk(s2, w)
    {
      assert ListOk(s, w);
      forall i | i in s.versions[w]
        ensures i in s1.inodes
      {
        StillListed(s, v, w, i);
      }
    }
  }

  lemma StillListed(s: Store, v: Version, w: Version, i: nat)
    requires ListsInv(s) && v in s.versions && w in s.versions && v != w
    requires i in s.versions[w]
    ensures i in s.inodes && (i in s.versions[v] ==> s.inodes[i].links > 1)
  {
    assert ListOk(s, w);
    assert CountOk(s, i);
    if i in s.versions[v] {
      assert {v, w} <= Listing(s, i);
      assert |Listing(s, i) - {v}| == |Listing(s, i)| - 1;
      assert w in Listing(s, i) - {v};
    }
  }

  lemma DeletedViews(s: Store, v: Version, s1: Store, s2: Store)
    requires BlocksInv(s) && ListsInv(s) && v in s.versions && v != CURRENT
    requires DeleteReady(s, s.versions[v], v) && Deleted(s, s.versions[v], v, s1)
    requires s2 == s1.(versions := s.versions - {v})
    ensures forall w :: w in s2.versions ==> View(s2, w) == View(s, w)
  {
    hide BlocksInv, DeleteReady, ListsInv, DeletedPool, Flatten;
    VersionsIrrelevant(s1, s2);
    forall w | w in s2.versions
      ensures View(s2, w) == View(s, w)
    {
      forall i | i in s.versions[w]
        ensures NodeAt(s2, i, w) == NodeAt(s, i, w)
      {
        StillListed(s, v, w, i);
        if w in s1.inodes[i].vols { DeletedChunks(s, s.versions[v], v, s1, i, w); }
      }
    }
  }

  /**
    * delete_snapshot_volume: fails exactly on an unknown name and on the current version, never half way; otherwise
    * every other version shows what it did, and the inodes that only this version listed are gone.
    */
  lemma DeleteSnapshotRefines(s: Store, v: Version)
    requires BlocksInv(s) && ListsInv(s)
    ensures v !in s.versions || v == CURRENT ==> DeleteSnapshot(s, v) == Err(NoSuchSnapshot)
    ensures v in s.versions && v != CURRENT ==>
              var r := DeleteSnapshot(s, v);
              && r.Ok? && BlocksInv(r.value) && ListsInv(r.value)
              && r.value.versions.Keys == s.versions.Keys - {v}
              && r.value.bs == s.bs
              && (forall i :: i in r.value.inodes <==> i in s.inodes && Listing(s, i) != {v})
              && forall w :: w in r.value.versions ==> View(r.value, w) == View(s, w)
  {
    hide BlocksInv, DeleteReady, View;
    if v in s.versions && v == CURRENT {
      assert ListOk(s, CURRENT);
      assert ROOT in s.versions[v];
      assert s.versions[v] != [];
    } else if v in s.versions {
      hide ListsInv, DeletedPool, DeleteAll;
      DeleteIsReady(s, v);
      DeleteAllIs(s, s.versions[v], v);
      var s1 := DeleteAll(s, s.versions[v], v).value;
      DeletedBlocksInv(s, v, s1);
      DeletedListsInv(s, v, s1);
      var s2 := DeleteSnapshot(s, v).value;
      VersionsIrrelevant(s1, s2);
      DeletedViews(s, v, s1, s2);
      forall i | i in s.inodes
        ensures i in s.versions[v] && s.inodes[i].links == 1 <==> Listing(s, i) == {v}
      {
        OnlyListing(s, v, i);
      }
    }
  }

  lemma OnlyListing(s: Store, v: Version, i: nat)
    requires ListsInv(s) && i in s.inodes && v in s.versions
    ensures i in s.versions[v] && s.inodes[i].links == 1 <==> Listing(s, i) == {v}
  {
    assert CountOk(s, i);
    var l := Listing(s, i);
    if v in l && |l| == 1 {
      assert |l - {v}| == 0;
      assert l == {v} + (l - {v});
    }
  }
}
