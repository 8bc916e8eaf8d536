// Creating and deleting snapshot volumes, and the reference counts they move.
module Snapshots {
  import opened ByteStrings
  import opened Blocks
  import opened Inodes
  import opened Stores

  // ---- The operations, link by link as the source does them ----

  function LinkAll(pool: Pool, blocks: seq<BlockRef>): Result<Pool> {
    if blocks == [] then Ok(pool)
    else if blocks[0].id !in pool then Err(BufferNotFound)
    else LinkAll(Link(pool, blocks[0].id), blocks[1..])
  }

  function UnlinkAll(pool: Pool, blocks: seq<BlockRef>): Result<Pool> {
    if blocks == [] then Ok(pool)
    else if blocks[0].id !in pool then Err(BufferNotFound)
    else UnlinkAll(Unlink(pool, blocks[0].id), blocks[1..])
  }

  /** The references of an erased inode go away without an unlink. */
  function LoseAll(pool: Pool, blocks: seq<BlockRef>): Pool {
    if blocks == [] then pool else LoseAll(Lose(pool, blocks[0].id), blocks[1..])
  }

  function Freeze(blocks: seq<BlockRef>): (r: seq<BlockRef>)
    ensures |r| == |blocks|
    ensures forall k :: 0 <= k < |r| ==> r[k] == BlockRef(blocks[k].id, true)
  {
    seq(|blocks|, k requires 0 <= k < |blocks| => BlockRef(blocks[k].id, true))
  }

  function CurBlocks(s: Store, i: nat): seq<BlockRef> {
    if i in s.inodes && CURRENT in s.inodes[i].vols then s.inodes[i].vols[CURRENT] else []
  }

  function AddVolume(vols: Vols, v: Version): Vols
    requires CURRENT in vols
  {
    vols[CURRENT := Freeze(vols[CURRENT])][v := Freeze(vols[CURRENT])]
  }

  /** link_inode and create_new_volume of one inode. */
  function CreateOne(s: Store, i: nat, v: Version): Result<Store> {
    if i !in s.inodes then Err(InodeNotFound)
    else if v in s.inodes[i].vols then Err(DoubleSnapshot)
    else if CURRENT !in s.inodes[i].vols then Err(NoSuchSnapshot)
    else
      match LinkAll(s.pool, CurBlocks(s, i))
      case Err(e) => Err(e)
      case Ok(pool) =>
        var pack := s.inodes[i];
        Ok(s.(pool := pool,
              inodes := s.inodes[i := pack.(links := pack.links + 1, vols := AddVolume(pack.vols, v))]))
  }

  function CreateAll(s: Store, list: seq<nat>, v: Version): Result<Store>
    decreases |list|
  {
    if list == [] then Ok(s)
    else
      match CreateOne(s, list[0], v)
      case Err(e) => Err(e)
      case Ok(s1) => CreateAll(s1, list[1..], v)
  }

  function CreateSnapshot(s: Store, v: Version): Result<Store>
    requires CURRENT in s.versions
  {
    if v in s.versions then Err(DoubleSnapshot)
    else
      match CreateAll(s, s.versions[CURRENT], v)
      case Err(e) => Err(e)
      case Ok(s1) => Ok(s1.(versions := s1.versions[v := s.versions[CURRENT]]))
  }

  /** delete_volume and unlink_inode of one inode. */
  function DeleteOne(s: Store, i: nat, v: Version): Result<Store> {
    if i !in s.inodes then Err(InodeNotFound)
    else if v == CURRENT || v !in s.inodes[i].vols then Err(NoSuchSnapshot)
    else
      match UnlinkAll(s.pool, s.inodes[i].vols[v])
      case Err(e) => Err(e)
      case Ok(pool) =>
        var pack := s.inodes[i];
        if pack.links == 1 then
          Ok(s.(pool := LoseAll(pool, CurBlocks(s, i)), inodes := s.inodes - {i}))
        else
          Ok(s.(pool := pool,
                inodes := s.inodes[i := pack.(links := if pack.links == 0 then MAX_COUNT else pack.links - 1,
                                              vols := pack.vols - {v})]))
  }

  function DeleteAll(s: Store, list: seq<nat>, v: Version): Result<Store>
    decreases |list|
  {
    if list == [] then Ok(s)
    else
      match DeleteOne(s, list[0], v)
      case Err(e) => Err(e)
      case Ok(s1) => DeleteAll(s1, list[1..], v)
  }

  function DeleteSnapshot(s: Store, v: Version): Result<Store> {
    if v !in s.versions then Err(NoSuchSnapshot)
    else
      match DeleteAll(s, s.versions[v], v)
      case Err(e) => Err(e)
      case Ok(s1) => Ok(s1.(versions := s1.versions - {v}))
  }

  // ---- What the loops over blocks add up to ----

  function BlockIds(blocks: seq<BlockRef>): set<nat> {
    set k | 0 <= k < |blocks| :: blocks[k].id
  }

  ghost predicate DistinctIds(blocks: seq<BlockRef>) {
    forall a, b :: 0 <= a < b < |blocks| ==> blocks[a].id != blocks[b].id
  }

  function Plus(pack: Pack, linked: bool): Pack {
    if linked then pack.(links := pack.links + 1) else pack
  }

  lemma IdsTail(blocks: seq<BlockRef>)
    requires blocks != []
    ensures BlockIds(blocks) == {blocks[0].id} + BlockIds(blocks[1..])
    ensures DistinctIds(blocks) ==> blocks[0].id !in BlockIds(blocks[1..]) && DistinctIds(blocks[1..])
  {
    forall id | id in BlockIds(blocks)
      ensures id in {blocks[0].id} + BlockIds(blocks[1..])
    {
      var k :| 0 <= k < |blocks| && blocks[k].id == id;
      if k > 0 { assert blocks[1..][k - 1].id == id; }
    }
    forall id | id in BlockIds(blocks[1..])
      ensures id in BlockIds(blocks)
    {
      var k :| 0 <= k < |blocks| - 1 && blocks[1..][k].id == id;
      assert blocks[k + 1].id == id;
    }
  }

  lemma {:induction false} LinkAllIs(pool: Pool, blocks: seq<BlockRef>)
    requires DistinctIds(blocks) && BlockIds(blocks) <= pool.Keys
    ensures var r := LinkAll(pool, blocks);
            && r.Ok? && r.value.Keys == pool.Keys
            && forall id :: id in pool ==> r.value[id] == Plus(pool[id], id in BlockIds(blocks))
  {
    if blocks != [] {
      IdsTail(blocks);
      LinkAllIs(Link(pool, blocks[0].id), blocks[1..]);
    }
  }

  lemma {:induction false} LoseAllIs(pool: Pool, blocks: seq<BlockRef>)
    requires DistinctIds(blocks)
    ensures var r := LoseAll(pool, blocks);
            && r.Keys == pool.Keys
            && forall id :: id in pool ==>
                 r[id] == pool[id].(lost := pool[id].lost + if id in BlockIds(blocks) then 1 else 0)
  {
    if blocks != [] {
      IdsTail(blocks);
      LoseAllIs(Lose(pool, blocks[0].id), blocks[1..]);
    }
  }

  lemma {:induction false} UnlinkAllIs(pool: Pool, blocks: seq<BlockRef>)
    requires DistinctIds(blocks) && BlockIds(blocks) <= pool.Keys
    requires forall id :: id in BlockIds(blocks) ==> pool[id].links > 0
    ensures var r := UnlinkAll(pool, blocks);
            && r.Ok?
            && (forall id :: id in r.value <==> id in pool && !(id in BlockIds(blocks) && pool[id].links == 1))
            && forall id :: id in r.value ==>
                 r.value[id] == if id in BlockIds(blocks) then pool[id].(links := pool[id].links - 1) else pool[id]
  {
    if blocks != [] {
      IdsTail(blocks);
      UnlinkAllIs(Unlink(pool, blocks[0].id), blocks[1..]);
    }
  }

  // ---- What the loops over inodes add up to ----

  /** Blocks of the version `w` of the listed inodes. */
  ghost predicate InList(s: Store, list: seq<nat>, w: Version, id: nat) {
    exists i :: i in list && i in s.inodes && w in s.inodes[i].vols && id in BlockIds(s.inodes[i].vols[w])
  }

  ghost predicate CreateReady(s: Store, list: seq<nat>, v: Version) {
    && Distinct(list)
    && v != CURRENT
    && (forall i :: i in list ==>
          && i in s.inodes && CURRENT in s.inodes[i].vols && v !in s.inodes[i].vols
          && DistinctIds(s.inodes[i].vols[CURRENT])
          && BlockIds(s.inodes[i].vols[CURRENT]) <= s.pool.Keys)
    && (forall i, j :: i in list && j in list && i != j ==>
          BlockIds(s.inodes[i].vols[CURRENT]) !! BlockIds(s.inodes[j].vols[CURRENT]))
  }

  function Snapped(pack: InodePack, v: Version): InodePack
    requires CURRENT in pack.vols
  {
    pack.(links := pack.links + 1, vols := AddVolume(pack.vols, v))
  }

  /** The store after the creation loop. */
  ghost predicate Created(s: Store, list: seq<nat>, v: Version, s2: Store) {
    && s2.bs == s.bs && s2.versions == s.versions
    && s2.pool.Keys == s.pool.Keys
    && (forall id :: id in s.pool ==> s2.pool[id] == Plus(s.pool[id], InList(s, list, CURRENT, id)))
    && s2.inodes.Keys == s.inodes.Keys
    && (forall i :: i in s.inodes && i !in list ==> s2.inodes[i] == s.inodes[i])
    && (forall i :: i in s.inodes && i in list ==>
          CURRENT in s.inodes[i].vols && s2.inodes[i] == Snapped(s.inodes[i], v))
  }

  lemma CreateOneIs(s: Store, list: seq<nat>, v: Version)
    requires CreateReady(s, list, v) && list != []
    ensures var r := CreateOne(s, list[0], v);
            && r.Ok?
            && Created(s, [list[0]], v, r.value)
            && CreateReady(r.value, list[1..], v)
  {
    var i := list[0];
    LinkAllIs(s.pool, CurBlocks(s, i));
    var s1 := CreateOne(s, i, v).value;
    forall j | j in list[1..]
      ensures s1.inodes[j] == s.inodes[j]
    {
    }
  }

  lemma {:induction false} CreateAllIs(s: Store, list: seq<nat>, v: Version)
    requires CreateReady(s, list, v)
    ensures var r := CreateAll(s, list, v); r.Ok? && Created(s, list, v, r.value)
    decreases |list|
  {
    if list != [] {
      CreateOneIs(s, list, v);
      var s1 := CreateOne(s, list[0], v).value;
      CreateAllIs(s1, list[1..], v);
      var s2 := CreateAll(s1, list[1..], v).value;
      assert list[0] !in list[1..];
      forall id | id in s.pool
        ensures s2.pool[id] == Plus(s.pool[id], InList(s, list, CURRENT, id))
      {
        InListSplit(s, s1, list, CURRENT, id);
      }
    }
  }

  lemma InListSplit(s: Store, s1: Store, list: seq<nat>, w: Version, id: nat)
    requires Distinct(list) && list != []
    requires forall j :: j in list[1..] && j in s.inodes ==> j in s1.inodes && s1.inodes[j] == s.inodes[j]
    requires forall j :: j in list[1..] && j in s1.inodes ==> j in s.inodes
    ensures InList(s, list, w, id) <==> InList(s, [list[0]], w, id) || InList(s1, list[1..], w, id)
  {
  }

  /** Current blocks of the listed inodes that the deletion erases. */
  ghost predicate InErased(s: Store, list: seq<nat>, id: nat) {
    exists i :: i in list && i in s.inodes && s.inodes[i].links == 1 && id in BlockIds(CurBlocks(s, i))
  }

  ghost function DeletedIds(s: Store, i: nat, v: Version): set<nat>
    requires i in s.inodes && v in s.inodes[i].vols
  {
    BlockIds(s.inodes[i].vols[v]) + BlockIds(CurBlocks(s, i))
  }

  ghost predicate DeleteReady(s: Store, list: seq<nat>, v: Version) {
    && Distinct(list)
    && v != CURRENT
    && (forall i :: i in list ==>
          && i in s.inodes && CURRENT in s.inodes[i].vols && v in s.inodes[i].vols && s.inodes[i].links > 0
          && DistinctIds(s.inodes[i].vols[v]) && DistinctIds(s.inodes[i].vols[CURRENT])
          && forall id :: id in BlockIds(s.inodes[i].vols[v]) ==> id in s.pool && s.pool[id].links > 0)
    && (forall i, j :: i in list && j in list && i != j ==> DeletedIds(s, i, v) !! DeletedIds(s, j, v))
  }

  function Minus(pack: Pack, unlinked: bool, erased: bool): Pack
    requires unlinked ==> pack.links > 0
  {
    Pack(if unlinked then pack.links - 1 else pack.links, pack.data, if erased then pack.lost + 1 else pack.lost)
  }

  function Unsnapped(pack: InodePack, v: Version): InodePack
    requires pack.links > 0
  {
    pack.(links := pack.links - 1, vols := pack.vols - {v})
  }

  /** What happens to one pool entry, given whether its block is unlinked and whether it is lost. */
  ghost predicate DeletedEntry(p: Pool, q: Pool, id: nat, unlinked: bool, erased: bool) {
    && (id in q <==> id in p && !(unlinked && p[id].links == 1))
    && (id in q ==> (unlinked ==> p[id].links > 0) && q[id] == Minus(p[id], unlinked, erased))
  }

  ghost predicate DeletedPool(s: Store, list: seq<nat>, v: Version, s2: Store) {
    forall id: nat :: DeletedEntry(s.pool, s2.pool, id, InList(s, list, v, id), InErased(s, list, id))
  }

  ghost predicate DeletedInodes(s: Store, list: seq<nat>, v: Version, s2: Store) {
    && (forall i :: i in s2.inodes <==> i in s.inodes && !(i in list && s.inodes[i].links == 1))
    && (forall i :: i in s2.inodes && i !in list ==> s2.inodes[i] == s.inodes[i])
    && (forall i :: i in s2.inodes && i in list ==> s.inodes[i].links > 0 && s2.inodes[i] == Unsnapped(s.inodes[i], v))
  }

  /** The store after the deletion loop. */
  ghost predicate Deleted(s: Store, list: seq<nat>, v: Version, s2: Store) {
    && s2.bs == s.bs && s2.versions == s.versions
    && DeletedPool(s, list, v, s2)
    && DeletedInodes(s, list, v, s2)
  }

  lemma DeleteOnePool(s: Store, list: seq<nat>, v: Version)
    requires DeleteReady(s, list, v) && list != []
    ensures var i := list[0];
            var r := DeleteOne(s, i, v);
            && r.Ok?
            && (forall id :: id in r.value.pool <==>
                  id in s.pool && !(id in BlockIds(s.inodes[i].vols[v]) && s.pool[id].links == 1))
            && (forall id :: id in r.value.pool ==>
                  && (id in BlockIds(s.inodes[i].vols[v]) ==> s.pool[id].links > 0)
                  && r.value.pool[id] == Minus(s.pool[id], id in BlockIds(s.inodes[i].vols[v]),
                                               s.inodes[i].links == 1 && id in BlockIds(CurBlocks(s, i))))
  {
    var i := list[0];
    UnlinkAllIs(s.pool, s.inodes[i].vols[v]);
    LoseAllIs(UnlinkAll(s.pool, s.inodes[i].vols[v]).value, CurBlocks(s, i));
  }

  lemma DeleteOneReady(s: Store, list: seq<nat>, v: Version)
    requires DeleteReady(s, list, v) && list != []
    ensures DeleteOne(s, list[0], v).Ok?
    ensures DeleteReady(DeleteOne(s, list[0], v).value, list[1..], v)
  {
    var i := list[0];
    DeleteOnePool(s, list, v);
    var s1 := DeleteOne(s, i, v).value;
    forall j | j in list[1..]
      ensures j in s1.inodes && s1.inodes[j] == s.inodes[j]
      ensures DeletedIds(s1, j, v) == DeletedIds(s, j, v)
      ensures forall id :: id in BlockIds(s.inodes[j].vols[v]) ==> id in s1.pool && s1.pool[id].links > 0
    {
      assert DeletedIds(s, i, v) !! DeletedIds(s, j, v);
    }
    hide BlockIds, DeletedIds, DeleteOne, UnlinkAll, LoseAll;
    assert forall j :: j in list[1..] ==> j in list;
  }

  lemma DeleteOneIs(s: Store, list: seq<nat>, v: Version)
    requires DeleteReady(s, list, v) && list != []
    ensures var r := DeleteOne(s, list[0], v);
            r.Ok? && Deleted(s, [list[0]], v, r.value)
  {
    hide BlockIds;
    var i := list[0];
    DeleteOnePool(s, list, v);
    assert forall id :: InList(s, [i], v, id) <==> id in BlockIds(s.inodes[i].vols[v]);
    assert forall id :: InErased(s, [i], id) <==> s.inodes[i].links == 1 && id in BlockIds(CurBlocks(s, i));
  }

  lemma InErasedSplit(s: Store, s1: Store, list: seq<nat>, id: nat)
    requires Distinct(list) && list != []
    requires forall j :: j in list[1..] && j in s.inodes ==> j in s1.inodes && s1.inodes[j] == s.inodes[j]
    requires forall j :: j in list[1..] && j in s1.inodes ==> j in s.inodes
    ensures InErased(s, list, id) <==> InErased(s, [list[0]], id) || InErased(s1, list[1..], id)
  {
  }

  /** An inode of the list shares no deleted or erased block with the rest of the list. */
  lemma HeadApart(s: Store, s1: Store, list: seq<nat>, v: Version, id: nat)
    requires DeleteReady(s, list, v) && list != []
    requires forall j :: j in list[1..] ==> j in s1.inodes && s1.inodes[j] == s.inodes[j]
    requires InList(s, [list[0]], v, id) || InErased(s, [list[0]], id)
    ensures !InList(s1, list[1..], v, id) && !InErased(s1, list[1..], id)
  {
    assert id in DeletedIds(s, list[0], v);
    assert forall j :: j in list[1..] ==> j in list && DeletedIds(s, list[0], v) !! DeletedIds(s, j, v);
  }

  lemma {:induction false} DeleteAllIs(s: Store, list: seq<nat>, v: Version)
    requires DeleteReady(s, list, v)
    ensures var r := DeleteAll(s, list, v); r.Ok? && Deleted(s, list, v, r.value)
    decreases |list|
  {
    if list != [] {
      DeleteOneIs(s, list, v);
      DeleteOneReady(s, list, v);
      var s1 := DeleteOne(s, list[0], v).value;
      DeleteAllIs(s1, list[1..], v);
      var s2 := DeleteAll(s1, list[1..], v).value;
      DeletedCompose(s, s1, s2, list, v);
    }
  }

  lemma DeletedCompose(s: Store, s1: Store, s2: Store, list: seq<nat>, v: Version)
    requires DeleteReady(s, list, v) && list != []
    requires Deleted(s, [list[0]], v, s1) && Deleted(s1, list[1..], v, s2)
    ensures Deleted(s, list, v, s2)
  {
    DeletedPoolCompose(s, s1, s2, list, v);
    assert list[0] !in list[1..];
    hide InList, InErased, DeleteReady, DeletedPool;
  }

  lemma DeletedPoolCompose(s: Store, s1: Store, s2: Store, list: seq<nat>, v: Version)
    requires DeleteReady(s, list, v) && list != []
    requires Deleted(s, [list[0]], v, s1) && Deleted(s1, list[1..], v, s2)
    ensures DeletedPool(s, list, v, s2)
  {
    assert Distinct(list) && list[0] !in list[1..];
    assert forall j :: j in list[1..] ==> j in list && j in s1.inodes && s1.inodes[j] == s.inodes[j];
    hide InList, InErased, DeleteReady, DeletedInodes, DeletedEntry;
    forall id: nat
      ensures DeletedEntry(s.pool, s2.pool, id, InList(s, list, v, id), InErased(s, list, id))
    {
      assert DeletedEntry(s.pool, s1.pool, id, InList(s, [list[0]], v, id), InErased(s, [list[0]], id));
      assert DeletedEntry(s1.pool, s2.pool, id, InList(s1, list[1..], v, id), InErased(s1, list[1..], id));
      InListSplit(s, s1, list, v, id);
      InErasedSplit(s, s1, list, id);
      if InList(s, [list[0]], v, id) || InErased(s, [list[0]], id) { HeadApart(s, s1, list, v, id); }
      EntriesCompose(s.pool, s1.pool, s2.pool, id, InList(s, [list[0]], v, id), InErased(s, [list[0]], id),
                     InList(s1, list[1..], v, id), InErased(s1, list[1..], id));
    }
  }

  /** The effects of two deletions on one buffer that at most one of them touches. */
  lemma EntriesCompose(p: Pool, p1: Pool, p2: Pool, id: nat, listed: bool, erased: bool, listed2: bool, erased2: bool)
    requires DeletedEntry(p, p1, id, listed, erased) && DeletedEntry(p1, p2, id, listed2, erased2)
    requires !((listed || erased) && (listed2 || erased2))
    ensures DeletedEntry(p, p2, id, listed || listed2, erased || erased2)
  {
  }
}
