// Buffers that nothing refers to: how they come about, and that no operation ever frees or touches them.
module Leaks {
  import opened ByteStrings
  import opened Blocks
  import opened Chunks
  import opened Inodes
  import opened Stores
  import opened Snapshots
  import opened SnapshotInv
  import opened Directories
  import opened Namespaces
  import opened Renames
  import opened PathStrings
  import opened Images
  import opened Histories
  import opened Filesystems
  import opened Refinement
  import opened StoreRenames
  import opened Runs
  import opened Consequences
  import opened StoreOutcomes
  import opened RenameEffects

  /** The pool has `pack` under `id`, and no inode refers to it. */
  ghost predicate Forgotten(s: Store, id: nat, pack: Pack) {
    id in s.pool && s.pool[id] == pack && !Owned(s, id)
  }

  // ---- Loops over blocks ----

  lemma {:induction false} LinkOthers(pool: Pool, blocks: seq<BlockRef>, id: nat)
    requires id in pool && id !in BlockIds(blocks) && LinkAll(pool, blocks).Ok?
    ensures id in LinkAll(pool, blocks).value && LinkAll(pool, blocks).value[id] == pool[id]
  {
    if blocks != [] {
      IdsTail(blocks);
      LinkOthers(Link(pool, blocks[0].id), blocks[1..], id);
    }
  }

  lemma {:induction false} UnlinkOthers(pool: Pool, blocks: seq<BlockRef>, id: nat)
    requires id in pool && id !in BlockIds(blocks) && UnlinkAll(pool, blocks).Ok?
    ensures id in UnlinkAll(pool, blocks).value && UnlinkAll(pool, blocks).value[id] == pool[id]
  {
    if blocks != [] {
      IdsTail(blocks);
      UnlinkOthers(Unlink(pool, blocks[0].id), blocks[1..], id);
    }
  }

  lemma {:induction false} LoseOthers(pool: Pool, blocks: seq<BlockRef>, id: nat)
    requires id in pool && id !in BlockIds(blocks)
    ensures id in LoseAll(pool, blocks) && LoseAll(pool, blocks)[id] == pool[id]
  {
    if blocks != [] {
      IdsTail(blocks);
      LoseOthers(Lose(pool, blocks[0].id), blocks[1..], id);
    }
  }

  lemma NotOwned(s: Store, i: nat, v: Version, id: nat)
    requires !Owned(s, id) && i in s.inodes && v in s.inodes[i].vols
    ensures id !in BlockIds(s.inodes[i].vols[v])
  {
    forall k: nat | k < |s.inodes[i].vols[v]|
      ensures s.inodes[i].vols[v][k].id != id
    {
      IdIn(s.inodes[i].vols, v, k);
    }
  }

  /** Another pool that agrees at `id`, and inodes that own no more. */
  lemma StillForgotten(s: Store, s2: Store, id: nat, pack: Pack)
    requires Forgotten(s, id, pack) && id in s2.pool && s2.pool[id] == s.pool[id]
    requires forall i :: i in s2.inodes ==>
             id !in Ids(s2.inodes[i].vols) || (i in s.inodes && id in Ids(s.inodes[i].vols))
    ensures Forgotten(s2, id, pack)
  {
    hide Ids;
  }

  lemma VolumeAddsNoId(vols: Vols, v: Version, id: nat)
    requires CURRENT in vols && id in Ids(AddVolume(vols, v))
    ensures id in Ids(vols)
  {
    var w, k: nat :| w in AddVolume(vols, v) && k < |AddVolume(vols, v)[w]| && AddVolume(vols, v)[w][k].id == id;
    IdIn(vols, if w == v then CURRENT else w, k);
  }

  lemma FewerVolumes(vols: Vols, v: Version, id: nat)
    requires id in Ids(vols - {v})
    ensures id in Ids(vols)
  {
    var w, k: nat :| w in vols - {v} && k < |(vols - {v})[w]| && (vols - {v})[w][k].id == id;
    IdIn(vols, w, k);
  }

  // ---- Snapshots ----

  lemma CreateOneForgets(s: Store, i: nat, v: Version, id: nat, pack: Pack)
    requires Forgotten(s, id, pack) && CreateOne(s, i, v).Ok?
    ensures Forgotten(CreateOne(s, i, v).value, id, pack)
  {
    var s2 := CreateOne(s, i, v).value;
    var vols := s.inodes[i].vols;
    NotOwned(s, i, CURRENT, id);
    hide Ids, AddVolume, LinkAll, BlockIds;
    LinkOthers(s.pool, vols[CURRENT], id);
    if id in Ids(AddVolume(vols, v)) { VolumeAddsNoId(vols, v, id); }
    StillForgotten(s, s2, id, pack);
  }

  lemma {:induction false} CreateAllForgets(s: Store, list: seq<nat>, v: Version, id: nat, pack: Pack)
    requires Forgotten(s, id, pack) && CreateAll(s, list, v).Ok?
    ensures Forgotten(CreateAll(s, list, v).value, id, pack)
    decreases |list|
  {
    hide Forgotten, CreateOne;
    if list != [] {
      CreateOneForgets(s, list[0], v, id, pack);
      CreateAllForgets(CreateOne(s, list[0], v).value, list[1..], v, id, pack);
    }
  }

  lemma DropForgets(s: Store, i: nat, id: nat, pack: Pack)
    requires Forgotten(s, id, pack) && i in s.inodes
    ensures Forgotten(DropInode(s, i), id, pack)
  {
    if CURRENT in s.inodes[i].vols { NotOwned(s, i, CURRENT, id); }
    hide Ids, LoseAll;
    LoseOthers(s.pool, CurBlocks(s, i), id);
    hide BlockIds, CurBlocks;
    StillForgotten(s, DropInode(s, i), id, pack);
  }

  lemma DeleteOneForgets(s: Store, i: nat, v: Version, id: nat, pack: Pack)
    requires Forgotten(s, id, pack) && DeleteOne(s, i, v).Ok?
    ensures Forgotten(DeleteOne(s, i, v).value, id, pack)
  {
    var vols := s.inodes[i].vols;
    NotOwned(s, i, v, id);
    if CURRENT in vols { NotOwned(s, i, CURRENT, id); }
    hide Ids, UnlinkAll, LoseAll;
    UnlinkOthers(s.pool, vols[v], id);
    LoseOthers(UnlinkAll(s.pool, vols[v]).value, CurBlocks(s, i), id);
    hide BlockIds, CurBlocks;
    if id in Ids(vols - {v}) { FewerVolumes(vols, v, id); }
    StillForgotten(s, DeleteOne(s, i, v).value, id, pack);
  }

  lemma {:induction false} DeleteAllForgets(s: Store, list: seq<nat>, v: Version, id: nat, pack: Pack)
    requires Forgotten(s, id, pack) && DeleteAll(s, list, v).Ok?
    ensures Forgotten(DeleteAll(s, list, v).value, id, pack)
    decreases |list|
  {
    hide Forgotten, DeleteOne;
    if list != [] {
      DeleteOneForgets(s, list[0], v, id, pack);
      DeleteAllForgets(DeleteOne(s, list[0], v).value, list[1..], v, id, pack);
    }
  }

  lemma SnapshotForgets(s: Store, v: Version, id: nat, pack: Pack)
    requires CURRENT in s.versions && Forgotten(s, id, pack)
    ensures CreateSnapshot(s, v).Ok? ==> Forgotten(CreateSnapshot(s, v).value, id, pack)
    ensures DeleteSnapshot(s, v).Ok? ==> Forgotten(DeleteSnapshot(s, v).value, id, pack)
  {
    hide CreateAll, DeleteAll, Ids;
    if CreateSnapshot(s, v).Ok? { CreateAllForgets(s, s.versions[CURRENT], v, id, pack); }
    if DeleteSnapshot(s, v).Ok? { DeleteAllForgets(s, s.versions[v], v, id, pack); }
  }

  // ---- Single inodes ----

  lemma BankForgets(s: Store, i: nat, b: Bank, bytes: Bytes, id: nat, pack: Pack)
    requires Forgotten(s, id, pack) && i in s.inodes && Becomes(s.bs, s.pool, s.inodes[i].vols, b, bytes)
    ensures Forgotten(WithBank(s, i, b), id, pack)
  {
    hide Ids, InodeOk, KeepOthers, Shaped, Flatten;
    assert id !in Ids(s.inodes[i].vols);
    StillForgotten(s, WithBank(s, i, b), id, pack);
  }

  lemma WriteForgets(s: Store, i: nat, offset: nat, d: Bytes, resize: bool, id: nat, pack: Pack)
    requires Forgotten(s, id, pack) && BlocksInv(s) && i in s.inodes
    ensures CURRENT in s.inodes[i].vols
    ensures var r := StoreWriteRaw(s, i, offset, d, resize); r.Ok? ==> Forgotten(r.value.state, id, pack)
  {
    InodeOkOf(s, i);
    CurrentShaped(s, i);
    hide Forgotten, BlocksInv, InodeOk, Shaped, Becomes, WriteBank, WriteBytes, Flatten;
    var vols := s.inodes[i].vols;
    WriteBankRefines(s.bs, s.pool, vols, offset, d, resize);
    var r, a := WriteBank(s.bs, BankOf(s, i), offset, d, resize),
      WriteBytes(s.bs, Content(s.pool, vols[CURRENT]), offset, d, resize);
    if r.Ok? { BankForgets(s, i, r.value.0, a.value.0, id, pack); }
  }

  lemma CurrentShaped(s: Store, i: nat)
    requires BlocksInv(s) && i in s.inodes && CURRENT in s.inodes[i].vols
    ensures s.bs > 0 && Shaped(s.bs, ChunksOf(s.pool, s.inodes[i].vols[CURRENT]))
  {
    hide Shaped, InodesOk, NoSharing, OrphansOk;
  }

  lemma TruncateForgets(s: Store, i: nat, n: nat, id: nat, pack: Pack)
    requires Forgotten(s, id, pack) && BlocksInv(s)
    ensures StoreTruncate(s, i, n).Ok? ==> Forgotten(StoreTruncate(s, i, n).value.state, id, pack)
  {
    if i in s.inodes {
      InodeOkOf(s, i);
      CurrentShaped(s, i);
      hide Forgotten, BlocksInv, InodeOk, Shaped, Becomes, TruncateBank, Flatten;
      TruncateBankRefines(s.bs, s.pool, s.inodes[i].vols, n);
      BankForgets(s, i, TruncateBank(s.bs, BankOf(s, i), n), Resize(Content(s.pool, s.inodes[i].vols[CURRENT]), n),
        id, pack);
    }
  }

  lemma SaveForgets(s: Store, i: nat, es: seq<Dentry>, id: nat, pack: Pack)
    requires Forgotten(s, id, pack) && BlocksInv(s) && i in s.inodes
    ensures CURRENT in s.inodes[i].vols && Forgotten(StoreSave(s, i, es), id, pack)
  {
    hide Forgotten, BlocksInv, StoreWriteRaw, Encode;
    WriteForgets(s, i, 0, Encode(es), true, id, pack);
  }

  // ---- Entries and inodes ----

  lemma OpenThere(s: Store, i: nat, v: Version)
    requires OpenInode(s, i, v).Ok?
    ensures i in s.inodes
  {
  }

  lemma LinkForgets(s: Store, i: nat, name: Bytes, x: nat, id: nat, pack: Pack)
    requires Forgotten(s, id, pack) && BlocksInv(s)
    ensures StoreLink(s, i, name, x).Ok? ==> Forgotten(StoreLink(s, i, name, x).value, id, pack)
    ensures StoreUnlink(s, i, name).Ok? ==> Forgotten(StoreUnlink(s, i, name).value, id, pack)
  {
    hide Forgotten, BlocksInv, StoreSave, Find, RemoveName, OpenInode;
    var es := OpenInode(s, i, CURRENT);
    if es.Ok? {
      OpenThere(s, i, CURRENT);
      SaveForgets(s, i, es.value + [Dentry(name, x)], id, pack);
      SaveForgets(s, i, RemoveName(es.value, name), id, pack);
    }
  }

  lemma AddForgets(s: Store, n: nat, isDir: bool, id: nat, pack: Pack)
    requires Forgotten(s, id, pack) && n !in s.inodes
    ensures Forgotten(AddInode(s, n, isDir), id, pack)
  {
    EmptyIds(s.pool, s.bs);
    hide Ids;
    StillForgotten(s, AddInode(s, n, isDir), id, pack);
  }

  lemma Relisted(s: Store, versions: map<Version, seq<nat>>, id: nat, pack: Pack)
    requires Forgotten(s, id, pack)
    ensures Forgotten(s.(versions := versions), id, pack)
  {
    hide Ids;
  }

  lemma MakeForgets(s: Store, parent: nat, name: Bytes, isDir: bool, id: nat, pack: Pack)
    requires Forgotten(s, id, pack) && BlocksInv(s) && s.bs > 0 && CURRENT in s.versions
    ensures StoreMake(s, parent, name, isDir).Ok? ==> Forgotten(StoreMake(s, parent, name, isDir).value.state, id, pack)
  {
    hide Forgotten, BlocksInv, StoreSave, AddInode, Find, OpenInode, BadName;
    var c := MakeCheck(s, parent, name);
    if c.Ok? {
      var (es, n) := c.value;
      OpenThere(s, parent, CURRENT);
      AddForgets(s, n, isDir, id, pack);
      AddBlocksInv(s, n, isDir);
      AddKeepsOthers(s, n, isDir, parent);
      var s1 := AddInode(s, n, isDir);
      SaveForgets(s1, parent, es + [Dentry(name, n)], id, pack);
      var s2 := StoreSave(s1, parent, es + [Dentry(name, n)]);
      Relisted(s2, s2.versions[CURRENT := s.versions[CURRENT] + [n]], id, pack);
    }
  }

  lemma RemoveForgets(s: Store, parent: nat, name: Bytes, id: nat, pack: Pack)
    requires Forgotten(s, id, pack) && BlocksInv(s) && s.bs > 0 && CURRENT in s.versions
    ensures StoreRemove(s, parent, name).Ok? ==> Forgotten(StoreRemove(s, parent, name).value.state, id, pack)
  {
    hide Forgotten, BlocksInv, StoreSave, DropInode, RemoveName, RemoveFirst, Find, OpenInode;
    if StoreRemove(s, parent, name).Ok? {
      var target := StoreRemovalTarget(s, parent, name).value;
      OpenThere(s, parent, CURRENT);
      var es := RemoveName(OpenInode(s, parent, CURRENT).value, name);
      SaveForgets(s, parent, es, id, pack);
      var s1 := StoreSave(s, parent, es);
      Relisted(s1, s1.versions[CURRENT := RemoveFirst(s.versions[CURRENT], target)], id, pack);
      DropForgets(s1.(versions := s1.versions[CURRENT := RemoveFirst(s.versions[CURRENT], target)]), target, id, pack);
    }
  }

  // ---- Renames ----

  lemma EnterForgets(s: Store, t: nat, name: Bytes, x: nat, id: nat, pack: Pack)
    requires Forgotten(s, id, pack) && BlocksInv(s) && s.bs > 0 && CURRENT in s.versions
    requires StoreRemove(s, t, name).Ok? ==> BlocksInv(StoreRemove(s, t, name).value.state)
    ensures Forgotten(EnterTarget(s, t, name, x).state, id, pack)
  {
    hide Forgotten, BlocksInv, StoreLink, StoreUnlink, StoreRemove;
    LinkForgets(s, t, name, x, id, pack);
    RemoveForgets(s, t, name, id, pack);
    if StoreRemove(s, t, name).Ok? { LinkForgets(StoreRemove(s, t, name).value.state, t, name, x, id, pack); }
  }

  lemma ClearForgets(s: Store, dir: Result<nat>, name: Bytes, id: nat, pack: Pack)
    requires Forgotten(s, id, pack) && BlocksInv(s)
    ensures Forgotten(ClearSource(s, dir, name).state, id, pack)
  {
    hide Forgotten, BlocksInv, StoreLink, StoreUnlink;
    if dir.Ok? { LinkForgets(s, dir.value, name, 0, id, pack); }
  }

  lemma RenameForgets(s: Store, path: Bytes, name: Bytes, id: nat, pack: Pack)
    requires Forgotten(s, id, pack) && Inv(s)
    ensures Forgotten(RenameByPath(s, path, name).state, id, pack)
  {
    hide Forgotten, Inv, StoreInv, View, BlocksInv, EnterTarget, ClearSource, StoreRemove, InodeIdByPath,
         CheckReadOnly, Components, Print, Effective,
         StoreResolve, Resolve, FreeSlot, ImgLink, Abs, ImgRemove;
    InvStore(s);
    InvBlocks(s);
    var x := InodeIdByPath(s, path);
    if CheckReadOnly(path).Ok? && CheckReadOnly(name).Ok? && x.Ok? && Components(path) != [] && Components(name) != [] {
      FrontLookup(s, name);
      var t, last := InodeIdByPath(s, Print(Front(Components(name)))), Last(Components(name));
      if t.Ok? {
        ResolveRefines(s, CURRENT, Front(Effective(name)));
        LookupShown(s, Front(Effective(name)));
        EnterRefines(s, t.value, last, x.value);
        ShownParent(s, t.value);
        RemoveRefinesStore(s, t.value, last);
        if StoreRemove(s, t.value, last).Ok? { InvBlocks(StoreRemove(s, t.value, last).value.state); }
        EnterForgets(s, t.value, last, x.value, id, pack);
        var s2 := EnterTarget(s, t.value, last, x.value).state;
        InvBlocks(s2);
        ClearForgets(s2, InodeIdByPath(s2, Print(Front(Components(path)))), Last(Components(path)), id, pack);
      }
    }
  }

  // ---- Runs ----

  lemma NextForgets(s: Store, op: Op, id: nat, pack: Pack)
    requires Forgotten(s, id, pack) && Inv(s)
    ensures Forgotten(Next(s, op), id, pack)
  {
    hide Forgotten, Inv, StoreInv, BlocksInv, StoreWriteRaw, StoreTruncate, StoreMake, StoreRemove, RenameByPath,
         CreateSnapshot, DeleteSnapshot,
         NodeAt;
    InvStore(s);
    InvBlocks(s);
    match op
    case Write(i, offset, d, resize) => if i in s.inodes { WriteForgets(s, i, offset, d, resize, id, pack); }
    case PWrite(i, offset, d) =>
      if i in s.inodes { WriteForgets(s, i, offset, d, offset + |d| > |NodeAt(s, i, CURRENT).bytes|, id, pack); }
    case Truncate(i, n) => TruncateForgets(s, i, n, id, pack);
    case MakeChild(parent, name, isDir) => MakeForgets(s, parent, name, isDir, id, pack);
    case RemoveChild(parent, name) => RemoveForgets(s, parent, name, id, pack);
    case Rename(path, name) => RenameForgets(s, path, name, id, pack);
    case CreateVolume(v) => SnapshotForgets(s, v, id, pack);
    case DeleteVolume(v) => SnapshotForgets(s, v, id, pack);
  }

  lemma {:induction false} RunForgets(s: Store, ops: seq<Op>, id: nat, pack: Pack)
    requires Forgotten(s, id, pack) && Inv(s) && LegalRun(s.bs, Abs(s), ops)
    ensures Forgotten(Run(s, ops), id, pack)
    decreases |ops|
  {
    hide Forgotten, Inv, Legal, Next, AbsNext;
    if ops != [] {
      NextForgets(s, ops[0], id, pack);
      NextInv(s, ops[0]);
      RunForgets(Next(s, ops[0]), ops[1..], id, pack);
    }
  }

  lemma UnownedHasNoRefs(s: Store, id: nat)
    requires BlocksInv(s)
    ensures Owned(s, id) <==> LiveRefs(s, id) != {}
  {
    if !Owned(s, id) {
      NoRefs(s, id);
    } else {
      var i :| i in s.inodes && id in Ids(s.inodes[i].vols);
      var v, k: nat :| v in s.inodes[i].vols && k < |s.inodes[i].vols[v]| && s.inodes[i].vols[v][k].id == id;
      assert Position(i, v, k) in LiveRefs(s, id);
    }
  }

  /**
    * In every reachable state, a pooled buffer has no reference exactly if all its links are dropped ones, and there
    * are some.
    */
  lemma LeakedExactly(s: Store, id: nat)
    requires Reachable(s) && id in s.pool
    ensures LiveRefs(s, id) == {} <==> Leaked(s.pool[id])
  {
    hide Reachable, Inv, StoreInv, LiveRefs, Owned;
    ReachableInv(s);
    InvStore(s);
    BlockAccounting(s, id);
    InvBlocks(s);
    UnownedHasNoRefs(s, id);
    if !Owned(s, id) { OrphanLeaked(s, id); }
  }

  lemma OrphanLeaked(s: Store, id: nat)
    requires BlocksInv(s) && id in s.pool && !Owned(s, id)
    ensures Leaked(s.pool[id])
  {
    hide Owned, InodesOk, AllShaped, NoSharing;
  }

  /** A leak is for ever: no run frees, reuses or changes a buffer that nothing refers to. */
  lemma LeakStays(s: Store, ops: seq<Op>, id: nat)
    requires Reachable(s) && id in s.pool && LiveRefs(s, id) == {}
    requires LegalRun(s.bs, Abs(s), ops)
    ensures var s2 := Run(s, ops); id in s2.pool && s2.pool[id] == s.pool[id] && LiveRefs(s2, id) == {}
  {
    hide Reachable, Inv, StoreInv, BlocksInv, LiveRefs, Owned, LegalRun, Run, Abs;
    ReachableInv(s);
    InvStore(s);
    InvBlocks(s);
    UnownedHasNoRefs(s, id);
    RunForgets(s, ops, id, s.pool[id]);
    RunRefines(s, ops);
    InvStore(Run(s, ops));
    InvBlocks(Run(s, ops));
    UnownedHasNoRefs(Run(s, ops), id);
  }

  // ---- What leaks ----

  /** Saving a directory touches no other inode and none of its blocks. */
  lemma SaveElsewhere(s: Store, i: nat, es: seq<Dentry>, j: nat, id: nat)
    requires StoreInv(s) && i in s.inodes && j in s.inodes && i != j && id in Ids(s.inodes[j].vols)
    ensures CURRENT in s.inodes[i].vols && StoreInv(StoreSave(s, i, es))
    ensures var s2 := StoreSave(s, i, es);
            && s2.versions == s.versions && j in s2.inodes && s2.inodes[j] == s.inodes[j]
            && id in s.pool && id in s2.pool && s2.pool[id] == s.pool[id]
  {
    hide StoreInv, Rewrote, Encode, WriteBank, WriteBytes, Becomes, InodeOk, Shaped, Flatten, Ids, Abs, View, NodeAt;
    SaveRewrites(s, i, es);
    InodeReady(s, i);
    OtherOwner(s, i, j, id);
    var vols := s.inodes[i].vols;
    SaveBytes(s.bs, Content(s.pool, vols[CURRENT]), es);
    WriteBankRefines(s.bs, s.pool, vols, 0, Encode(es), true);
    BankElsewhere(s, i, WriteBank(s.bs, BankOf(s, i), 0, Encode(es), true).value.0, Encode(es), id);
    RewroteInv(s, StoreSave(s, i, es), i, Encode(es));
  }

  lemma BankElsewhere(s: Store, i: nat, b: Bank, bytes: Bytes, id: nat)
    requires i in s.inodes && Becomes(s.bs, s.pool, s.inodes[i].vols, b, bytes) && id in s.pool
             && id !in Ids(s.inodes[i].vols)
    ensures id in b.pool && b.pool[id] == s.pool[id]
  {
    hide Ids, InodeOk, KeepOthers, Shaped, Flatten;
  }

  lemma RewroteInv(s: Store, s2: Store, i: nat, bytes: Bytes)
    requires i in s.inodes && CURRENT in s.versions && Rewrote(s, s2, i, bytes)
    ensures StoreInv(s2) && s2.versions == s.versions
  {
    hide StoreInv, NodeAt, Abs, View;
  }

  lemma OtherOwner(s: Store, i: nat, j: nat, id: nat)
    requires StoreInv(s) && i in s.inodes && j in s.inodes && i != j && id in Ids(s.inodes[j].vols)
    ensures id in s.pool && id !in Ids(s.inodes[i].vols)
  {
    InvBlocks(s);
    InodeOkOf(s, j);
    IdsInPool(s.pool, s.inodes[j].vols);
    hide ListsInv, InodesOk, AllShaped, OrphansOk, Ids;
  }

  lemma EraseLeaks(s: Store, i: nat, id: nat)
    requires NoSharing(s) && i in s.inodes && s.inodes[i].links == 1 && id in Ids(s.inodes[i].vols) && id in s.pool
    ensures id in DropInode(s, i).pool && !Owned(DropInode(s, i), id)
    ensures DropInode(s, i).pool[id].data == s.pool[id].data
  {
    hide Ids;
    LoseKeepsData(s.pool, CurBlocks(s, i), id);
    hide CurBlocks, LoseAll;
    assert forall j :: j in s.inodes && j != i ==> id !in Ids(s.inodes[j].vols);
  }

  lemma {:induction false} LoseKeepsData(pool: Pool, blocks: seq<BlockRef>, id: nat)
    requires id in pool
    ensures id in LoseAll(pool, blocks) && LoseAll(pool, blocks)[id].data == pool[id].data
  {
    if blocks != [] { LoseKeepsData(Lose(pool, blocks[0].id), blocks[1..], id); }
  }

  lemma RelistedShares(s: Store, versions: map<Version, seq<nat>>)
    requires StoreInv(s)
    ensures NoSharing(s.(versions := versions))
  {
    hide ListsInv, Ids, AllShaped, InodesOk, OrphansOk;
  }

  /** Removing the last link of an inode leaks every block that the inode has. */
  lemma RemovalLeaks(s: Store, parent: nat, name: Bytes, id: nat)
    requires Reachable(s) && !OnlyInSnapshots(Abs(s), parent) && StoreRemove(s, parent, name).Ok?
    requires var target := StoreRemovalTarget(s, parent, name).value;
             target in s.inodes && s.inodes[target].links == 1 && id in Ids(s.inodes[target].vols)
    ensures var s2 := StoreRemove(s, parent, name).value.state;
            && id in s.pool && id in s2.pool && s2.pool[id].data == s.pool[id].data
            && LiveRefs(s2, id) == {}
  {
    hide Reachable, Inv, StoreInv, View, GoodImage, OpenInode, OpenDir, Find, StoreSave, DropInode, RemoveName,
         RemoveFirst, Ids, LiveRefs,
         OnlyInSnapshots, StoreRemovalTarget, RemovalTarget;
    ReachableInv(s);
    InvImage(s, CURRENT);
    RemovalTargetRefines(s, parent, name);
    var target := StoreRemovalTarget(s, parent, name).value;
    RemovalTargetFacts(View(s, CURRENT), parent, name);
    ListedIffShown(s, parent);
    var es := RemoveName(OpenInode(s, parent, CURRENT).value, name);
    SaveElsewhere(s, parent, es, target, id);
    var s1 := StoreSave(s, parent, es);
    var s2 := s1.(versions := s1.versions[CURRENT := RemoveFirst(s.versions[CURRENT], target)]);
    RelistedShares(s1, s2.versions);
    EraseLeaks(s2, target, id);
    NoRefs(DropInode(s2, target), id);
  }

  /** A fresh filesystem with one file of one byte. */
  ghost function OneByteFile(bs: nat): (s: Store)
    requires bs > 0
    ensures s.bs > 0 && CURRENT in s.versions
  {
    assert Reachable(Next(OneFile(bs), PWrite(1, 0, "x"))) by { FileWritten(bs); }
    Next(OneFile(bs), PWrite(1, 0, "x"))
  }

  const ONE_FILE: Graph := map[ROOT := Dir([Dentry("a", 1)]), 1 := File]

  lemma FileWritten(bs: nat)
    requires bs > 0
    ensures var s := Next(OneFile(bs), PWrite(1, 0, "x"));
            && Reachable(s) && s.versions.Keys == {CURRENT} && Names(View(s, CURRENT)) == ONE_FILE
            && 1 in View(s, CURRENT) && View(s, CURRENT)[1].bytes != []
  {
    hide Reachable, Inv, View, OneFile, Next, Abs, PosixWrite, Names, AllIds;
    var s, op := OneFile(bs), PWrite(1, 0, "x");
    OneFileInv(bs);
    ReachableInv(s);
    AbsCurrent(s);
    ReachableNext(s, op);
    NextInv(s, op);
    var img := View(s, CURRENT);
    ShownNode(img);
    var img2 := img[1 := Node(false, PosixWrite(img[1].bytes, 0, "x"))];
    SameNames(img, PosixWrite(img[1].bytes, 0, "x"));
    ReachableInv(Next(s, op));
    AbsCurrent(Next(s, op));
    AbsVersions(s);
    AbsVersions(Next(s, op));
    WrittenNonempty(img[1].bytes);
  }

  lemma ShownNode(img: Image)
    requires Names(img) == ONE_FILE
    ensures 1 in img && !img[1].isDir
  {
    assert 1 in Names(img);
  }

  lemma SameNames(img: Image, b: Bytes)
    requires 1 in img && !img[1].isDir
    ensures Names(img[1 := Node(false, b)]) == Names(img)
  {
    hide Decode;
  }

  lemma WrittenNonempty(b: Bytes)
    ensures PosixWrite(b, 0, "x") != []
  {
  }

  /** The file has a block, and its inode one link. */
  lemma OneBlock(s: Store) returns (id: nat)
    requires Reachable(s) && s.versions.Keys == {CURRENT} && 1 in View(s, CURRENT) && View(s, CURRENT)[1].bytes != []
    ensures 1 in s.inodes && s.inodes[1].links == 1 && id in Ids(s.inodes[1].vols)
  {
    hide Reachable, Inv, StoreInv, Ids;
    ReachableInv(s);
    InvStore(s);
    InodeAccounting(s, 1);
    ListedInodes(s, CURRENT, 1);
    assert Listing(s, 1) == {CURRENT};
    InodeReady(s, 1);
    var vols := s.inodes[1].vols;
    assert Content(s.pool, vols[CURRENT]) != [];
    assert vols[CURRENT] != [];
    IdIn(vols, CURRENT, 0);
    id := vols[CURRENT][0].id;
  }

  lemma FileRemovable(s: Store)
    requires Inv(s) && Names(View(s, CURRENT)) == ONE_FILE
    ensures Legal(Abs(s), RemoveChild(ROOT, "a")) && !OnlyInSnapshots(Abs(s), ROOT)
    ensures StoreRemovalTarget(s, ROOT, "a") == Ok(1) && StoreRemove(s, ROOT, "a").Ok?
  {
    hide Inv, StoreInv, View, Names, GoodImage, Abs, StoreRemove, ImgRemove, StoreRemovalTarget, RemovalTarget,
         FreeSlot, OnlyInSnapshots;
    InvImage(s, CURRENT);
    RootShown(s);
    ShownParent(s, ROOT);
    FileFreed(View(s, CURRENT), "a");
    RemovalTargetRefines(s, ROOT, "a");
    RemoveRefinesStore(s, ROOT, "a");
  }

  /** A run that leaks: a file is made, written and removed, and its block stays behind. */
  lemma FileLeaks(bs: nat)
    requires bs > 0
    ensures var s := Next(OneByteFile(bs), RemoveChild(ROOT, "a"));
            Reachable(s) && exists id :: id in s.pool && LiveRefs(s, id) == {}
  {
    hide Reachable, Inv, View, LiveRefs, Names, Abs, StoreRemove, StoreRemovalTarget, Ids, Next, Legal, OnlyInSnapshots;
    var s := OneByteFile(bs);
    FileWritten(bs);
    ReachableInv(s);
    FileRemovable(s);
    var id := OneBlock(s);
    RemovalLeaks(s, ROOT, "a", id);
    ReachableNext(s, RemoveChild(ROOT, "a"));
    RemovedNext(s);
  }

  lemma RemovedNext(s: Store)
    requires s.bs > 0 && CURRENT in s.versions && StoreRemove(s, ROOT, "a").Ok?
    ensures Next(s, RemoveChild(ROOT, "a")) == StoreRemove(s, ROOT, "a").value.state
  {
    hide StoreRemove;
  }
}
