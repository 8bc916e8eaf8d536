// The store refines the history of full copies: creating, removing and entering names.
module Refinement {
  import opened ByteStrings
  import opened FreeIds
  import opened Blocks
  import opened Chunks
  import opened Inodes
  import opened Stores
  import opened Snapshots
  import opened SnapshotInv
  import opened Directories
  import opened Namespaces
  import opened Images
  import opened Histories
  import opened Filesystems

  // ---- Adding an inode ----

  /** A new inode, listed by the current version. */
  function AddListed(s: Store, n: nat, isDir: bool): Store
    requires CURRENT in s.versions
  {
    AddInode(s, n, isDir).(versions := s.versions[CURRENT := s.versions[CURRENT] + [n]])
  }

  const EMPTY: Vols := map[CURRENT := []]

  lemma EmptyIds(p: Pool, bs: nat)
    ensures Ids(EMPTY) == {} && InodeOk(p, EMPTY)
    ensures forall v :: v in EMPTY ==> Shaped(bs, ChunksOf(p, EMPTY[v]))
  {
  }

  /** `i` has the same volumes in both stores, or is missing in one and empty in the other. */
  ghost predicate SameVolsAt(s: Store, s2: Store, i: nat) {
    && (i in s.inodes && i in s2.inodes ==> s2.inodes[i].vols == s.inodes[i].vols)
    && (i in s.inodes && i !in s2.inodes ==> s.inodes[i].vols == EMPTY)
    && (i !in s.inodes && i in s2.inodes ==> s2.inodes[i].vols == EMPTY)
  }

  /** The block invariant does not depend on link counts and empty inodes. */
  lemma BlocksInvCarries(s: Store, s2: Store)
    requires BlocksInv(s) && s2.bs == s.bs && s2.pool == s.pool
    requires forall i :: SameVolsAt(s, s2, i)
    ensures BlocksInv(s2)
  {
    hide InodeOk, Ids, Shaped, Owned;
    EmptyIds(s.pool, s.bs);
    forall i | i in s2.inodes
      ensures InodeOk(s.pool, s2.inodes[i].vols)
      ensures forall v :: v in s2.inodes[i].vols ==> Shaped(s.bs, ChunksOf(s.pool, s2.inodes[i].vols[v]))
    {
      assert SameVolsAt(s, s2, i);
    }
    SharingCarries(s, s2);
    forall id | id in s2.pool && !Owned(s2, id)
      ensures Leaked(s2.pool[id])
    {
      OwnedCarries(s, s2, id);
    }
  }

  lemma SharingCarries(s: Store, s2: Store)
    requires NoSharing(s) && forall i :: SameVolsAt(s, s2, i)
    ensures NoSharing(s2)
  {
    EmptyIds(s.pool, s.bs);
    hide Ids;
    forall i, j | i in s2.inodes && j in s2.inodes && i != j
      ensures Ids(s2.inodes[i].vols) !! Ids(s2.inodes[j].vols)
    {
      assert SameVolsAt(s, s2, i) && SameVolsAt(s, s2, j);
    }
  }

  lemma OwnedCarries(s: Store, s2: Store, id: nat)
    requires forall i :: SameVolsAt(s, s2, i)
    ensures Owned(s, id) ==> Owned(s2, id)
  {
    EmptyIds(s.pool, s.bs);
    hide Ids;
    if i :| i in s.inodes && id in Ids(s.inodes[i].vols) {
      assert SameVolsAt(s, s2, i);
    }
  }

  lemma AddBlocksInv(s: Store, n: nat, isDir: bool)
    requires BlocksInv(s) && n !in s.inodes
    ensures BlocksInv(AddInode(s, n, isDir))
  {
    hide BlocksInv;
    var s2 := AddInode(s, n, isDir);
    assert forall i :: SameVolsAt(s, s2, i);
    hide SameVolsAt, AddInode;
    BlocksInvCarries(s, s2);
  }

  lemma AddNodes(s: Store, n: nat, isDir: bool, i: nat, v: Version)
    requires n !in s.inodes
    requires CURRENT in s.versions
    ensures i in s.inodes ==> NodeAt(AddListed(s, n, isDir), i, v) == NodeAt(s, i, v)
    ensures NodeAt(AddListed(s, n, isDir), n, CURRENT) == Node(isDir, [])
  {
    assert ChunksOf(s.pool, []) == [];
  }

  lemma AddListsInv(s: Store, n: nat, isDir: bool)
    requires ListsInv(s) && n !in s.inodes
    ensures ListsInv(AddListed(s, n, isDir))
  {
    var s2 := AddListed(s, n, isDir);
    assert forall v :: v in s.versions ==> ListOk(s, v);
    forall v | v in s2.versions
      ensures ListOk(s2, v)
    {
      assert ListOk(s, v);
    }
    forall i | i in s2.inodes
      ensures CountOk(s2, i)
    {
      if i == n {
        assert Listing(s2, n) == {CURRENT};
      } else {
        assert Listing(s2, i) == Listing(s, i);
        assert CountOk(s, i);
      }
    }
  }

  lemma AddRefines(s: Store, n: nat, isDir: bool)
    requires StoreInv(s) && n !in s.inodes
    ensures StoreInv(AddListed(s, n, isDir))
    ensures Abs(AddListed(s, n, isDir)) == Abs(s)[CURRENT := View(s, CURRENT)[n := Node(isDir, [])]]
  {
    hide BlocksInv, ListsInv, NodeAt;
    AddBlocksInv(s, n, isDir);
    AddListsInv(s, n, isDir);
    AddViews(s, n, isDir);
    VersionsIrrelevant(AddInode(s, n, isDir), AddListed(s, n, isDir));
    hide View;
  }

  lemma AddViews(s: Store, n: nat, isDir: bool)
    requires ListsInv(s) && n !in s.inodes
    ensures var s2 := AddListed(s, n, isDir);
            && View(s2, CURRENT) == View(s, CURRENT)[n := Node(isDir, [])]
            && forall v :: v in s.versions && v != CURRENT ==> View(s2, v) == View(s, v)
  {
    hide ListsInv, NodeAt;
    var s2 := AddListed(s, n, isDir);
    forall v, i | v in s.versions && i in s.versions[v]
      ensures NodeAt(s2, i, v) == NodeAt(s, i, v)
    {
      ListedInodes(s, v, i);
      AddNodes(s, n, isDir, i, v);
    }
    AddNodes(s, n, isDir, n, CURRENT);
    hide AddInode;
    assert View(s2, CURRENT) == View(s, CURRENT)[n := Node(isDir, [])];
    forall v | v in s.versions && v != CURRENT
      ensures View(s2, v) == View(s, v)
    {
    }
  }

  /** Saving a directory and listing an inode may be done in either order. */
  lemma SaveKeepsVersions(s: Store, versions: map<Version, seq<nat>>, i: nat, es: seq<Dentry>)
    requires s.bs > 0 && i in s.inodes && CURRENT in s.inodes[i].vols
    ensures StoreSave(s.(versions := versions), i, es) == StoreSave(s, i, es).(versions := versions)
  {
    hide WriteBank, Encode;
  }

  lemma MakeRefinesStore(s: Store, parent: nat, name: Bytes, isDir: bool)
    requires StoreInv(s) && !OnlyInSnapshots(Abs(s), parent)
    ensures Matches(s.bs, StoreMake(s, parent, name, isDir), AbsApply(s.bs, Abs(s), MakeChild(parent, name, isDir)))
  {
    hide StoreInv, View, AllIds, BadName, OpenInode, OpenDir, Find;
    AbsIds(s);
    ListedIffShown(s, parent);
    if parent in s.inodes {
      OpenIsOpenDir(s, parent, CURRENT);
      var es := OpenInode(s, parent, CURRENT);
      if es.Ok? && !BadName(name) && Find(es.value, name) == None && |s.inodes| != MAX_POOL_SIZE {
        MakeAdds(s, parent, name, isDir, es.value);
        hide StoreSave, Encode;
      }
    } else {
      OpenMissing(s, parent);
    }
  }

  lemma OpenMissing(s: Store, i: nat)
    requires CURRENT in s.versions && i !in s.inodes && i !in View(s, CURRENT)
    ensures OpenInode(s, i, CURRENT) == Err(InodeNotFound) && OpenDir(View(s, CURRENT), i) == Err(InodeNotFound)
  {
  }

  lemma OpenIsDir(img: Image, i: nat)
    requires OpenDir(img, i).Ok?
    ensures i in img && img[i].isDir
  {
  }

  lemma MakeAdds(s: Store, parent: nat, name: Bytes, isDir: bool, es: seq<Dentry>)
    requires StoreInv(s) && parent in View(s, CURRENT) && OpenDir(View(s, CURRENT), parent) == Ok(es)
    ensures parent in s.inodes && CURRENT in s.inodes[parent].vols
    ensures var n := FreeId(s.inodes.Keys);
            var es2 := es + [Dentry(name, n)];
            var s2 := StoreSave(AddInode(s, n, isDir), parent,
              es2).(versions := s.versions[CURRENT := s.versions[CURRENT] + [n]]);
            && StoreInv(s2) && s2.bs == s.bs
            && Abs(s2) == Abs(s)[CURRENT := Save(View(s, CURRENT)[n := Node(isDir, [])], parent, es2)]
            && StoreSave(AddInode(s, n, isDir), parent, es2).versions == s.versions
  {
    hide ListsInv, BlocksInv, StoreSave, Encode, InodeOk, AddInode;
    var n := FreeId(s.inodes.Keys);
    var es2 := es + [Dentry(name, n)];
    OpenIsDir(View(s, CURRENT), parent);
    ListedInodes(s, CURRENT, parent);
    InodeReady(s, parent);
    hide StoreInv, View;
    AddRefines(s, n, isDir);
    AddKeepsOthers(s, n, isDir, parent);
    var s1 := AddListed(s, n, isDir);
    assert View(s1, CURRENT) == Abs(s1)[CURRENT];
    hide AddListed;
    SaveRefines(s1, parent, es2);
    SaveInAdded(s, parent, es2, n, isDir);
  }

  /**
    * A child made in a removed directory is listed by the current version, where no directory names it: the tree is
    * broken.
    */
  lemma MakeInRemoved(s: Store, parent: nat, name: Bytes, isDir: bool)
    requires Inv(s) && OnlyInSnapshots(Abs(s), parent) && StoreMake(s, parent, name, isDir).Ok?
    ensures var r := StoreMake(s, parent, name, isDir).value;
            && StoreInv(r.state) && !Inv(r.state)
            && Abs(r.state) == Abs(s)[CURRENT := View(s, CURRENT)[r.ret := Node(isDir, [])]]
  {
    hide Inv, StoreInv, View, GoodImage, StoreSave, Encode, AddInode, OpenInode, BadName, Find, FreeId, AllIds,
         OnlyInSnapshots, Rewrote, Abs;
    InvImage(s, CURRENT);
    ListedIffShown(s, parent);
    var (es, n) := MakeCheck(s, parent, name).value;
    var es2 := es + [Dentry(name, n)];
    AddRefines(s, n, isDir);
    AddKeepsOthers(s, n, isDir, parent);
    var s1 := AddListed(s, n, isDir);
    AddUnlisted(s, n, isDir, parent);
    hide AddListed;
    SaveRewrites(s1, parent, es2);
    SavedUnseen(s1, StoreSave(s1, parent, es2), parent, Encode(es2));
    SaveInAdded(s, parent, es2, n, isDir);
    FreshOrphan(s, n, isDir);
    var s2 := StoreMake(s, parent, name, isDir).value.state;
    assert s2 == StoreSave(s1, parent, es2);
    if Inv(s2) {
      InvImage(s2, CURRENT);
      assert View(s2, CURRENT) == View(s, CURRENT)[n := Node(isDir, [])] by { AbsCurrent(s2); }
    }
  }

  lemma AddUnlisted(s: Store, n: nat, isDir: bool, i: nat)
    requires CURRENT in s.versions && i != n && i !in s.versions[CURRENT] && i in s.inodes
    ensures i in AddListed(s, n, isDir).inodes && i !in AddListed(s, n, isDir).versions[CURRENT]
  {
  }

  lemma SavedUnseen(s: Store, s2: Store, i: nat, bytes: Bytes)
    requires i in s.inodes && CURRENT in s.versions && i !in s.versions[CURRENT] && Rewrote(s, s2, i, bytes)
    ensures StoreInv(s2) && Abs(s2) == Abs(s)
  {
    hide StoreInv, View, Abs, NodeAt;
  }

  /** Listing the new inode before or after its directory is saved makes no difference. */
  lemma SaveInAdded(s: Store, parent: nat, es: seq<Dentry>, n: nat, isDir: bool)
    requires s.bs > 0 && CURRENT in s.versions && parent in s.inodes && n != parent && CURRENT in s.inodes[parent].vols
    ensures parent in AddListed(s, n, isDir).inodes && CURRENT in AddListed(s, n, isDir).inodes[parent].vols
    ensures var s1 := StoreSave(AddInode(s, n, isDir), parent, es);
            && s1.versions == s.versions
            && s1.(versions := s.versions[CURRENT := s.versions[CURRENT] + [n]]) ==
               StoreSave(AddListed(s, n, isDir), parent, es)
  {
    hide StoreSave;
    AddListedIs(s, n, isDir);
    SaveSameVersions(AddInode(s, n, isDir), parent, es);
    SaveKeepsVersions(AddInode(s, n, isDir), s.versions[CURRENT := s.versions[CURRENT] + [n]], parent, es);
  }

  /** In a good image no directory names an id that is not there. */
  lemma FreshOrphan(s: Store, n: nat, isDir: bool)
    requires StoreInv(s) && GoodImage(View(s, CURRENT)) && n !in s.inodes
    ensures !GoodImage(View(s, CURRENT)[n := Node(isDir, [])])
  {
    if n in View(s, CURRENT) { ListedInodes(s, CURRENT, n); }
    hide StoreInv, View;
    OrphanBad(View(s, CURRENT), n, isDir);
  }

  lemma OrphanBad(img: Image, n: nat, isDir: bool)
    requires GoodImage(img) && n !in img
    ensures !GoodImage(img[n := Node(isDir, [])])
  {
    var g, g2 := Names(img), Names(img[n := Node(isDir, [])]);
    assert n in g2 && n != ROOT;
    forall i: nat, e: Dentry | Edge(g2, i, e)
      ensures e.id != n
    {
      assert i != n && Edge(g, i, e);
      assert EdgeOk(g, i, e);
    }
    assert !HasParent(g2, n);
  }

  lemma AddListedIs(s: Store, n: nat, isDir: bool)
    requires CURRENT in s.versions
    ensures AddListed(s, n, isDir) ==
            AddInode(s, n, isDir).(versions := s.versions[CURRENT := s.versions[CURRENT] + [n]])
    ensures AddInode(s, n, isDir).versions == s.versions
  {
  }

  lemma AddKeepsOthers(s: Store, n: nat, isDir: bool, i: nat)
    requires s.bs > 0 && CURRENT in s.versions && n !in s.inodes && i in s.inodes
    ensures i in AddInode(s, n, isDir).inodes && AddInode(s, n, isDir).inodes[i] == s.inodes[i]
            && AddInode(s, n, isDir).bs == s.bs
    ensures AddListed(s, n, isDir).bs == s.bs
  {
  }

  lemma SaveSameVersions(s: Store, i: nat, es: seq<Dentry>)
    requires s.bs > 0 && i in s.inodes && CURRENT in s.inodes[i].vols
    ensures StoreSave(s, i, es).versions == s.versions
  {
    hide WriteBank, Encode;
  }

  // ---- Dropping an inode ----

  lemma {:induction false} RemoveFirstIs(l: seq<nat>, x: nat)
    requires Distinct(l)
    ensures Distinct(RemoveFirst(l, x))
    ensures forall i :: i in RemoveFirst(l, x) <==> i in l && i != x
  {
    if l != [] {
      RemoveFirstIs(l[1..], x);
      assert l == [l[0]] + l[1..];
      assert l[0] !in l[1..];
    }
  }

  function Unlisted(s: Store, i: nat): Store
    requires CURRENT in s.versions
  {
    s.(versions := s.versions[CURRENT := RemoveFirst(s.versions[CURRENT], i)])
  }

  /** Erasing an inode whose only volume is the current one: its blocks stay behind with one more lost link. */
  lemma EraseStep(p: Pool, vols: Vols)
    requires InodeOk(p, vols) && vols.Keys == {CURRENT}
    ensures Step(p, vols, LoseAll(p, vols[CURRENT]), EMPTY)
  {
    var q := LoseAll(p, vols[CURRENT]);
    VolumeIds(p, vols, CURRENT);
    LoseAllIs(p, vols[CURRENT]);
    EmptyIds(q, 1);
    forall id | id in Ids(vols)
      ensures id in BlockIds(vols[CURRENT]) && id in p && p[id].links == 1 + p[id].lost
    {
      OnlyLink(p, vols, id);
    }
    hide InodeOk, Ids, BlockIds, LoseAll;
  }

  lemma OnlyLink(p: Pool, vols: Vols, id: nat)
    requires InodeOk(p, vols) && vols.Keys == {CURRENT} && id in Ids(vols)
    ensures id in BlockIds(vols[CURRENT]) && id in p && p[id].links == 1 + p[id].lost
  {
    var v, k: nat :| v in vols && k < |vols[v]| && vols[v][k].id == id;
    assert EntryOk(p, vols, v, k);
    assert Holders(vols, k, id) == {CURRENT};
  }

  function Erased(s: Store, i: nat): Store {
    s.(pool := LoseAll(s.pool, CurBlocks(s, i)), inodes := s.inodes - {i})
  }

  lemma EraseBlocksInv(s: Store, i: nat)
    requires BlocksInv(s) && i in s.inodes && s.inodes[i].vols.Keys == {CURRENT}
    ensures BlocksInv(Erased(s, i))
  {
    hide BlocksInv, InodeOk, Shaped, Step, Ids, LoseAll;
    var vols := s.inodes[i].vols;
    InodeOkOf(s, i);
    var q := LoseAll(s.pool, CurBlocks(s, i));
    EraseStep(s.pool, vols);
    EmptyIds(q, s.bs);
    StepInv(s, i, q, EMPTY);
    var mid := s.(pool := q, inodes := s.inodes[i := s.inodes[i].(vols := EMPTY)]);
    ErasedCarries(mid, i);
    assert mid.inodes - {i} == s.inodes - {i};
  }

  lemma ErasedCarries(mid: Store, i: nat)
    requires BlocksInv(mid) && i in mid.inodes && mid.inodes[i].vols == EMPTY
    ensures BlocksInv(mid.(inodes := mid.inodes - {i}))
  {
    hide BlocksInv;
    var s2 := mid.(inodes := mid.inodes - {i});
    assert forall j :: SameVolsAt(mid, s2, j);
    BlocksInvCarries(mid, s2);
  }

  lemma EraseNodes(s: Store, i: nat, j: nat, v: Version)
    requires BlocksInv(s) && i in s.inodes && s.inodes[i].vols.Keys == {CURRENT}
    requires j in s.inodes && j != i
    ensures NodeAt(Erased(s, i), j, v) == NodeAt(s, j, v)
  {
    hide InodeOk, Step, LoseAll, BlocksInv, Ids, Flatten;
    InodeOkOf(s, i);
    EraseStep(s.pool, s.inodes[i].vols);
    StepFrame(s, i, LoseAll(s.pool, CurBlocks(s, i)), EMPTY, j);
  }

  lemma OnlyCurrent(s: Store, i: nat)
    requires ListsInv(s) && i in s.versions[CURRENT] && i in s.inodes && s.inodes[i].links == 1
    ensures s.inodes[i].vols.Keys == {CURRENT}
  {
    assert CountOk(s, i);
    var l := Listing(s, i);
    assert |l - {CURRENT}| == 0;
    forall w | w in s.inodes[i].vols
      ensures w == CURRENT
    {
      assert w in l ==> w == CURRENT || w in l - {CURRENT};
    }
  }

  lemma DropBlocks(s: Store, i: nat)
    requires StoreInv(s) && i in s.inodes && i in s.versions[CURRENT]
    ensures BlocksInv(DropInode(s, i))
  {
    hide BlocksInv, CurBlocks, LoseAll, ListsOk;
    assert CountOk(s, i);
    hide CountOk, ListsInv;
    if s.inodes[i].links == 1 {
      OnlyCurrent(s, i);
      EraseBlocksInv(s, i);
    } else {
      Relinked(s, i, DropInode(s, i));
    }
  }

  lemma Relinked(s: Store, i: nat, s2: Store)
    requires BlocksInv(s) && i in s.inodes && i in s2.inodes
    requires s2 == s.(inodes := s2.inodes)
    requires s2.inodes == s.inodes[i := s.inodes[i].(links := s2.inodes[i].links)]
    ensures BlocksInv(s2)
  {
    hide BlocksInv;
    assert forall j :: SameVolsAt(s, s2, j);
    BlocksInvCarries(s, s2);
  }

  lemma DropNodes(s: Store, i: nat, j: nat, v: Version)
    requires StoreInv(s) && i in s.inodes && i in s.versions[CURRENT] && j in DropInode(s, i).inodes
    ensures j in s.inodes && NodeAt(DropInode(s, i), j, v) == NodeAt(s, j, v)
  {
    hide BlocksInv, ListsInv, LoseAll, Flatten;
    if s.inodes[i].links == 1 {
      OnlyCurrent(s, i);
      hide NodeAt;
      EraseNodes(s, i, j, v);
    }
  }

  lemma DropListing(s: Store, i: nat, j: nat)
    requires ListsInv(s) && i in s.inodes && i in s.versions[CURRENT]
    ensures Listing(Unlisted(DropInode(s, i), i), j) == Listing(s, j) - if j == i then {CURRENT} else {}
  {
    assert ListOk(s, CURRENT);
    RemoveFirstIs(s.versions[CURRENT], i);
    hide LoseAll, RemoveFirst, ListsInv;
  }

  lemma DroppedPack(s: Store, i: nat, j: nat)
    requires i in s.inodes && s.inodes[i].links > 0 && j in DropInode(s, i).inodes
    ensures j in s.inodes && (j == i ==> s.inodes[i].links > 1)
    ensures DropInode(s, i).inodes[j].vols == s.inodes[j].vols
    ensures DropInode(s, i).inodes[j].links == s.inodes[j].links - if j == i then 1 else 0
  {
    hide LoseAll;
  }

  lemma CountFacts(s: Store, i: nat)
    requires ListsInv(s) && i in s.inodes
    ensures CountOk(s, i)
  {
  }

  lemma DropCount(s: Store, i: nat, j: nat)
    requires ListsInv(s) && i in s.inodes && i in s.versions[CURRENT] && j in DropInode(s, i).inodes
    ensures CountOk(Unlisted(DropInode(s, i), i), j)
  {
    hide LoseAll, RemoveFirst, ListsInv, DropInode;
    CountFacts(s, i);
    DroppedPack(s, i, j);
    CountFacts(s, j);
    DropListing(s, i, j);
    assert j == i ==> CURRENT in Listing(s, j);
    hide Listing;
  }

  lemma DropListOk(s: Store, i: nat, v: Version)
    requires ListsInv(s) && i in s.inodes && i in s.versions[CURRENT] && i != ROOT && v in s.versions
    ensures v in Unlisted(DropInode(s, i), i).versions && ListOk(Unlisted(DropInode(s, i), i), v)
  {
    assert ListOk(s, v) && ListOk(s, CURRENT) && CountOk(s, i);
    hide LoseAll, ListsInv, CountsOk;
    if v == CURRENT {
      RemoveFirstIs(s.versions[CURRENT], i);
    } else if i in s.versions[v] {
      StillListed(s, CURRENT, v, i);
    }
    hide Listing, RemoveFirst;
  }

  lemma DropLists(s: Store, i: nat)
    requires ListsInv(s) && i in s.inodes && i in s.versions[CURRENT] && i != ROOT
    ensures ListsInv(Unlisted(DropInode(s, i), i))
  {
    var s2 := Unlisted(DropInode(s, i), i);
    assert forall v :: v in s2.versions ==> v in s.versions;
    assert s.inodes[ROOT].isDir && ROOT in s2.inodes && s2.inodes[ROOT] == s.inodes[ROOT];
    hide LoseAll, RemoveFirst, Unlisted, DropInode, ListOk, CountOk;
    forall j | j in s2.inodes
      ensures CountOk(s2, j)
    {
      DropCount(s, i, j);
    }
    forall v | v in s.versions
      ensures v in s2.versions && ListOk(s2, v)
    {
      DropListOk(s, i, v);
    }
  }

  /** Removing an inode from the current version: it stays exactly as long as a snapshot lists it. */
  lemma DropRefines(s: Store, i: nat)
    requires StoreInv(s) && i in s.inodes && i in s.versions[CURRENT] && i != ROOT
    ensures var s2 := DropInode(Unlisted(s, i), i);
            && StoreInv(s2)
            && Abs(s2) == Abs(s)[CURRENT := View(s, CURRENT) - {i}]
  {
    hide BlocksInv, ListsInv, RemoveFirst, LoseAll, View;
    DropBlocks(s, i);
    DropLists(s, i);
    DropUnlisted(s, i);
    VersionsIrrelevant(DropInode(s, i), DropInode(Unlisted(s, i), i));
    hide DropInode;
    DropViews(s, i);
  }

  lemma DropUnlisted(s: Store, i: nat)
    requires CURRENT in s.versions && i in s.inodes
    ensures DropInode(Unlisted(s, i), i) == Unlisted(DropInode(s, i), i)
    ensures DropInode(s, i).versions == s.versions
  {
    hide RemoveFirst, LoseAll;
  }

  lemma DropViews(s: Store, i: nat)
    requires StoreInv(s) && i in s.inodes && i in s.versions[CURRENT]
    requires ListsInv(Unlisted(DropInode(s, i), i))
    ensures var s2 := Unlisted(DropInode(s, i), i);
            && View(s2, CURRENT) == View(s, CURRENT) - {i}
            && forall v :: v in s.versions && v != CURRENT ==> View(s2, v) == View(s, v)
  {
    hide BlocksInv, ListsInv, NodeAt, DropInode, RemoveFirst;
    DropUnlisted(s, i);
    var s2 := Unlisted(DropInode(s, i), i);
    CurrentDistinct(s);
    RemoveFirstIs(s.versions[CURRENT], i);
    hide Distinct;
    forall v, j | v in s2.versions && j in s2.versions[v]
      ensures j in s.versions[v] && NodeAt(s2, j, v) == NodeAt(s, j, v)
    {
      ListedInodes(s2, v, j);
      DropNodes(s, i, j, v);
      VersionsNode(DropInode(s, i), s2, j, v);
    }
    hide Unlisted;
    assert View(s2, CURRENT) == View(s, CURRENT) - {i};
    forall v | v in s.versions && v != CURRENT
      ensures View(s2, v) == View(s, v)
    {
    }
  }

  lemma CurrentDistinct(s: Store)
    requires ListsInv(s)
    ensures Distinct(s.versions[CURRENT])
  {
    assert ListOk(s, CURRENT);
  }

  lemma VersionsNode(s: Store, s2: Store, i: nat, v: Version)
    requires s2 == s.(versions := s2.versions)
    ensures NodeAt(s2, i, v) == NodeAt(s, i, v)
  {
  }

  // ---- Removing a child ----

  lemma InvStore(s: Store)
    requires Inv(s)
    ensures StoreInv(s)
  {
  }

  lemma InvImage(s: Store, v: Version)
    requires Inv(s) && v in s.versions
    ensures StoreInv(s) && GoodImage(View(s, v))
  {
    assert View(s, v) == Abs(s)[v];
  }

  lemma RemovalTargetRefines(s: Store, parent: nat, name: Bytes)
    requires Inv(s) && !OnlyInSnapshots(Abs(s), parent)
    ensures StoreRemovalTarget(s, parent, name) == RemovalTarget(View(s, CURRENT), parent, name)
    ensures parent in View(s, CURRENT) ==> OpenInode(s, parent, CURRENT) == OpenDir(View(s, CURRENT), parent)
  {
    hide Inv, StoreInv, View, AllIds, OpenInode, OpenDir, GoodImage, Readable, Decode, Names, Abs;
    InvImage(s, CURRENT);
    ListedIffShown(s, parent);
    if parent in s.inodes {
      OpenIsOpenDir(s, parent, CURRENT);
      var es := OpenDir(View(s, CURRENT), parent);
      if es.Ok? && Find(es.value, name).Some? {
        TargetInside(View(s, CURRENT), parent, name);
        OpenIsOpenDir(s, Find(es.value, name).value, CURRENT);
      }
    } else {
      OpenMissing(s, parent);
    }
  }

  lemma RemovalTargetFacts(img: Image, parent: nat, name: Bytes)
    requires GoodImage(img) && RemovalTarget(img, parent, name).Ok?
    ensures var target := RemovalTarget(img, parent, name).value;
            && parent in img && img[parent].isDir && OpenDir(img, parent).Ok?
            && target in img && target != ROOT && target != parent
  {
    hide GoodImage, OpenDir;
    OpenIsDir(img, parent);
    TargetInside(img, parent, name);
  }

  lemma TargetInside(img: Image, parent: nat, name: Bytes)
    requires GoodImage(img) && OpenDir(img, parent).Ok? && Find(OpenDir(img, parent).value, name).Some?
    ensures var target := Find(OpenDir(img, parent).value, name).value;
            target in img && target != ROOT && target != parent
  {
    OpenIsEntries(img, parent);
    hide OpenDir, Readable;
    var g := Names(img);
    FindEdge(g, parent, name);
    var e := Dentry(name, Find(Entries(g, parent), name).value);
    assert EdgeOk(g, parent, e);
    var rank, bound :| Ranked(g, rank, bound);
    assert rank[parent] < rank[e.id];
  }

  lemma RemoveRefinesStore(s: Store, parent: nat, name: Bytes)
    requires Inv(s) && !OnlyInSnapshots(Abs(s), parent)
    ensures Matches(s.bs, StoreRemove(s, parent, name), OnCurrent(Abs(s), ImgRemove(View(s, CURRENT), parent, name), 0))
  {
    hide View, AllIds, OpenInode, OpenDir, Inv, StoreInv, Decode, Encode, StoreRemovalTarget, RemovalTarget, GoodImage;
    RemovalTargetRefines(s, parent, name);
    InvImage(s, CURRENT);
    var r := StoreRemovalTarget(s, parent, name);
    if r.Ok? {
      RemovalTargetFacts(View(s, CURRENT), parent, name);
      var es2 := RemoveName(OpenInode(s, parent, CURRENT).value, name);
      SaveThenDrop(s, parent, es2, r.value);
      hide Inv, StoreSave, DropInode, RemoveFirst, RemoveName;
    }
  }

  lemma SaveThenDrop(s: Store, parent: nat, es2: seq<Dentry>, target: nat)
    requires StoreInv(s) && parent in View(s, CURRENT) && View(s, CURRENT)[parent].isDir
    requires target in View(s, CURRENT) && target != ROOT
    ensures parent in s.inodes && CURRENT in s.inodes[parent].vols
    ensures var s1 := StoreSave(s, parent, es2);
            && s1.versions == s.versions && target in s1.inodes
            && var s3 := DropInode(Unlisted(s1, target), target);
               && StoreInv(s3) && s3.bs == s.bs
               && Abs(s3) == Abs(s)[CURRENT := Save(View(s, CURRENT), parent, es2) - {target}]
  {
    hide StoreInv, StoreSave, Encode, DropInode, RemoveFirst, NodeAt;
    ShownInode(s, target);
    SaveRefines(s, parent, es2);
    var s1 := StoreSave(s, parent, es2);
    assert View(s1, CURRENT) == Abs(s1)[CURRENT];
    hide View;
    DropRefines(s1, target);
    DropSameBs(s1, target);
  }

  lemma ShownInode(s: Store, i: nat)
    requires StoreInv(s) && i in View(s, CURRENT)
    ensures i in s.inodes && i in s.versions[CURRENT]
  {
    ListedInodes(s, CURRENT, i);
  }

  lemma DropSameBs(s: Store, i: nat)
    requires CURRENT in s.versions && i in s.inodes
    ensures DropInode(Unlisted(s, i), i).bs == s.bs
  {
  }
}
