// The whole store: buffer pool, inode pool and version lists, and the operations on single inodes.
module Stores {
  import opened ByteStrings
  import opened Chunks
  import opened Blocks
  import opened Inodes

  datatype InodePack = InodePack(links: nat, isDir: bool, vols: Vols)

  datatype Store = Store(bs: nat, pool: Pool, inodes: map<nat, InodePack>, versions: map<Version, seq<nat>>)

  function Init(bs: nat): Store {
    Store(bs, map[], map[ROOT := InodePack(1, true, map[CURRENT := []])], map[CURRENT := [ROOT]])
  }

  function BankOf(s: Store, i: nat): Bank
    requires i in s.inodes && CURRENT in s.inodes[i].vols
  {
    Bank(s.pool, s.inodes[i].vols[CURRENT])
  }

  function WithBank(s: Store, i: nat, b: Bank): Store
    requires i in s.inodes
  {
    var pack := s.inodes[i];
    s.(pool := b.pool, inodes := s.inodes[i := pack.(vols := pack.vols[CURRENT := b.blocks])])
  }

  // ---- What a version shows ----

  /** A file or directory as one version shows it. */
  datatype Node = Node(isDir: bool, bytes: Bytes)

  /** Everything one version shows, by inode id. */
  type Image = map<nat, Node>

  function NodeAt(s: Store, i: nat, v: Version): Node {
    if i in s.inodes && v in s.inodes[i].vols
    then Node(s.inodes[i].isDir, Content(s.pool, s.inodes[i].vols[v]))
    else Node(false, [])
  }

  function View(s: Store, v: Version): Image
    requires v in s.versions
  {
    map i | i in s.versions[v] :: NodeAt(s, i, v)
  }

  // ---- The block invariant ----

  ghost predicate InodesOk(s: Store) {
    forall i :: i in s.inodes ==> InodeOk(s.pool, s.inodes[i].vols)
  }

  ghost predicate AllShaped(s: Store) {
    forall i, v :: i in s.inodes && v in s.inodes[i].vols ==> Shaped(s.bs, ChunksOf(s.pool, s.inodes[i].vols[v]))
  }

  /** Different inodes share no block. */
  ghost predicate NoSharing(s: Store) {
    forall i, j :: i in s.inodes && j in s.inodes && i != j ==> Ids(s.inodes[i].vols) !! Ids(s.inodes[j].vols)
  }

  ghost predicate Owned(s: Store, id: nat) {
    exists i :: i in s.inodes && id in Ids(s.inodes[i].vols)
  }

  /** A buffer that nothing refers to is leaked. */
  ghost predicate OrphansOk(s: Store) {
    forall id :: id in s.pool ==> Owned(s, id) || Leaked(s.pool[id])
  }

  ghost predicate BlocksInv(s: Store) {
    && s.bs > 0
    && InodesOk(s)
    && AllShaped(s)
    && NoSharing(s)
    && OrphansOk(s)
  }

  lemma InodeOkOf(s: Store, i: nat)
    requires BlocksInv(s) && i in s.inodes
    ensures InodeOk(s.pool, s.inodes[i].vols)
  {
  }

  // ---- The list invariant ----

  /** The versions that list an inode. */
  ghost function Listing(s: Store, i: nat): set<Version> {
    set v | v in s.versions && i in s.versions[v]
  }

  ghost predicate ListOk(s: Store, v: Version)
    requires v in s.versions
  {
    && Distinct(s.versions[v])
    && ROOT in s.versions[v]
    && forall i :: i in s.versions[v] ==> i in s.inodes
  }

  ghost predicate ListsOk(s: Store)
    ensures ListsOk(s) ==> CURRENT in s.versions && ROOT in s.inodes
  {
    CURRENT in s.versions && ListOk(s, CURRENT) && forall v :: v in s.versions ==> ListOk(s, v)
  }

  /** Inode accounting is exact, and an inode has a volume for exactly the snapshots that list it. */
  ghost predicate CountOk(s: Store, i: nat)
    requires i in s.inodes
  {
    && s.inodes[i].links == |Listing(s, i)|
    && s.inodes[i].links > 0
    && CURRENT in s.inodes[i].vols
    && forall v :: v != CURRENT ==> (v in s.inodes[i].vols <==> v in Listing(s, i))
  }

  ghost predicate CountsOk(s: Store) {
    forall i :: i in s.inodes ==> CountOk(s, i)
  }

  ghost predicate ListsInv(s: Store)
    ensures ListsInv(s) ==> CURRENT in s.versions && ROOT in s.inodes
  {
    && ListsOk(s)
    && CountsOk(s)
    && s.inodes[ROOT].isDir
  }

  // ---- Changing the current contents of one inode ----

  lemma InodeOkFrame(p: Pool, q: Pool, vols: Vols)
    requires InodeOk(p, vols)
    requires forall id :: id in Ids(vols) ==> id in p && id in q && q[id] == p[id]
    ensures InodeOk(q, vols)
    ensures forall v :: v in vols ==> ChunksOf(q, vols[v]) == ChunksOf(p, vols[v])
  {
    IdsInPool(p, vols);
    forall v, k: nat | v in vols && k < |vols[v]|
      ensures EntryOk(q, vols, v, k)
      ensures DataAt(q, vols[v][k].id) == DataAt(p, vols[v][k].id)
    {
      IdIn(vols, v, k);
      assert EntryOk(p, vols, v, k);
    }
  }

  /** Another inode does not notice a step of inode `i`. */
  lemma StepFrame(s: Store, i: nat, q: Pool, vols2: Vols, j: nat)
    requires BlocksInv(s) && i in s.inodes && j in s.inodes && i != j
    requires Step(s.pool, s.inodes[i].vols, q, vols2)
    ensures InodeOk(q, s.inodes[j].vols)
    ensures forall v :: v in s.inodes[j].vols ==>
            ChunksOf(q, s.inodes[j].vols[v]) == ChunksOf(s.pool, s.inodes[j].vols[v])
    ensures Ids(s.inodes[j].vols) !! Ids(vols2)
  {
    hide InodeOk, Step, AllShaped, OrphansOk;
    var vj := s.inodes[j].vols;
    assert InodeOk(s.pool, vj);
    IdsInPool(s.pool, vj);
    forall id | id in Ids(vj)
      ensures id in q && q[id] == s.pool[id] && id !in Ids(vols2)
    {
      StepElsewhere(s.pool, s.inodes[i].vols, q, vols2, id);
    }
    InodeOkFrame(s.pool, q, vj);
  }

  lemma StepOrphans(s: Store, i: nat, q: Pool, vols2: Vols)
    requires BlocksInv(s) && i in s.inodes
    requires Step(s.pool, s.inodes[i].vols, q, vols2)
    ensures OrphansOk(s.(pool := q, inodes := s.inodes[i := s.inodes[i].(vols := vols2)]))
  {
    hide InodeOk, Step, AllShaped, NoSharing, Ids;
    var s2 := s.(pool := q, inodes := s.inodes[i := s.inodes[i].(vols := vols2)]);
    forall id | id in q && !Owned(s2, id)
      ensures Leaked(q[id])
    {
      assert s2.inodes[i].vols == vols2;
      if id in s.pool && id !in Ids(s.inodes[i].vols) {
        StepElsewhere(s.pool, s.inodes[i].vols, q, vols2, id);
        assert forall j :: j in s.inodes && j != i ==> j in s2.inodes && s2.inodes[j] == s.inodes[j];
      } else {
        StepLeftover(s.pool, s.inodes[i].vols, q, vols2, id);
      }
    }
  }

  /** A step of inode `i` that keeps its blocks shaped keeps the block invariant. */
  lemma StepInv(s: Store, i: nat, q: Pool, vols2: Vols)
    requires BlocksInv(s) && i in s.inodes
    requires Step(s.pool, s.inodes[i].vols, q, vols2)
    requires forall v :: v in vols2 ==> Shaped(s.bs, ChunksOf(q, vols2[v]))
    ensures BlocksInv(s.(pool := q, inodes := s.inodes[i := s.inodes[i].(vols := vols2)]))
  {
    hide InodeOk, Step, Shaped, Ids, OrphansOk;
    StepOrphans(s, i, q, vols2);
    forall j | j in s.inodes && j != i
      ensures InodeOk(q, s.inodes[j].vols)
      ensures forall v :: v in s.inodes[j].vols ==> Shaped(s.bs, ChunksOf(q, s.inodes[j].vols[v]))
      ensures Ids(s.inodes[j].vols) !! Ids(vols2)
    {
      StepFrame(s, i, q, vols2, j);
    }
  }

  /** A bank operation on inode `i` keeps the invariant. */
  lemma BankUpdate(s: Store, i: nat, b: Bank, bytes: Bytes)
    requires BlocksInv(s) && i in s.inodes
    requires Becomes(s.bs, s.pool, s.inodes[i].vols, b, bytes)
    ensures BlocksInv(WithBank(s, i, b))
  {
    hide InodeOk, Step, Shaped, Ids, OrphansOk, NoSharing;
    var vols := s.inodes[i].vols;
    var vols2 := vols[CURRENT := b.blocks];
    forall v | v in vols2
      ensures Shaped(s.bs, ChunksOf(b.pool, vols2[v]))
    {
      assert Shaped(s.bs, ChunksOf(s.pool, vols[v]));
    }
    StepInv(s, i, b.pool, vols2);
  }

  /** A bank operation on inode `i` changes nothing but the current bytes of `i`. */
  lemma BankNodes(s: Store, i: nat, b: Bank, bytes: Bytes, j: nat, v: Version)
    requires BlocksInv(s) && i in s.inodes
    requires Becomes(s.bs, s.pool, s.inodes[i].vols, b, bytes)
    ensures NodeAt(WithBank(s, i, b), j, v) ==
            if j == i && v == CURRENT then Node(s.inodes[i].isDir, bytes) else NodeAt(s, j, v)
  {
    hide InodeOk, Step, Shaped, Ids, BlocksInv;
    if j in s.inodes && j != i {
      StepFrame(s, i, b.pool, s.inodes[i].vols[CURRENT := b.blocks], j);
    }
  }

  lemma ListsUpdate(s: Store, i: nat, b: Bank)
    requires ListsInv(s) && i in s.inodes
    ensures ListsInv(WithBank(s, i, b))
  {
    var s2 := WithBank(s, i, b);
    assert forall v :: v in s.versions ==> ListOk(s, v);
    forall j | j in s2.inodes
      ensures CountOk(s2, j)
    {
      assert Listing(s2, j) == Listing(s, j);
      assert CountOk(s, j);
    }
  }

  /** The views after changing the current contents of `i`: only the current one changes, and only if it shows `i`. */
  lemma ViewsUpdate(s: Store, i: nat, b: Bank, bytes: Bytes, v: Version)
    requires BlocksInv(s) && i in s.inodes && v in s.versions
    requires Becomes(s.bs, s.pool, s.inodes[i].vols, b, bytes)
    ensures View(WithBank(s, i, b), v) ==
            if v == CURRENT && i in s.versions[CURRENT] then View(s, CURRENT)[i := Node(s.inodes[i].isDir, bytes)]
              else View(s, v)
  {
    hide BlocksInv, Becomes, NodeAt;
    forall j | j in s.versions[v] {
      BankNodes(s, i, b, bytes, j, v);
    }
  }
}
