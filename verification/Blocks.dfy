// Copy-on-write blocks: the reference-counted buffer pool and the block lists of one inode.
module Blocks {
  import opened ByteStrings
  import opened Buffers
  import opened FreeIds

  type Version = Bytes

  /** One entry of a block list. */
  datatype BlockRef = BlockRef(id: nat, frozen: bool)

  /** A pooled buffer. `lost` is bookkeeping of this model: how many references went away without an unlink. */
  datatype Pack = Pack(links: nat, data: Bytes, lost: nat)

  type Pool = map<nat, Pack>
  type Vols = map<Version, seq<BlockRef>>

  /** What the block operations change: the pool and the current block list. */
  datatype Bank = Bank(pool: Pool, blocks: seq<BlockRef>)

  const MAX_COUNT: nat := 0xFFFF_FFFF_FFFF_FFFF

  function DataAt(pool: Pool, id: nat): Bytes {
    if id in pool then pool[id].data else []
  }

  function ChunksOf(pool: Pool, blocks: seq<BlockRef>): (cs: seq<Bytes>)
    ensures |cs| == |blocks|
    ensures forall k :: 0 <= k < |cs| ==> cs[k] == DataAt(pool, blocks[k].id)
  {
    seq(|blocks|, k requires 0 <= k < |blocks| => DataAt(pool, blocks[k].id))
  }

  function Content(pool: Pool, blocks: seq<BlockRef>): Bytes {
    Flatten(ChunksOf(pool, blocks))
  }

  // ---- Pool primitives ----

  function Alloc(pool: Pool, data: Bytes): Pool {
    pool[FreeId(pool.Keys) := Pack(1, data, 0)]
  }

  function Link(pool: Pool, id: nat): (r: Pool)
    ensures r.Keys == pool.Keys
  {
    if id in pool then pool[id := pool[id].(links := pool[id].links + 1)] else pool
  }

  /** Unsigned decrement: a count of zero would wrap around. */
  function Unlink(pool: Pool, id: nat): Pool {
    if id !in pool then pool
    else if pool[id].links == 1 then pool - {id}
    else pool[id := pool[id].(links := if pool[id].links == 0 then MAX_COUNT else pool[id].links - 1)]
  }

  /** A reference goes away and the source does not unlink it. */
  function Lose(pool: Pool, id: nat): (r: Pool)
    ensures r.Keys == pool.Keys
  {
    if id in pool then pool[id := pool[id].(lost := pool[id].lost + 1)] else pool
  }

  // ---- Operations on the current block list ----

  function Append(b: Bank): Bank {
    Bank(Alloc(b.pool, []), b.blocks + [BlockRef(FreeId(b.pool.Keys), false)])
  }

  function Grow(b: Bank, count: nat): (r: Bank)
    ensures |r.blocks| == |b.blocks| + count
    decreases count
  {
    if count == 0 then b else Grow(Append(b), count - 1)
  }

  /** Pop the last entry: an unfrozen block is unlinked, the link of a frozen one is forgotten. */
  function Pop(b: Bank): Bank
    requires b.blocks != []
  {
    var last := b.blocks[|b.blocks| - 1];
    Bank(if last.frozen then Lose(b.pool, last.id) else Unlink(b.pool, last.id), b.blocks[..|b.blocks| - 1])
  }

  function Shrink(b: Bank, count: nat): (r: Bank)
    requires count <= |b.blocks|
    ensures |r.blocks| == |b.blocks| - count
    decreases count
  {
    if count == 0 then b else Shrink(Pop(b), count - 1)
  }

  /** Copy block `k` if it is frozen; the link to the frozen block is forgotten. */
  function ThawAt(b: Bank, k: nat, bs: nat): (r: Bank)
    requires k < |b.blocks|
    ensures |r.blocks| == |b.blocks|
  {
    if !b.blocks[k].frozen then b
    else
      var from := b.blocks[k].id;
      Bank(Alloc(Lose(b.pool, from), BufRead(DataAt(b.pool, from), bs, 0)),
           b.blocks[k := BlockRef(FreeId(b.pool.Keys), false)])
  }

  function Thaw(b: Bank, lo: nat, hi: nat, bs: nat): (r: Bank)
    requires hi <= |b.blocks|
    ensures |r.blocks| == |b.blocks|
    decreases hi - lo
  {
    if lo >= hi then b else Thaw(ThawAt(b, lo, bs), lo + 1, hi, bs)
  }

  ghost function IndexOf(blocks: seq<BlockRef>, id: nat): (k: nat)
    requires exists k: nat :: k < |blocks| && blocks[k].id == id
    ensures k < |blocks| && blocks[k].id == id
  {
    var k: nat :| k < |blocks| && blocks[k].id == id;
    k
  }

  /** The pool with the contents of the listed blocks replaced. */
  ghost function Put(pool: Pool, blocks: seq<BlockRef>, cs: seq<Bytes>): (r: Pool)
    requires |cs| == |blocks|
    ensures r.Keys == pool.Keys
  {
    map id | id in pool ::
      if exists k: nat :: k < |blocks| && blocks[k].id == id
      then pool[id].(data := cs[IndexOf(blocks, id)])
      else pool[id]
  }

  // ---- What holds of one inode ----

  /** The versions whose block `k` is `id`. */
  ghost function Holders(vols: Vols, k: nat, id: nat): set<Version> {
    set v | v in vols && k < |vols[v]| && vols[v][k].id == id
  }

  ghost function Ids(vols: Vols): set<nat> {
    set v, k: nat | v in vols && k < |vols[v]| :: vols[v][k].id
  }

  /** Accounting and ownership of one block reference. */
  ghost predicate EntryOk(pool: Pool, vols: Vols, v: Version, k: nat)
    requires v in vols && k < |vols[v]|
  {
    var r := vols[v][k];
    && r.id in pool
    && pool[r.id].links == |Holders(vols, k, r.id)| + pool[r.id].lost
    && (v != CURRENT ==> r.frozen)
    && (!r.frozen ==> pool[r.id].links == 1)
  }

  /** A block id stands at the same index wherever it is listed. */
  ghost predicate SameHome(vols: Vols) {
    forall v, w, k: nat, l: nat ::
      v in vols && w in vols && k < |vols[v]| && l < |vols[w]| && vols[v][k].id == vols[w][l].id ==> k == l
  }

  ghost predicate InodeOk(pool: Pool, vols: Vols)
    ensures InodeOk(pool, vols) ==> CURRENT in vols
  {
    && CURRENT in vols
    && SameHome(vols)
    && forall v, k: nat :: v in vols && k < |vols[v]| ==> EntryOk(pool, vols, v, k)
  }

  /** An unfrozen block of the current version has no other reference at all. */
  lemma UnfrozenIsPrivate(pool: Pool, vols: Vols, k: nat)
    requires InodeOk(pool, vols)
    requires k < |vols[CURRENT]| && !vols[CURRENT][k].frozen
    ensures var id := vols[CURRENT][k].id;
            && id in pool && pool[id].links == 1 && pool[id].lost == 0
            && forall v, l: nat :: v in vols && l < |vols[v]| && vols[v][l].id == id ==> v == CURRENT && l == k
  {
    var id := vols[CURRENT][k].id;
    assert EntryOk(pool, vols, CURRENT, k);
    var h := Holders(vols, k, id);
    assert CURRENT in h;
    assert |h - {CURRENT}| == |h| - 1;
    forall v, l: nat | v in vols && l < |vols[v]| && vols[v][l].id == id
      ensures v == CURRENT && l == k
    {
      assert l == k;
      assert v in h;
      assert v == CURRENT || v in h - {CURRENT};
    }
  }

  /** Only references that went away without an unlink keep the buffer in the pool. */
  predicate Leaked(pack: Pack) {
    pack.links > 0 && pack.links == pack.lost
  }

  /** One inode moved from (p, vols) to (q, vols2) without touching what other inodes own. */
  ghost predicate Step(p: Pool, vols: Vols, q: Pool, vols2: Vols)
    ensures Step(p, vols, q, vols2) ==> InodeOk(q, vols2)
  {
    && InodeOk(q, vols2)
    && (forall id :: id in p && id !in Ids(vols) ==> id in q && q[id] == p[id])
    && (forall id :: id in Ids(vols2) ==> id in Ids(vols) || id !in p)
    && (forall id :: id in q && id !in Ids(vols2) && (id in Ids(vols) || id !in p) ==> Leaked(q[id]))
  }

  /** Versions other than the current one keep their block lists and their bytes. */
  ghost predicate KeepOthers(p: Pool, vols: Vols, q: Pool, vols2: Vols)
    ensures KeepOthers(p, vols, q, vols2) ==> vols2.Keys == vols.Keys
  {
    && vols2.Keys == vols.Keys
    && forall w :: w in vols && w != CURRENT ==>
         vols2[w] == vols[w] && ChunksOf(q, vols[w]) == ChunksOf(p, vols[w])
  }

  lemma StepElsewhere(p: Pool, vols: Vols, q: Pool, vols2: Vols, id: nat)
    requires Step(p, vols, q, vols2) && id in p && id !in Ids(vols)
    ensures id in q && q[id] == p[id] && id !in Ids(vols2)
  {
  }

  lemma StepLeftover(p: Pool, vols: Vols, q: Pool, vols2: Vols, id: nat)
    requires Step(p, vols, q, vols2) && id in q && id !in Ids(vols2) && (id in Ids(vols) || id !in p)
    ensures Leaked(q[id])
  {
  }

  lemma StepTransitive(p: Pool, v0: Vols, q: Pool, v1: Vols, r: Pool, v2: Vols)
    requires Step(p, v0, q, v1) && KeepOthers(p, v0, q, v1)
    requires Step(q, v1, r, v2) && KeepOthers(q, v1, r, v2)
    ensures Step(p, v0, r, v2) && KeepOthers(p, v0, r, v2)
  {
  }

  lemma StepReflexive(p: Pool, vols: Vols)
    requires InodeOk(p, vols)
    ensures Step(p, vols, p, vols) && KeepOthers(p, vols, p, vols)
  {
    forall id | id in Ids(vols)
      ensures id in p
    {
      var v, k: nat :| v in vols && k < |vols[v]| && vols[v][k].id == id;
      assert EntryOk(p, vols, v, k);
    }
  }

  // ---- The primitive steps ----

  lemma IdsInPool(pool: Pool, vols: Vols)
    requires InodeOk(pool, vols)
    ensures Ids(vols) <= pool.Keys
  {
    forall id | id in Ids(vols)
      ensures id in pool
    {
      var v, k: nat :| v in vols && k < |vols[v]| && vols[v][k].id == id;
      assert EntryOk(pool, vols, v, k);
    }
  }

  lemma IdIn(vols: Vols, v: Version, k: nat)
    requires v in vols && k < |vols[v]|
    ensures vols[v][k].id in Ids(vols)
  {
  }

  lemma NotReferred(vols: Vols, id: nat)
    requires id !in Ids(vols)
    ensures forall v, k: nat :: v in vols && k < |vols[v]| ==> vols[v][k].id != id
  {
    forall v, k: nat | v in vols && k < |vols[v]|
      ensures vols[v][k].id != id
    {
      IdIn(vols, v, k);
    }
  }

  lemma AppendIds(p: Pool, vols: Vols)
    requires CURRENT in vols
    ensures var b := Append(Bank(p, vols[CURRENT]));
            Ids(vols[CURRENT := b.blocks]) == Ids(vols) + {FreeId(p.Keys)}
  {
    var b := Append(Bank(p, vols[CURRENT]));
    var vols2: Vols := vols[CURRENT := b.blocks];
    forall id | id in Ids(vols)
      ensures id in Ids(vols2)
    {
      var v, k: nat :| v in vols && k < |vols[v]| && vols[v][k].id == id;
      assert vols2[v][k].id == id;
    }
    assert vols2[CURRENT][|vols[CURRENT]|].id == FreeId(p.Keys);
  }

  lemma AppendOk(p: Pool, vols: Vols)
    requires InodeOk(p, vols)
    ensures var b := Append(Bank(p, vols[CURRENT])); InodeOk(b.pool, vols[CURRENT := b.blocks])
  {
    IdsInPool(p, vols);
    NotReferred(vols, FreeId(p.Keys));
    var b := Append(Bank(p, vols[CURRENT]));
    var vols2: Vols := vols[CURRENT := b.blocks];
    forall v, k: nat | v in vols2 && k < |vols2[v]|
      ensures EntryOk(b.pool, vols2, v, k)
    {
      var id := vols2[v][k].id;
      if v == CURRENT && k == |vols[CURRENT]| {
        assert Holders(vols2, k, id) == {CURRENT};
      } else {
        assert EntryOk(p, vols, v, k);
        assert Holders(vols2, k, id) == Holders(vols, k, id);
      }
    }
  }

  lemma AppendStep(p: Pool, vols: Vols)
    requires InodeOk(p, vols)
    ensures var b := Append(Bank(p, vols[CURRENT]));
            var vols2: Vols := vols[CURRENT := b.blocks];
            && Step(p, vols, b.pool, vols2) && KeepOthers(p, vols, b.pool, vols2)
            && ChunksOf(b.pool, b.blocks) == ChunksOf(p, vols[CURRENT]) + [[]]
  {
    AppendOk(p, vols);
    AppendIds(p, vols);
    IdsInPool(p, vols);
    NotReferred(vols, FreeId(p.Keys));
  }

  /** Replacing or popping entry `k` of the current list: what remains of the old id's holders. */
  lemma HoldersWithoutCurrent(vols: Vols, k: nat, vols2: Vols, l: nat, id: nat)
    requires CURRENT in vols && SameHome(vols) && k < |vols[CURRENT]|
    requires vols2.Keys == vols.Keys && forall w :: w in vols && w != CURRENT ==> vols2[w] == vols[w]
    requires forall j: nat :: j < |vols2[CURRENT]| && vols2[CURRENT][j].id == id ==>
             j < |vols[CURRENT]| && j != k && vols[CURRENT][j].id == id
    requires forall j: nat :: j < |vols[CURRENT]| && j != k ==>
             j < |vols2[CURRENT]| && vols2[CURRENT][j] == vols[CURRENT][j]
    ensures id == vols[CURRENT][k].id ==> |Holders(vols2, k, id)| == |Holders(vols, k, id)| - 1
    ensures id != vols[CURRENT][k].id ==> Holders(vols2, l, id) == Holders(vols, l, id)
  {
    if id == vols[CURRENT][k].id {
      assert Holders(vols2, k, id) == Holders(vols, k, id) - {CURRENT};
    } else {
      assert Holders(vols2, l, id) == Holders(vols, l, id);
    }
  }

  lemma ThawOk(p: Pool, vols: Vols, k: nat, bs: nat)
    requires InodeOk(p, vols) && k < |vols[CURRENT]| && vols[CURRENT][k].frozen
    ensures var b := ThawAt(Bank(p, vols[CURRENT]), k, bs); InodeOk(b.pool, vols[CURRENT := b.blocks])
  {
    IdsInPool(p, vols);
    var newId := FreeId(p.Keys);
    NotReferred(vols, newId);
    var b := ThawAt(Bank(p, vols[CURRENT]), k, bs);
    var vols2: Vols := vols[CURRENT := b.blocks];
    assert EntryOk(p, vols, CURRENT, k);
    forall v, l: nat | v in vols2 && l < |vols2[v]|
      ensures EntryOk(b.pool, vols2, v, l)
    {
      var id := vols2[v][l].id;
      if id == newId {
        assert Holders(vols2, l, id) == {CURRENT};
      } else {
        assert EntryOk(p, vols, v, l);
        HoldersWithoutCurrent(vols, k, vols2, l, id);
        if id == vols[CURRENT][k].id { assert l == k; }
      }
    }
  }

  lemma ThawIds(p: Pool, vols: Vols, k: nat, bs: nat)
    requires InodeOk(p, vols) && k < |vols[CURRENT]| && vols[CURRENT][k].frozen
    ensures var b := ThawAt(Bank(p, vols[CURRENT]), k, bs);
            var vols2: Vols := vols[CURRENT := b.blocks];
            && Ids(vols2) <= Ids(vols) + {FreeId(p.Keys)}
            && Ids(vols) - {vols[CURRENT][k].id} + {FreeId(p.Keys)} <= Ids(vols2)
  {
    var b := ThawAt(Bank(p, vols[CURRENT]), k, bs);
    var vols2: Vols := vols[CURRENT := b.blocks];
    assert vols2[CURRENT][k].id == FreeId(p.Keys);
    forall id | id in Ids(vols) && id != vols[CURRENT][k].id
      ensures id in Ids(vols2)
    {
      var v, l: nat :| v in vols && l < |vols[v]| && vols[v][l].id == id;
      assert vols2[v][l].id == id;
    }
    forall id | id in Ids(vols2) && id != FreeId(p.Keys)
      ensures id in Ids(vols)
    {
      var v, l: nat :| v in vols2 && l < |vols2[v]| && vols2[v][l].id == id;
      assert vols[v][l].id == id;
    }
  }

  /** A reference that was the last of its block leaves exactly its lost links behind. */
  lemma LastHolder(p: Pool, vols: Vols, k: nat, vols2: Vols)
    requires InodeOk(p, vols) && k < |vols[CURRENT]|
    requires vols2.Keys == vols.Keys && forall w :: w in vols && w != CURRENT ==> vols2[w] == vols[w]
    requires vols[CURRENT][k].id !in Ids(vols2)
    ensures var id := vols[CURRENT][k].id; id in p && p[id].links == 1 + p[id].lost
  {
    var id := vols[CURRENT][k].id;
    assert EntryOk(p, vols, CURRENT, k);
    NotReferred(vols2, id);
    assert Holders(vols, k, id) == {CURRENT};
  }

  lemma ThawFrozenStep(p: Pool, vols: Vols, k: nat, bs: nat)
    requires InodeOk(p, vols) && k < |vols[CURRENT]| && vols[CURRENT][k].frozen
    ensures var b := ThawAt(Bank(p, vols[CURRENT]), k, bs); Step(p, vols, b.pool, vols[CURRENT := b.blocks])
  {
    var b := ThawAt(Bank(p, vols[CURRENT]), k, bs);
    var vols2: Vols := vols[CURRENT := b.blocks];
    IdsInPool(p, vols);
    ThawOk(p, vols, k, bs);
    ThawIds(p, vols, k, bs);
    IdIn(vols, CURRENT, k);
    if vols[CURRENT][k].id !in Ids(vols2) { LastHolder(p, vols, k, vols2); }
  }

  /** The copy has the bytes of the frozen block; no other listed block changes. */
  lemma ThawChunks(p: Pool, vols: Vols, k: nat, bs: nat, w: Version)
    requires InodeOk(p, vols) && k < |vols[CURRENT]| && vols[CURRENT][k].frozen && w in vols
    requires |DataAt(p, vols[CURRENT][k].id)| <= bs
    ensures var b := ThawAt(Bank(p, vols[CURRENT]), k, bs);
            var vols2: Vols := vols[CURRENT := b.blocks];
            ChunksOf(b.pool, vols2[w]) == ChunksOf(p, vols[w])
  {
    var b := ThawAt(Bank(p, vols[CURRENT]), k, bs);
    var vols2: Vols := vols[CURRENT := b.blocks];
    IdsInPool(p, vols);
    BufReadAll(DataAt(p, vols[CURRENT][k].id), bs);
    forall j: nat | j < |vols[w]|
      ensures DataAt(b.pool, vols2[w][j].id) == DataAt(p, vols[w][j].id)
    {
      IdIn(vols, w, j);
    }
  }

  lemma ThawStep(p: Pool, vols: Vols, k: nat, bs: nat)
    requires InodeOk(p, vols) && k < |vols[CURRENT]|
    requires |DataAt(p, vols[CURRENT][k].id)| <= bs
    ensures var b := ThawAt(Bank(p, vols[CURRENT]), k, bs);
            var vols2: Vols := vols[CURRENT := b.blocks];
            && Step(p, vols, b.pool, vols2) && KeepOthers(p, vols, b.pool, vols2)
            && ChunksOf(b.pool, b.blocks) == ChunksOf(p, vols[CURRENT])
            && !b.blocks[k].frozen
            && forall j: nat :: j < |b.blocks| && j != k ==> b.blocks[j] == vols[CURRENT][j]
  {
    var b := ThawAt(Bank(p, vols[CURRENT]), k, bs);
    var vols2: Vols := vols[CURRENT := b.blocks];
    if vols[CURRENT][k].frozen {
      ThawFrozenStep(p, vols, k, bs);
      forall w | w in vols
        ensures ChunksOf(b.pool, vols2[w]) == ChunksOf(p, vols[w])
      {
        ThawChunks(p, vols, k, bs, w);
      }
    } else {
      assert vols2 == vols;
      StepReflexive(p, vols);
    }
  }

  lemma PopOk(p: Pool, vols: Vols)
    requires InodeOk(p, vols) && vols[CURRENT] != []
    ensures var b := Pop(Bank(p, vols[CURRENT])); InodeOk(b.pool, vols[CURRENT := b.blocks])
  {
    var k := |vols[CURRENT]| - 1;
    var b := Pop(Bank(p, vols[CURRENT]));
    var vols2: Vols := vols[CURRENT := b.blocks];
    assert EntryOk(p, vols, CURRENT, k);
    if !vols[CURRENT][k].frozen { UnfrozenIsPrivate(p, vols, k); }
    forall v, l: nat | v in vols2 && l < |vols2[v]|
      ensures EntryOk(b.pool, vols2, v, l)
    {
      var id := vols2[v][l].id;
      assert vols2[v][l] == vols[v][l];
      assert EntryOk(p, vols, v, l);
      HoldersWithoutCurrent(vols, k, vols2, l, id);
      if id == vols[CURRENT][k].id { assert l == k; }
    }
  }

  lemma PopIds(p: Pool, vols: Vols)
    requires InodeOk(p, vols) && vols[CURRENT] != []
    ensures var vols2: Vols := vols[CURRENT := Pop(Bank(p, vols[CURRENT])).blocks];
            && Ids(vols2) <= Ids(vols)
            && Ids(vols) <= Ids(vols2) + {vols[CURRENT][|vols[CURRENT]| - 1].id}
  {
    var k := |vols[CURRENT]| - 1;
    var vols2: Vols := vols[CURRENT := Pop(Bank(p, vols[CURRENT])).blocks];
    forall id | id in Ids(vols) && id != vols[CURRENT][k].id
      ensures id in Ids(vols2)
    {
      var v, l: nat :| v in vols && l < |vols[v]| && vols[v][l].id == id;
      assert vols2[v][l].id == id;
    }
  }

  lemma PopCounts(p: Pool, vols: Vols)
    requires InodeOk(p, vols) && vols[CURRENT] != []
    ensures var b := Pop(Bank(p, vols[CURRENT])); Step(p, vols, b.pool, vols[CURRENT := b.blocks])
  {
    var k := |vols[CURRENT]| - 1;
    var b := Pop(Bank(p, vols[CURRENT]));
    var vols2: Vols := vols[CURRENT := b.blocks];
    IdsInPool(p, vols);
    PopOk(p, vols);
    PopIds(p, vols);
    IdIn(vols, CURRENT, k);
    if vols[CURRENT][k].id !in Ids(vols2) { LastHolder(p, vols, k, vols2); }
    hide InodeOk, Ids;
  }

  /** What is left shows what it showed. */
  lemma PopChunks(p: Pool, vols: Vols)
    requires InodeOk(p, vols) && vols[CURRENT] != []
    ensures var b := Pop(Bank(p, vols[CURRENT]));
            && KeepOthers(p, vols, b.pool, vols[CURRENT := b.blocks])
            && ChunksOf(b.pool, b.blocks) == ChunksOf(p, vols[CURRENT])[..|vols[CURRENT]| - 1]
  {
    var k := |vols[CURRENT]| - 1;
    IdsInPool(p, vols);
    assert EntryOk(p, vols, CURRENT, k);
    if !vols[CURRENT][k].frozen { UnfrozenIsPrivate(p, vols, k); }
    forall j: nat | j < k
      ensures vols[CURRENT][j].id != vols[CURRENT][k].id
    {
    }
  }

  lemma PopStep(p: Pool, vols: Vols)
    requires InodeOk(p, vols) && vols[CURRENT] != []
    ensures var b := Pop(Bank(p, vols[CURRENT]));
            var vols2: Vols := vols[CURRENT := b.blocks];
            && Step(p, vols, b.pool, vols2) && KeepOthers(p, vols, b.pool, vols2)
            && ChunksOf(b.pool, b.blocks) == ChunksOf(p, vols[CURRENT])[..|vols[CURRENT]| - 1]
  {
    hide InodeOk, Step, KeepOthers;
    PopCounts(p, vols);
    PopChunks(p, vols);
  }
}
