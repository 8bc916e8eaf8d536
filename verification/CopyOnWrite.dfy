// Which blocks are copied, kept, freed and forgotten when a file is written or resized.
module CopyOnWrite {
  import opened ByteStrings
  import opened Buffers
  import opened FreeIds
  import opened Chunks
  import opened Blocks
  import opened Inodes

  /** The buffer is still there, with as many links and the same bytes. */
  ghost predicate Kept(p: Pool, q: Pool, id: nat) {
    id in p && id in q && q[id].links == p[id].links && q[id].data == p[id].data
  }

  ghost predicate AllKept(p: Pool, q: Pool) {
    forall id :: id in p ==> Kept(p, q, id)
  }

  /** How many blocks of a list are frozen. */
  function Frozen(blocks: seq<BlockRef>): nat {
    if blocks == [] then 0 else (if blocks[0].frozen then 1 else 0) + Frozen(blocks[1..])
  }

  lemma {:induction false} FrozenAppend(a: seq<BlockRef>, b: seq<BlockRef>)
    ensures Frozen(a + b) == Frozen(a) + Frozen(b)
  {
    if a == [] {
      assert a + b == b;
    } else {
      assert (a + b)[1..] == a[1..] + b;
      FrozenAppend(a[1..], b);
    }
  }

  /** Block `k` after the copying of frozen blocks: a private copy if it was frozen, and else the same block. */
  ghost predicate Copied(p: Pool, before: BlockRef, q: Pool, after: BlockRef, bs: nat) {
    if before.frozen
    then !after.frozen && after.id !in p && after.id in q && q[after.id].links == 1
         && q[after.id].data == BufRead(DataAt(p, before.id), bs, 0)
    else after == before
  }

  /** Copying frozen blocks copies exactly those in the range, and takes no link from the blocks that stay behind. */
  lemma {:induction false} ThawExactly(b: Bank, lo: nat, hi: nat, bs: nat)
    requires hi <= |b.blocks| && forall k :: 0 <= k < |b.blocks| ==> b.blocks[k].id in b.pool
    ensures var r := Thaw(b, lo, hi, bs);
            && (forall k :: 0 <= k < |b.blocks| && !(lo <= k < hi) ==> r.blocks[k] == b.blocks[k])
            && (forall k :: lo <= k < hi ==> Copied(b.pool, b.blocks[k], r.pool, r.blocks[k], bs))
            && AllKept(b.pool, r.pool)
            && |r.pool| == |b.pool| + if lo < hi then Frozen(b.blocks[lo..hi]) else 0
    decreases hi - lo
  {
    if lo < hi {
      var a := ThawAt(b, lo, bs);
      ThawOne(b, lo, bs);
      ThawExactly(a, lo + 1, hi, bs);
      var r := Thaw(a, lo + 1, hi, bs);
      assert b.blocks[lo..hi][1..] == b.blocks[lo + 1..hi] == a.blocks[lo + 1..hi];
      forall k | lo <= k < hi
        ensures Copied(b.pool, b.blocks[k], r.pool, r.blocks[k], bs)
      {
        assert Kept(a.pool, r.pool, a.blocks[lo].id);
        if k > lo {
          assert b.blocks[k] == a.blocks[k] && Copied(a.pool, a.blocks[k], r.pool, r.blocks[k], bs);
          assert Kept(b.pool, a.pool, b.blocks[k].id);
        }
      }
      forall id | id in b.pool
        ensures Kept(b.pool, r.pool, id)
      {
        assert Kept(b.pool, a.pool, id) && Kept(a.pool, r.pool, id);
      }
    }
  }

  lemma ThawOne(b: Bank, k: nat, bs: nat)
    requires k < |b.blocks| && forall j :: 0 <= j < |b.blocks| ==> b.blocks[j].id in b.pool
    ensures var a := ThawAt(b, k, bs);
            && (forall j :: 0 <= j < |b.blocks| && j != k ==> a.blocks[j] == b.blocks[j])
            && (forall j :: 0 <= j < |a.blocks| ==> a.blocks[j].id in a.pool)
            && Copied(b.pool, b.blocks[k], a.pool, a.blocks[k], bs)
            && AllKept(b.pool, a.pool)
            && |a.pool| == |b.pool| + if b.blocks[k].frozen then 1 else 0
  {
    if b.blocks[k].frozen { PoolGrows(Lose(b.pool, b.blocks[k].id), BufRead(DataAt(b.pool, b.blocks[k].id), bs, 0)); }
  }

  lemma PoolGrows(p: Pool, data: Bytes)
    ensures |Alloc(p, data)| == |p| + 1
  {
    var q := Alloc(p, data);
    assert q.Keys == p.Keys + {FreeId(p.Keys)};
    assert |q| == |q.Keys| && |p| == |p.Keys|;
  }

  /** Growing adds empty blocks, none of them frozen, in buffers of their own. */
  lemma {:induction false} GrowExactly(b: Bank, count: nat)
    ensures var r := Grow(b, count);
            && r.blocks[..|b.blocks|] == b.blocks
            && (forall k :: |b.blocks| <= k < |r.blocks| ==>
                  !r.blocks[k].frozen && r.blocks[k].id !in b.pool && r.blocks[k].id in r.pool
                  && r.pool[r.blocks[k].id].links == 1)
            && AllKept(b.pool, r.pool) && |r.pool| == |b.pool| + count
    decreases count
  {
    if count > 0 {
      var a := Append(b);
      PoolGrows(b.pool, []);
      GrowExactly(a, count - 1);
      var r := Grow(a, count - 1);
      assert r.blocks[..|b.blocks|] == r.blocks[..|a.blocks|][..|b.blocks|] == b.blocks;
      assert r.blocks[|b.blocks|] == r.blocks[..|a.blocks|][|b.blocks|] == a.blocks[|b.blocks|];
      assert Kept(a.pool, r.pool, a.blocks[|b.blocks|].id);
      forall id | id in b.pool
        ensures Kept(b.pool, r.pool, id)
      {
        assert Kept(b.pool, a.pool, id) && Kept(a.pool, r.pool, id);
      }
    }
  }

  /** The buffer is among the blocks from `n` on, not frozen. */
  ghost predicate CutFree(blocks: seq<BlockRef>, n: nat, id: nat) {
    exists k: nat :: n <= k < |blocks| && blocks[k].id == id && !blocks[k].frozen
  }

  lemma PopOne(p: Pool, vols: Vols)
    requires InodeOk(p, vols) && vols[CURRENT] != []
    ensures var b, last := Pop(Bank(p, vols[CURRENT])), vols[CURRENT][|vols[CURRENT]| - 1];
            && last.id in p && b.blocks == vols[CURRENT][..|vols[CURRENT]| - 1]
            && b.pool.Keys == p.Keys - (if last.frozen then {} else {last.id})
            && (forall id :: id in b.pool ==> Kept(p, b.pool, id))
            && |b.pool| == |p| - if last.frozen then 0 else 1
  {
    var k := |vols[CURRENT]| - 1;
    var q := Pop(Bank(p, vols[CURRENT])).pool;
    assert EntryOk(p, vols, CURRENT, k);
    assert |p| == |p.Keys| && |q| == |q.Keys|;
  }

  /** Shrinking frees exactly the cut blocks that are not frozen; a frozen one stays in the pool with all its links. */
  lemma {:induction false} ShrinkExactly(p: Pool, vols: Vols, count: nat)
    requires InodeOk(p, vols) && count <= |vols[CURRENT]|
    ensures var r, n := Shrink(Bank(p, vols[CURRENT]), count), |vols[CURRENT]| - count;
            && r.blocks == vols[CURRENT][..n]
            && (forall id :: id in r.pool <==> id in p && !CutFree(vols[CURRENT], n, id))
            && (forall id :: id in r.pool ==> Kept(p, r.pool, id))
            && |r.pool| + count == |p| + Frozen(vols[CURRENT][n..])
    decreases count
  {
    hide InodeOk, Pop, Frozen, CutFree;
    var blocks := vols[CURRENT];
    var n := |blocks| - count;
    if count > 0 {
      var a := Pop(Bank(p, blocks));
      var vols2: Vols := vols[CURRENT := a.blocks];
      PopOne(p, vols);
      PopOk(p, vols);
      ShrinkExactly(a.pool, vols2, count - 1);
      var r := Shrink(a, count - 1);
      FrozenLast(blocks, n);
      forall id
        ensures id in r.pool <==> id in p && !CutFree(blocks, n, id)
        ensures id in r.pool ==> Kept(p, r.pool, id)
      {
        CutFreeLast(blocks, n, id);
        assert id in r.pool ==> Kept(a.pool, r.pool, id) && Kept(p, a.pool, id);
      }
    } else {
      assert blocks[..n] == blocks && blocks[n..] == [];
      NoneCut(blocks);
    }
  }

  lemma NoneCut(blocks: seq<BlockRef>)
    ensures Frozen([]) == 0 && forall id :: !CutFree(blocks, |blocks|, id)
  {
  }

  lemma FrozenLast(blocks: seq<BlockRef>, n: nat)
    requires n < |blocks|
    ensures var last, front := blocks[|blocks| - 1], blocks[..|blocks| - 1];
            Frozen(blocks[n..]) == Frozen(front[n..]) + if last.frozen then 1 else 0
    ensures blocks[..|blocks| - 1][..n] == blocks[..n]
  {
    var last, front := blocks[|blocks| - 1], blocks[..|blocks| - 1];
    assert blocks[n..] == front[n..] + [last];
    FrozenAppend(front[n..], [last]);
    assert [last][1..] == [];
  }

  lemma CutFreeLast(blocks: seq<BlockRef>, n: nat, id: nat)
    requires n < |blocks|
    ensures var last, front := blocks[|blocks| - 1], blocks[..|blocks| - 1];
            CutFree(blocks, n, id) <==> CutFree(front, n, id) || (!last.frozen && id == last.id)
  {
    var last, front := blocks[|blocks| - 1], blocks[..|blocks| - 1];
    if CutFree(front, n, id) {
      var k: nat :| n <= k < |front| && front[k].id == id && !front[k].frozen;
      assert blocks[k] == front[k];
    }
    if CutFree(blocks, n, id) {
      var k: nat :| n <= k < |blocks| && blocks[k].id == id && !blocks[k].frozen;
      assert k < |front| ==> front[k] == blocks[k];
    }
  }

  // ---- Operations ----

  lemma AllThere(p: Pool, vols: Vols)
    requires InodeOk(p, vols)
    ensures forall k :: 0 <= k < |vols[CURRENT]| ==> vols[CURRENT][k].id in p
  {
    forall k | 0 <= k < |vols[CURRENT]|
      ensures vols[CURRENT][k].id in p
    {
      assert EntryOk(p, vols, CURRENT, k);
    }
  }

  lemma PutSize(p: Pool, blocks: seq<BlockRef>, cs: seq<Bytes>)
    requires |cs| == |blocks|
    ensures |Put(p, blocks, cs)| == |p|
    ensures forall id :: id in p ==> Put(p, blocks, cs)[id].links == p[id].links
  {
    var q := Put(p, blocks, cs);
    assert |q| == |q.Keys| && |p| == |p.Keys|;
  }

  lemma BlockTouched(bs: nat, n: nat, k: nat)
    requires bs > 0
    ensures k < BlockCount(n, bs) <==> k * bs < n
  {
    DivMod(n, bs);
    if k < BlockCount(n, bs) {
      if k < n / bs { Mono(k + 1, n / bs, bs); }
    } else {
      Mono(n / bs, k, bs);
      if n % bs != 0 { Mono(n / bs + 1, k, bs); }
    }
  }

  /** `offset` lies before the end of block `k`. */
  lemma BlockReached(bs: nat, offset: nat, k: nat)
    requires bs > 0
    ensures offset / bs <= k <==> offset < (k + 1) * bs
  {
    DivMod(offset, bs);
    if offset / bs <= k { Mono(offset / bs, k, bs); } else { Mono(k + 1, offset / bs, bs); }
  }

  lemma FixedWriteIs(bs: nat, b: Bank, offset: nat, d: Bytes)
    requires bs > 0 && d != [] && offset <= |Content(b.pool, b.blocks)|
    requires WriteBank(bs, b, offset, d, false).Ok?
    ensures var w := WriteBank(bs, b, offset, d, false).value.1;
            && w <= |d| && offset / bs < |b.blocks| && BlockCount(offset + w, bs) <= |b.blocks|
            && WriteBank(bs, b, offset, d, false).value.0 == Overwritten(bs, b, offset, d[..w])
  {
    hide Flatten, BlockCount, Overwritten;
  }

  lemma OverwrittenThaws(bs: nat, b: Bank, offset: nat, d: Bytes, lo: nat, hi: nat)
    requires bs > 0 && offset / bs < |b.blocks| && BlockCount(offset + |d|, bs) <= |b.blocks|
    requires lo == offset / bs && hi == BlockCount(offset + |d|, bs)
    ensures var r, thawed := Overwritten(bs, b, offset, d), Thaw(b, lo, hi, bs);
            && r.blocks == thawed.blocks && r.pool.Keys == thawed.pool.Keys
            && (forall id :: id in thawed.pool ==> r.pool[id].links == thawed.pool[id].links)
  {
    hide BlockCount, Thaw, Put, WriteAt;
    var thawed := Thaw(b, lo, hi, bs);
    PutSize(thawed.pool, thawed.blocks, WriteAt(bs, ChunksOf(thawed.pool, thawed.blocks), offset, d, false));
  }

  /** The bytes from `from` up to `to` have a part in block `k`. */
  ghost predicate Touched(bs: nat, k: nat, from: nat, to: nat) {
    k * bs < to && from < (k + 1) * bs
  }

  /**
    * A write in the fixed mode copies the frozen blocks that it touches and no other, keeps every other block of the
    * list, and takes no link from any buffer. Behind the end of the file it does nothing.
    */
  lemma FixedWriteCopies(bs: nat, p: Pool, vols: Vols, offset: nat, d: Bytes)
    requires bs > 0 && InodeOk(p, vols) && d != []
    requires WriteBank(bs, Bank(p, vols[CURRENT]), offset, d, false).Ok?
    ensures var (b, w) := WriteBank(bs, Bank(p, vols[CURRENT]), offset, d, false).value;
            var blocks := vols[CURRENT];
            if offset > |Content(p, blocks)| then b == Bank(p, blocks)
            else
              && |b.blocks| == |blocks|
              && (forall k :: 0 <= k < |blocks| && !Touched(bs, k, offset, offset + w) ==> b.blocks[k] == blocks[k])
              && (forall k :: 0 <= k < |blocks| && Touched(bs, k, offset, offset + w) ==>
                    if blocks[k].frozen then !b.blocks[k].frozen && b.blocks[k].id !in p && b.blocks[k].id in b.pool
                    else b.blocks[k] == blocks[k])
              && (forall id :: id in p ==> id in b.pool && b.pool[id].links == p[id].links)
  {
    hide InodeOk, Flatten, BlockCount, Thaw, Overwritten, Touched, AllKept, Copied;
    AllThere(p, vols);
    var bank := Bank(p, vols[CURRENT]);
    if offset <= |Content(p, vols[CURRENT])| {
      FixedWriteIs(bs, bank, offset, d);
      var (b, w) := WriteBank(bs, bank, offset, d, false).value;
      hide WriteBank;
      var lo, hi := offset / bs, BlockCount(offset + w, bs);
      OverwrittenThaws(bs, bank, offset, d[..w], lo, hi);
      ThawExactly(bank, lo, hi, bs);
      var to := offset + w;
      forall k: nat
        ensures Touched(bs, k, offset, to) <==> lo <= k < hi
      {
        RangeTouched(bs, offset, to, k);
      }
      ThawedSame(p, vols[CURRENT], Thaw(bank, lo, hi, bs), bs, lo, hi);
    }
  }

  lemma RangeTouched(bs: nat, from: nat, to: nat, k: nat)
    requires bs > 0
    ensures Touched(bs, k, from, to) <==> from / bs <= k < BlockCount(to, bs)
  {
    hide BlockCount;
    BlockTouched(bs, to, k);
    BlockReached(bs, from, k);
  }

  lemma ThawedSame(p: Pool, blocks: seq<BlockRef>, r: Bank, bs: nat, lo: nat, hi: nat)
    requires |r.blocks| == |blocks| && hi <= |blocks| && AllKept(p, r.pool)
    requires forall k :: lo <= k < hi ==> Copied(p, blocks[k], r.pool, r.blocks[k], bs)
    ensures forall k :: lo <= k < hi ==>
              if blocks[k].frozen then !r.blocks[k].frozen && r.blocks[k].id !in p && r.blocks[k].id in r.pool
              else r.blocks[k] == blocks[k]
    ensures forall id :: id in p ==> id in r.pool && r.pool[id].links == p[id].links
  {
    forall id | id in p
      ensures id in r.pool && r.pool[id].links == p[id].links
    {
      assert Kept(p, r.pool, id);
    }
    forall k | lo <= k < hi
      ensures if blocks[k].frozen then !r.blocks[k].frozen && r.blocks[k].id !in p && r.blocks[k].id in r.pool
              else r.blocks[k] == blocks[k]
    {
      assert Copied(p, blocks[k], r.pool, r.blocks[k], bs);
    }
  }

  // ---- Resizing ----

  lemma {:induction false} NotFrozen(blocks: seq<BlockRef>)
    requires forall k :: 0 <= k < |blocks| ==> !blocks[k].frozen
    ensures Frozen(blocks) == 0
  {
    if blocks != [] { NotFrozen(blocks[1..]); }
  }

  /** Bringing the list to a length: blocks are cut or appended, and nothing is copied. */
  lemma SizedExactly(p: Pool, vols: Vols, count: nat, keep: nat)
    requires InodeOk(p, vols) && keep == if count < |vols[CURRENT]| then count else |vols[CURRENT]|
    ensures var r, blocks := Sized(Bank(p, vols[CURRENT]), count), vols[CURRENT];
            && r.blocks[..keep] == blocks[..keep]
            && (forall k :: keep <= k < |r.blocks| ==> !r.blocks[k].frozen)
            && (forall id :: id in p && !CutFree(blocks, keep, id) ==> Kept(p, r.pool, id))
            && |r.pool| + (|blocks| - keep) == |p| + Frozen(blocks[keep..]) + (count - keep)
  {
    hide InodeOk, Grow, Shrink, CutFree, Frozen;
    var blocks := vols[CURRENT];
    if |blocks| < count {
      GrowExactly(Bank(p, blocks), count - |blocks|);
      NoneCut(blocks);
      assert blocks[keep..] == [] && blocks[..keep] == blocks;
    } else {
      ShrinkExactly(p, vols, |blocks| - count);
    }
  }

  /** Copying what is frozen in a resized list. */
  lemma ResizedThaws(p: Pool, blocks: seq<BlockRef>, sized: Bank, keep: nat, bs: nat)
    requires keep <= |blocks| && keep <= |sized.blocks| && sized.blocks[..keep] == blocks[..keep]
    requires forall k :: keep <= k < |sized.blocks| ==> !sized.blocks[k].frozen
    requires forall k :: 0 <= k < |sized.blocks| ==> sized.blocks[k].id in sized.pool
    ensures var r := Thaw(sized, 0, |sized.blocks|, bs);
            && (forall k :: 0 <= k < |r.blocks| ==> !r.blocks[k].frozen)
            && (forall k :: 0 <= k < keep && !blocks[k].frozen ==> r.blocks[k] == blocks[k])
            && AllKept(sized.pool, r.pool)
            && |r.pool| == |sized.pool| + Frozen(blocks[..keep])
  {
    hide Frozen, Thaw, AllKept;
    ThawExactly(sized, 0, |sized.blocks|, bs);
    var r := Thaw(sized, 0, |sized.blocks|, bs);
    assert sized.blocks[0..|sized.blocks|] == sized.blocks == blocks[..keep] + sized.blocks[keep..];
    FrozenAppend(blocks[..keep], sized.blocks[keep..]);
    NotFrozen(sized.blocks[keep..]);
    forall k | 0 <= k < |r.blocks|
      ensures !r.blocks[k].frozen
      ensures k < keep && !blocks[k].frozen ==> r.blocks[k] == blocks[k]
    {
      assert Copied(sized.pool, sized.blocks[k], r.pool, r.blocks[k], bs);
      assert k < keep ==> sized.blocks[k] == sized.blocks[..keep][k] == blocks[k];
    }
    if sized.blocks == [] { NoneCut([]); }
  }

  /**
    * truncate() copies the frozen blocks that it keeps, keeps the others in place, and frees exactly the cut blocks
    * that are not frozen: over the pool, one buffer more for each copy and each new block, and one less for each
    * freed one. A buffer that is not freed keeps all its links.
    */
  lemma TruncateCopies(bs: nat, p: Pool, vols: Vols, n: nat)
    requires bs > 0 && InodeOk(p, vols)
    ensures var b, blocks := TruncateBank(bs, Bank(p, vols[CURRENT]), n), vols[CURRENT];
            var keep := if |b.blocks| < |blocks| then |b.blocks| else |blocks|;
            && (forall k: nat {:trigger Touched(bs, k, 0, n)} :: k < |b.blocks| <==> Touched(bs, k, 0, n))
            && (forall k :: 0 <= k < |b.blocks| ==> !b.blocks[k].frozen)
            && (forall k :: 0 <= k < keep && !blocks[k].frozen ==> b.blocks[k] == blocks[k])
            && (forall id :: id in p && !CutFree(blocks, keep, id) ==> id in b.pool && b.pool[id].links == p[id].links)
            && |b.pool| + (|blocks| - keep) == |p| + Frozen(blocks) + (|b.blocks| - keep)
  {
    hide InodeOk, BlockCount, Thaw, Sized, Put, Touched, CutFree, Frozen, Step, KeepOthers;
    var blocks, count := vols[CURRENT], BlockCount(n, bs);
    var keep := if count < |blocks| then count else |blocks|;
    forall k: nat
      ensures Touched(bs, k, 0, n) <==> k < count
    {
      RangeTouched(bs, 0, n, k);
      assert 0 / bs == 0;
    }
    SizedExactly(p, vols, count, keep);
    SizedStep(bs, p, vols, count);
    var sized := Sized(Bank(p, blocks), count);
    AllThere(sized.pool, vols[CURRENT := sized.blocks]);
    ResizedThaws(p, blocks, sized, keep, bs);
    var thawed := Thaw(sized, 0, count, bs);
    PutSize(thawed.pool, thawed.blocks, SizeAll(bs, ChunksOf(thawed.pool, thawed.blocks), n));
    assert blocks == blocks[..keep] + blocks[keep..];
    FrozenAppend(blocks[..keep], blocks[keep..]);
    forall id | id in p && !CutFree(blocks, keep, id)
      ensures id in thawed.pool && thawed.pool[id].links == p[id].links
    {
      assert Kept(p, sized.pool, id) && Kept(sized.pool, thawed.pool, id);
    }
  }

  /** A write in the resizing mode does to the block list what resizing to its end does, and no more. */
  lemma ResizingWriteCopies(bs: nat, b: Bank, offset: nat, d: Bytes)
    requires bs > 0 && d != [] && WriteBank(bs, b, offset, d, true).Ok?
    ensures var (r, w), sized := WriteBank(bs, b, offset, d, true).value, TruncateBank(bs, b, offset + |d|);
            && w == |d| && r.blocks == sized.blocks && r.pool.Keys == sized.pool.Keys
            && (forall id :: id in sized.pool ==> r.pool[id].links == sized.pool[id].links)
  {
    hide TruncateBank, WriteAt, Put;
    var sized := TruncateBank(bs, b, offset + |d|);
    if offset / bs < |sized.blocks| {
      PutSize(sized.pool, sized.blocks, WriteAt(bs, ChunksOf(sized.pool, sized.blocks), offset, d, true));
    }
  }

  /** A write of nothing does nothing, in either mode. */
  lemma NothingWritten(bs: nat, b: Bank, offset: nat, resize: bool)
    requires bs > 0
    ensures WriteBank(bs, b, offset, [], resize) == Ok((b, 0))
  {
  }
}
