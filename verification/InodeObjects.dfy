// Inodes as objects: per version a block list, changed in place together with the shared buffer pool.
module InodeObjects {
  import opened ByteStrings
  import opened Buffers
  import opened Chunks
  import opened FreeIds
  import opened Blocks
  import opened Inodes
  import opened Snapshots
  import opened BlockLoops
  import opened Pools

  lemma AppendLoaded(b: Bank)
    requires Loaded(b.pool, b.blocks)
    ensures var a := Append(b); Loaded(a.pool, a.blocks)
  {
  }

  lemma PopLoaded(b: Bank)
    requires Loaded(b.pool, b.blocks) && b.blocks != []
    ensures var a := Pop(b); Loaded(a.pool, a.blocks)
  {
  }

  lemma ThawLoaded(b: Bank, k: nat, bs: nat)
    requires Loaded(b.pool, b.blocks) && k < |b.blocks|
    ensures var a := ThawAt(b, k, bs); Loaded(a.pool, a.blocks)
  {
  }

  /** Allocating a buffer and writing `d` into it allocates `d`. */
  lemma AllocAndFill(p: Pool, d: Bytes)
    ensures var id, q := FreeId(p.Keys), Alloc(p, []);
            && id in q
            && q[id := q[id].(data := BufWrite(q[id].data, d, 0, true))] == Alloc(p, d)
  {
    assert BufWrite([], d, 0, true) == d;
  }

  /** The two size comparisons of truncate() are comparisons of block counts. */
  lemma CountOfBlocks(have: nat, n: nat, bs: nat)
    requires bs > 0
    ensures have * bs < n ==> have < BlockCount(n, bs) && BlockCount(n - have * bs, bs) == BlockCount(n, bs) - have
    ensures have * bs >= n ==> BlockCount(n, bs) <= have
  {
    if have * bs < n {
      BlockCountShift(have, n - have * bs, bs);
      BlockCountStep(n - have * bs, bs);
      PositiveCount(n - have * bs, bs);
    } else {
      DivMod(n, bs);
      var q := n / bs;
      if q >= have {
        Mono(have, q, bs);
        assert q > have ==> (have + 1) * bs <= q * bs by { if q > have { Mono(have + 1, q, bs); } }
        assert (have + 1) * bs == have * bs + bs;
      }
    }
  }

  lemma PositiveCount(n: nat, bs: nat)
    requires bs > 0 && n > 0
    ensures BlockCount(n, bs) > 0
  {
    DivMod(n, bs);
  }

  /** Where block `i` of a file of `n` bytes starts, and how much of it is used. */
  lemma LaterBlock(bs: nat, n: nat, i: nat, full: nat, last: nat)
    requires bs > 0 && 1 <= i <= full + 1
    requires n == Min(bs, n) + full * bs + last && last < bs && (n <= bs ==> full == 0 && last == 0)
    requires i == full + 1 ==> last > 0
    ensures i * bs < n && Min(bs, n - i * bs) == if i <= full then bs else last
  {
    assert n > bs;
    assert (full + 1) * bs == full * bs + bs;
    if i <= full {
      Mono(i + 1, full + 1, bs);
      assert (i + 1) * bs == i * bs + bs;
    }
  }

  /** Block `i` of a resized file. */
  lemma ResizedBlock(bs: nat, cs: seq<Bytes>, n: nat, i: nat, full: nat, last: nat)
    requires bs > 0 && 1 <= i <= full + 1 && i < |cs|
    requires n == Min(bs, n) + full * bs + last && last < bs && (n <= bs ==> full == 0 && last == 0)
    requires i == full + 1 ==> last > 0
    ensures SizeAll(bs, cs, n)[i] == Resize(cs[i], if i <= full then bs else last)
  {
    LaterBlock(bs, n, i, full, last);
    SizeAllAt(bs, cs, n, i);
  }

  lemma SizeSplits(bs: nat, n: nat, first: nat, full: nat, last: nat)
    requires bs > 0 && n > 0 && first == Min(bs, n) && full == (n - first) / bs && last == (n - first) % bs
    ensures last < bs && n == first + full * bs + last && (n <= bs ==> full == 0 && last == 0)
    ensures BlockCount(n, bs) == 1 + full + if last > 0 then 1 else 0
  {
    hide BlockCount;
    SplitLength(bs, 0, n);
  }

  /** Fitting the list and resizing the blocks is what truncate() does. */
  lemma TruncateIs(bs: nat, b: Bank, n: nat)
    requires bs > 0
    ensures var t := Thaw(Sized(b, BlockCount(n, bs)), 0, BlockCount(n, bs), bs);
            && |t.blocks| == BlockCount(n, bs)
            && TruncateBank(bs, b, n) ==
               Bank(Put(t.pool, t.blocks, SizeAll(bs, ChunksOf(t.pool, t.blocks), n)), t.blocks)
            && (n == 0 ==> TruncateBank(bs, b, n) == t)
  {
    hide Sized, Thaw, Put;
    var t := Thaw(Sized(b, BlockCount(n, bs)), 0, BlockCount(n, bs), bs);
    PutSelf(t.pool, t.blocks);
  }

  lemma NoBytes()
    ensures forall cs: seq<Bytes> :: Flatten(cs[..0]) == []
  {
  }

  lemma RestPiece(bs: nat, d: Bytes, at: nat, last: nat)
    requires |d| == at + last && 0 < last < bs
    ensures Piece(bs, d, at) == d[at..]
  {
  }

  lemma StartsInside(bs: nat, offset: nat, n: nat)
    requires bs > 0 && n > 0
    ensures offset / bs < BlockCount(offset + n, bs)
  {
    DivMod(offset, bs);
    BlockCountShift(offset / bs, offset % bs + n, bs);
    PositiveCount(offset % bs + n, bs);
  }

  /** The range of blocks that a write inside the file touches; it is empty if the start has no block. */
  lemma FixedRange(bs: nat, cs: seq<Bytes>, offset: nat, n: nat)
    requires bs > 0 && Shaped(bs, cs) && offset + n <= |Flatten(cs)|
    ensures offset / bs <= BlockCount(offset + n, bs) <= |cs|
    ensures offset / bs >= |cs| ==> offset / bs == BlockCount(offset + n, bs)
  {
    hide Shaped, Flatten;
    LastBlock(bs, cs, offset + n);
    DivMod(offset, bs);
    BlockCountShift(offset / bs, offset % bs + n, bs);
  }

  lemma ThawNothing(b: Bank, k: nat, bs: nat)
    requires k <= |b.blocks|
    ensures Thaw(b, k, k, bs) == b
  {
  }

  /** Copying frozen blocks changes no contents. */
  lemma {:induction false} ThawKeeps(b: Bank, lo: nat, hi: nat, bs: nat)
    requires bs > 0 && Loaded(b.pool, b.blocks) && hi <= |b.blocks| && Shaped(bs, ChunksOf(b.pool, b.blocks))
    ensures var t := Thaw(b, lo, hi, bs); ChunksOf(t.pool, t.blocks) == ChunksOf(b.pool, b.blocks)
    decreases hi - lo
  {
    hide Shaped;
    if lo < hi {
      ShapedCount(bs, ChunksOf(b.pool, b.blocks));
      assert ChunksOf(b.pool, b.blocks)[lo] in ChunksOf(b.pool, b.blocks);
      ThawLoaded(b, lo, bs);
      ThawKeepsOne(b, lo, bs);
      hide Loaded, ThawAt;
      ThawKeeps(ThawAt(b, lo, bs), lo + 1, hi, bs);
    }
  }

  lemma ThawKeepsOne(b: Bank, k: nat, bs: nat)
    requires Loaded(b.pool, b.blocks) && k < |b.blocks| && |DataAt(b.pool, b.blocks[k].id)| <= bs
    ensures var t := ThawAt(b, k, bs); ChunksOf(t.pool, t.blocks) == ChunksOf(b.pool, b.blocks)
  {
    BufReadAll(DataAt(b.pool, b.blocks[k].id), bs);
    var t := ThawAt(b, k, bs);
    forall j | 0 <= j < |b.blocks|
      ensures DataAt(t.pool, t.blocks[j].id) == DataAt(b.pool, b.blocks[j].id)
    {
    }
  }

  /** The block list while it is being frozen. */
  function HalfFrozen(blocks: seq<BlockRef>, i: nat): (r: seq<BlockRef>)
    requires i <= |blocks|
    ensures |r| == |blocks|
  {
    Freeze(blocks[..i]) + blocks[i..]
  }

  lemma FreezeEnds(blocks: seq<BlockRef>)
    ensures HalfFrozen(blocks, 0) == blocks && Freeze(blocks[..0]) == []
    ensures HalfFrozen(blocks, |blocks|) == Freeze(blocks[..|blocks|])
  {
  }

  /** Linking blocks up to the first one that the pool does not have: the pool then, and how many were linked. */
  function LinkSome(pool: Pool, blocks: seq<BlockRef>): (r: (Pool, nat))
    ensures r.1 <= |blocks|
    ensures LinkAll(pool, blocks) == if r.1 == |blocks| then Ok(r.0) else Err(BufferNotFound)
  {
    if blocks == [] || blocks[0].id !in pool then (pool, 0)
    else
      var (q, n) := LinkSome(Link(pool, blocks[0].id), blocks[1..]);
      (q, n + 1)
  }

  function UnlinkSome(pool: Pool, blocks: seq<BlockRef>): (r: (Pool, nat))
    ensures r.1 <= |blocks|
    ensures UnlinkAll(pool, blocks) == if r.1 == |blocks| then Ok(r.0) else Err(BufferNotFound)
  {
    if blocks == [] || blocks[0].id !in pool then (pool, 0)
    else
      var (q, n) := UnlinkSome(Unlink(pool, blocks[0].id), blocks[1..]);
      (q, n + 1)
  }

  lemma LinkNext(pool: Pool, blocks: seq<BlockRef>, i: nat)
    requires i < |blocks|
    ensures blocks[i].id in pool ==>
              var (q, n) := LinkSome(Link(pool, blocks[i].id), blocks[i + 1..]);
                LinkSome(pool, blocks[i..]) == (q, n + 1)
    ensures blocks[i].id !in pool ==> LinkSome(pool, blocks[i..]) == (pool, 0) && Link(pool, blocks[i].id) == pool
  {
    assert blocks[i..][1..] == blocks[i + 1..];
  }

  lemma UnlinkNext(pool: Pool, blocks: seq<BlockRef>, i: nat)
    requires i < |blocks|
    ensures blocks[i].id in pool ==>
              var (q, n) := UnlinkSome(Unlink(pool, blocks[i].id), blocks[i + 1..]);
                UnlinkSome(pool, blocks[i..]) == (q, n + 1)
    ensures blocks[i].id !in pool ==> UnlinkSome(pool, blocks[i..]) == (pool, 0) && Unlink(pool, blocks[i].id) == pool
  {
    assert blocks[i..][1..] == blocks[i + 1..];
  }

  lemma NoneLeft(pool: Pool, blocks: seq<BlockRef>)
    ensures LinkSome(pool, blocks[|blocks|..]) == (pool, 0) && UnlinkSome(pool, blocks[|blocks|..]) == (pool, 0)
  {
  }

  lemma FreezeNext(blocks: seq<BlockRef>, i: nat)
    requires i < |blocks|
    ensures HalfFrozen(blocks, i)[i] == blocks[i]
    ensures HalfFrozen(blocks, i)[i := blocks[i].(frozen := true)] == HalfFrozen(blocks, i + 1)
    ensures Freeze(blocks[..i]) + [blocks[i].(frozen := true)] == Freeze(blocks[..i + 1])
  {
  }

  /** All blocks frozen, and shared with the new volume. */
  lemma VolumeAdded(vols: Vols, version: Version)
    requires CURRENT in vols
    ensures var blocks := vols[CURRENT];
            vols[CURRENT := HalfFrozen(blocks, |blocks|)][version := Freeze(blocks[..|blocks|])] ==
              AddVolume(vols, version)
  {
    FreezeEnds(vols[CURRENT]);
    assert vols[CURRENT][..|vols[CURRENT]|] == vols[CURRENT];
  }

  class Inode {
    const blockSize: nat
    const filesystem: BufferPool
    const isDir: bool
    var bufferMap: map<Version, seq<BlockRef>>

    ghost predicate Valid()
      reads this, filesystem, filesystem.Repr
    {
      && blockSize > 0
      && this !in filesystem.Repr
      && filesystem.Valid()
      && CURRENT in bufferMap
    }

    ghost function CurrentBank(): Bank
      requires Valid()
      reads this, filesystem, filesystem.Repr
    {
      Bank(filesystem.Packs(), bufferMap[CURRENT])
    }

    /** The blocks of a version are there, each once. */
    ghost predicate LoadedAt(version: Version)
      requires Valid()
      reads this, filesystem, filesystem.Repr
    {
      version in bufferMap ==> Loaded(filesystem.Packs(), bufferMap[version])
    }

    /** The blocks of a version are full but for the last. */
    ghost predicate ShapedAt(version: Version)
      requires Valid()
      reads this, filesystem, filesystem.Repr
    {
      version in bufferMap ==> Shaped(blockSize, ChunksOf(filesystem.Packs(), bufferMap[version]))
    }

    /** The current blocks `lo` to `hi - 1` may be changed. */
    ghost predicate NoneFrozen(lo: nat, hi: nat)
      requires CURRENT in bufferMap
      reads this
    {
      forall k :: lo <= k < hi && k < |bufferMap[CURRENT]| ==> !bufferMap[CURRENT][k].frozen
    }

    constructor (blockSize: nat, filesystem: BufferPool, isDir: bool)
      requires blockSize > 0 && filesystem.Valid()
      ensures Valid() && this.blockSize == blockSize && this.filesystem == filesystem && this.isDir == isDir
      ensures bufferMap == map[CURRENT := []]
    {
      this.blockSize := blockSize;
      this.filesystem := filesystem;
      this.isDir := isDir;
      bufferMap := map[CURRENT := []];
    }

    // ---- The loops of truncate() ----

    method AppendBlock()
      requires Valid() && LoadedAt(CURRENT)
      modifies this`bufferMap, filesystem.Repr
      ensures Valid() && fresh(filesystem.Repr - old(filesystem.Repr)) && LoadedAt(CURRENT)
      ensures bufferMap == old(bufferMap)[CURRENT := bufferMap[CURRENT]]
      ensures CurrentBank() == Append(old(CurrentBank()))
    {
      hide Loaded, BufferPool.Valid, BufferPool.Packs, Alloc, FreeId;
      AppendLoaded(CurrentBank());
      var id := filesystem.RequestBufferAllocation();
      bufferMap := bufferMap[CURRENT := bufferMap[CURRENT] + [BlockRef(id, false)]];
    }

    method AppendBlocks(count: nat)
      requires Valid() && LoadedAt(CURRENT)
      modifies this`bufferMap, filesystem.Repr
      ensures Valid() && fresh(filesystem.Repr - old(filesystem.Repr)) && LoadedAt(CURRENT)
      ensures bufferMap == old(bufferMap)[CURRENT := bufferMap[CURRENT]]
      ensures CurrentBank() == Grow(old(CurrentBank()), count)
    {
      hide Loaded, LoadedAt, BufferPool.Valid, BufferPool.Packs, Append;
      for i := 0 to count
        invariant Valid() && fresh(filesystem.Repr - old(filesystem.Repr)) && LoadedAt(CURRENT)
        invariant bufferMap == old(bufferMap)[CURRENT := bufferMap[CURRENT]]
        invariant Grow(CurrentBank(), count - i) == Grow(old(CurrentBank()), count)
      {
        AppendBlock();
      }
    }

    method DropBlock()
      requires Valid() && LoadedAt(CURRENT) && bufferMap[CURRENT] != []
      modifies this`bufferMap, filesystem.Repr
      ensures Valid() && filesystem.Repr == old(filesystem.Repr) && LoadedAt(CURRENT)
      ensures bufferMap == old(bufferMap)[CURRENT := bufferMap[CURRENT]]
      ensures CurrentBank() == Pop(old(CurrentBank()))
    {
      hide BufferPool.Valid, BufferPool.Packs, Lose, Unlink;
      PopLoaded(CurrentBank());
      var last := bufferMap[CURRENT][|bufferMap[CURRENT]| - 1];
      assert last.id in filesystem.Packs();
      hide Loaded;
      if last.frozen {
        filesystem.LoseRef(last.id);
      } else {
        var ok := filesystem.UnlinkBuffer(last.id);
        assert ok;
      }
      bufferMap := bufferMap[CURRENT := bufferMap[CURRENT][..|bufferMap[CURRENT]| - 1]];
    }

    method DropBlocks(count: nat)
      requires Valid() && LoadedAt(CURRENT) && count <= |bufferMap[CURRENT]|
      modifies this`bufferMap, filesystem.Repr
      ensures Valid() && filesystem.Repr == old(filesystem.Repr) && LoadedAt(CURRENT)
      ensures bufferMap == old(bufferMap)[CURRENT := bufferMap[CURRENT]]
      ensures CurrentBank() == Shrink(old(CurrentBank()), count)
    {
      hide Loaded, LoadedAt, BufferPool.Valid, BufferPool.Packs, Lose, Unlink;
      for i := 0 to count
        invariant Valid() && filesystem.Repr == old(filesystem.Repr) && LoadedAt(CURRENT)
        invariant bufferMap == old(bufferMap)[CURRENT := bufferMap[CURRENT]]
        invariant |bufferMap[CURRENT]| == old(|bufferMap[CURRENT]|) - i
        invariant Shrink(CurrentBank(), count - i) == Shrink(old(CurrentBank()), count)
      {
        DropBlock();
      }
    }

    /** A new buffer with the bytes of a frozen one, whose reference is dropped. */
    method CopyFrozen(frozenId: nat) returns (newId: nat)
      requires Valid() && frozenId in filesystem.Packs()
      modifies filesystem.Repr
      ensures Valid() && fresh(filesystem.Repr - old(filesystem.Repr))
      ensures newId == FreeId(old(filesystem.Packs()).Keys)
      ensures filesystem.Packs() ==
              Alloc(Lose(old(filesystem.Packs()), frozenId),
                BufRead(DataAt(old(filesystem.Packs()), frozenId), blockSize, 0))
    {
      hide BufferPool.Valid, BufferPool.Packs, BufRead, BufWrite, FreeId, Alloc, Lose;
      AllocAndFill(Lose(filesystem.Packs(), frozenId), BufRead(DataAt(filesystem.Packs(), frozenId), blockSize, 0));
      var tmp := filesystem.ReadBuffer(frozenId, blockSize, 0);
      filesystem.LoseRef(frozenId);
      newId := filesystem.RequestBufferAllocation();
      var n := filesystem.WriteBuffer(newId, tmp, 0, true);
    }

    /** Replace a frozen block by a copy. */
    method ThawBlock(k: nat)
      requires Valid() && LoadedAt(CURRENT) && k < |bufferMap[CURRENT]|
      modifies this`bufferMap, filesystem.Repr
      ensures Valid() && fresh(filesystem.Repr - old(filesystem.Repr)) && LoadedAt(CURRENT)
      ensures bufferMap == old(bufferMap)[CURRENT := bufferMap[CURRENT]]
      ensures CurrentBank() == ThawAt(old(CurrentBank()), k, blockSize)
      ensures |bufferMap[CURRENT]| == old(|bufferMap[CURRENT]|) && !bufferMap[CURRENT][k].frozen
      ensures forall j :: 0 <= j < |bufferMap[CURRENT]| && j != k ==>
              bufferMap[CURRENT][j] == old(bufferMap[CURRENT][j])
    {
      hide BufferPool.Valid, BufferPool.Packs, BufRead, FreeId, Alloc, Lose;
      if bufferMap[CURRENT][k].frozen {
        ThawLoaded(CurrentBank(), k, blockSize);
        assert bufferMap[CURRENT][k].id in filesystem.Packs();
        hide Loaded;
        var newId := CopyFrozen(bufferMap[CURRENT][k].id);
        bufferMap := bufferMap[CURRENT := bufferMap[CURRENT][k := BlockRef(newId, false)]];
      }
    }

    method ThawBlocks(lo: nat, hi: nat)
      requires Valid() && LoadedAt(CURRENT) && lo <= hi <= |bufferMap[CURRENT]|
      modifies this`bufferMap, filesystem.Repr
      ensures Valid() && fresh(filesystem.Repr - old(filesystem.Repr)) && LoadedAt(CURRENT)
      ensures bufferMap == old(bufferMap)[CURRENT := bufferMap[CURRENT]]
      ensures CurrentBank() == Thaw(old(CurrentBank()), lo, hi, blockSize)
      ensures |bufferMap[CURRENT]| == old(|bufferMap[CURRENT]|)
      ensures forall j :: lo <= j < hi ==> !bufferMap[CURRENT][j].frozen
    {
      hide Loaded, LoadedAt, BufferPool.Valid, BufferPool.Packs, ThawAt;
      for i := lo to hi
        invariant Valid() && fresh(filesystem.Repr - old(filesystem.Repr)) && LoadedAt(CURRENT)
        invariant bufferMap == old(bufferMap)[CURRENT := bufferMap[CURRENT]]
        invariant |bufferMap[CURRENT]| == old(|bufferMap[CURRENT]|)
        invariant forall j :: lo <= j < i ==> !bufferMap[CURRENT][j].frozen
        invariant Thaw(CurrentBank(), i, hi, blockSize) == Thaw(old(CurrentBank()), lo, hi, blockSize)
      {
        ThawBlock(i);
      }
    }

    /** Resize block `j`, when the blocks before it are done. The block is not frozen. */
    method ResizeBlock(j: nat, length: nat, ghost p0: Pool, ghost cs: seq<Bytes>, ghost final: seq<Bytes>)
      requires Valid() && Loaded(p0, bufferMap[CURRENT]) && j < |bufferMap[CURRENT]| == |cs| == |final|
      requires !bufferMap[CURRENT][j].frozen
      requires filesystem.Packs() == Put(p0, bufferMap[CURRENT], Upto(final, cs, j))
      requires final[j] == Resize(cs[j], length)
      modifies filesystem.Repr
      ensures Valid() && filesystem.Repr == old(filesystem.Repr)
      ensures filesystem.Packs() == Put(p0, bufferMap[CURRENT], Upto(final, cs, j + 1))
    {
      hide BufferPool.Valid, BufferPool.Packs, Put, Loaded, Resize;
      PutNext(p0, bufferMap[CURRENT], cs, final, j);
      filesystem.TruncateBuffer(bufferMap[CURRENT][j].id, length);
    }

    /** Resize the first block, the full ones and the last one. */
    /** The bytes of the first block, the number of whole blocks after it, and the bytes of the last one. */
    method SplitSize(length: nat) returns (first: nat, full: nat, last: nat)
      requires blockSize > 0 && length > 0
      ensures first == Min(blockSize, length) && last < blockSize && length == first + full * blockSize + last
      ensures length <= blockSize ==> full == 0 && last == 0
      ensures BlockCount(length, blockSize) == 1 + full + if last > 0 then 1 else 0
    {
      hide BlockCount;
      first := if blockSize >= length then length else blockSize;
      full := (length - first) / blockSize;
      last := (length - first) % blockSize;
      SizeSplits(blockSize, length, first, full, last);
    }

    method ResizeBlocks(length: nat)
      requires Valid() && LoadedAt(CURRENT)
      requires length > 0 && |bufferMap[CURRENT]| == BlockCount(length, blockSize)
      requires NoneFrozen(0, |bufferMap[CURRENT]|)
      modifies filesystem.Repr
      ensures Valid() && filesystem.Repr == old(filesystem.Repr)
      ensures filesystem.Packs() == Put(old(filesystem.Packs()), bufferMap[CURRENT],
                                        SizeAll(blockSize, ChunksOf(old(filesystem.Packs()), bufferMap[CURRENT]),
                                          length))
    {
      hide BufferPool.Valid, BufferPool.Packs, Put, Loaded, Resize, SizeAll, BlockCount, Upto;
      var first, full, last := SplitSize(length);
      ghost var p0, blocks := filesystem.Packs(), bufferMap[CURRENT];
      ghost var cs := ChunksOf(p0, blocks);
      ghost var final := SizeAll(blockSize, cs, length);
      PutSelf(p0, blocks);
      UptoEnds(final, cs, 0);
      SizeAllAt(blockSize, cs, length, 0);
      ResizeBlock(0, first, p0, cs, final);
      for i := 1 to full + 1
        invariant Valid() && filesystem.Repr == old(filesystem.Repr)
        invariant filesystem.Packs() == Put(p0, blocks, Upto(final, cs, i))
      {
        ResizedBlock(blockSize, cs, length, i, full, last);
        ResizeBlock(i, blockSize, p0, cs, final);
      }
      if last > 0 {
        ResizedBlock(blockSize, cs, length, full + 1, full, last);
        ResizeBlock(full + 1, last, p0, cs, final);
      }
      UptoEnds(final, cs, |cs|);
    }

    /** Bring the block list to the length that `length` bytes need, and copy every frozen block in it. */
    method FitBlocks(length: nat)
      requires Valid() && LoadedAt(CURRENT)
      modifies this`bufferMap, filesystem.Repr
      ensures Valid() && fresh(filesystem.Repr - old(filesystem.Repr)) && LoadedAt(CURRENT)
      ensures bufferMap == old(bufferMap)[CURRENT := bufferMap[CURRENT]]
      ensures NoneFrozen(0, |bufferMap[CURRENT]|)
      ensures CurrentBank() == Thaw(Sized(old(CurrentBank()), BlockCount(length, blockSize)), 0,
              BlockCount(length, blockSize), blockSize)
    {
      hide BufferPool.Valid, BufferPool.Packs, Loaded, LoadedAt, Grow, Shrink, Thaw;
      var currentBankSize := |bufferMap[CURRENT]| * blockSize;
      CountOfBlocks(|bufferMap[CURRENT]|, length, blockSize);
      if currentBankSize < length {
        var wanted := length - currentBankSize;
        AppendBlocks(wanted / blockSize + if wanted % blockSize != 0 then 1 else 0);
        ThawBlocks(0, |bufferMap[CURRENT]|);
      } else {
        var count := length / blockSize + if length % blockSize != 0 then 1 else 0;
        DropBlocks(|bufferMap[CURRENT]| - count);
        ThawBlocks(0, count);
      }
    }

    /** Cut or zero-extend the current contents to `length` bytes. */
    method Truncate(length: nat)
      requires Valid() && LoadedAt(CURRENT)
      modifies this`bufferMap, filesystem.Repr
      ensures Valid() && fresh(filesystem.Repr - old(filesystem.Repr)) && LoadedAt(CURRENT)
      ensures bufferMap == old(bufferMap)[CURRENT := bufferMap[CURRENT]]
      ensures CurrentBank() == TruncateBank(blockSize, old(CurrentBank()), length)
      ensures NoneFrozen(0, |bufferMap[CURRENT]|)
    {
      hide BufferPool.Valid, BufferPool.Packs, Put, Loaded, SizeAll, BlockCount, Thaw, Sized;
      FitBlocks(length);
      ghost var fitted := CurrentBank();
      ghost var cs := SizeAll(blockSize, ChunksOf(fitted.pool, fitted.blocks), length);
      TruncateIs(blockSize, old(CurrentBank()), length);
      PutLoaded(fitted.pool, fitted.blocks, cs);
      if length == 0 {
        return;
      }
      ResizeBlocks(length);
    }

    // ---- read() ----

    method CurrentDataSize(version: Version) returns (r: Result<nat>)
      requires Valid() && LoadedAt(version)
      ensures r == if version in bufferMap then Ok(|Content(filesystem.Packs(), bufferMap[version])|)
              else Err(NoSuchSnapshot)
    {
      if version !in bufferMap {
        return Err(NoSuchSnapshot);
      }
      hide BufferPool.Valid, BufferPool.Packs, Flatten;
      ghost var cs := ChunksOf(filesystem.Packs(), bufferMap[version]);
      var size := 0;
      NoBytes();
      for i := 0 to |bufferMap[version]|
        invariant size == |Flatten(cs[..i])|
      {
        SizeStep(cs, i);
        var n := filesystem.Size(bufferMap[version][i].id);
        size := size + n;
      }
      assert cs[..|cs|] == cs;
      return Ok(size);
    }

    /** Where a range of `n` bytes starts, and how it falls into blocks. */
    method SplitRange(offset: nat, n: nat) returns (start: nat, inner: nat, first: nat, full: nat, last: nat)
      requires blockSize > 0
      ensures start == offset / blockSize && inner == offset % blockSize && first == Min(blockSize - inner, n)
      ensures Spans(blockSize, offset, n, full, last)
    {
      start, inner := offset / blockSize, offset % blockSize;
      first := if blockSize - inner >= n then n else blockSize - inner;
      var remaining := n - first;
      full, last := remaining / blockSize, remaining % blockSize;
      SpansOf(blockSize, offset, n);
    }

    /** Read from one block, which must not come out short. */
    method ReadBlock(version: Version, k: nat, length: nat, at: nat) returns (out: Bytes)
      requires Valid() && version in bufferMap && LoadedAt(version) && k < |bufferMap[version]|
      requires at + length <= |ChunksOf(filesystem.Packs(), bufferMap[version])[k]|
      ensures out == BufRead(ChunksOf(filesystem.Packs(), bufferMap[version])[k], length, at) && |out| == length
    {
      hide BufferPool.Valid, BufferPool.Packs, BufRead;
      out := filesystem.ReadBuffer(bufferMap[version][k].id, length, at);
    }

    /** Read full blocks, one after the other. */
    method ReadWhole(version: Version, start: nat, count: nat) returns (out: Bytes)
      requires Valid() && version in bufferMap && LoadedAt(version) && start + count <= |bufferMap[version]|
      requires forall k :: start <= k < start + count ==>
               blockSize <= |ChunksOf(filesystem.Packs(), bufferMap[version])[k]|
      ensures out == WholeBlocks(blockSize, ChunksOf(filesystem.Packs(), bufferMap[version]), start, count)
    {
      hide BufferPool.Valid, BufferPool.Packs, Loaded, LoadedAt, BufRead;
      out := [];
      for i := 0 to count
        invariant out == WholeBlocks(blockSize, ChunksOf(filesystem.Packs(), bufferMap[version]), start, i)
      {
        var piece := ReadBlock(version, start + i, blockSize, 0);
        out := out + piece;
      }
    }

    /** Read `n` bytes that the blocks have. No block operation comes out short. */
    method ReadBlocks(version: Version, offset: nat, n: nat) returns (out: Bytes)
      requires Valid() && version in bufferMap && LoadedAt(version) && ShapedAt(version)
      requires offset / blockSize < |bufferMap[version]|
      requires offset + n <= |Content(filesystem.Packs(), bufferMap[version])|
      ensures out == ReadAt(blockSize, ChunksOf(filesystem.Packs(), bufferMap[version]), offset, n)
    {
      hide BufferPool.Valid, BufferPool.Packs, Loaded, LoadedAt, Flatten, Shaped, ReadAt, BufRead, BlockCount, Spans,
           WholeBlocks;
      var start, inner, first, full, last := SplitRange(offset, n);
      ghost var cs := ChunksOf(filesystem.Packs(), bufferMap[version]);
      ReadPlan(blockSize, cs, offset, n, start, inner, first, full, last);
      ghost var p := filesystem.Packs();
      out := ReadBlock(version, start, first, inner);
      assert Valid() && filesystem.Packs() == p;
      var whole := ReadWhole(version, start + 1, full);
      assert Valid() && filesystem.Packs() == p;
      out := out + whole;
      if last > 0 {
        var piece := ReadBlock(version, start + full + 1, last, 0);
        out := out + piece;
      }
    }

    method Read(version: Version, length: nat, offset: nat) returns (r: Result<Bytes>)
      requires Valid() && LoadedAt(version) && ShapedAt(version)
      ensures r == if length == 0 then Ok([])
                   else if version !in bufferMap then Err(NoSuchSnapshot)
                   else ReadBank(blockSize, Bank(filesystem.Packs(), bufferMap[version]), length, offset)
    {
      hide BufferPool.Valid, BufferPool.Packs, Flatten, Shaped, Loaded, ReadAt;
      if length == 0 {
        return Ok([]);
      }
      if version !in bufferMap {
        return Err(NoSuchSnapshot);
      }
      var size := CurrentDataSize(version);
      var readSize;
      if offset > size.value {
        return Ok([]);
      } else if offset + length > size.value {
        readSize := size.value - offset;
      } else {
        readSize := length;
      }
      if offset / blockSize >= |bufferMap[version]| {
        return Err(OutOfRange);
      }
      var out := ReadBlocks(version, offset, readSize);
      return Ok(out);
    }

    method ToString(version: Version) returns (r: Result<Bytes>)
      requires Valid() && LoadedAt(version) && ShapedAt(version)
      ensures r == if version !in bufferMap then Err(NoSuchSnapshot)
                   else BankToString(blockSize, Bank(filesystem.Packs(), bufferMap[version]))
    {
      hide BufferPool.Valid, BufferPool.Packs, Flatten, Shaped, ReadBank;
      var size := CurrentDataSize(version);
      if size.Err? {
        return Err(size.error);
      }
      if size.value == 0 {
        return Ok([]);
      }
      r := Read(version, blockSize * |bufferMap[version]| + 1, 0);
      if r.Ok? && |r.value| != size.value {
        r := Err(ShortOps);
      }
    }

    // ---- write() ----

    /**
      * Write into block `j`, when the blocks before it are done. The block is not frozen, and the operation does not
      * come out short.
      */
    method WriteBlock(j: nat, src: Bytes, at: nat, resize: bool, ghost p0: Pool, ghost cs: seq<Bytes>,
                      ghost final: seq<Bytes>)
      requires Valid() && Loaded(p0, bufferMap[CURRENT]) && j < |bufferMap[CURRENT]| == |cs| == |final|
      requires filesystem.Packs() == Put(p0, bufferMap[CURRENT], Upto(final, cs, j))
      requires final[j] == BufWrite(cs[j], src, at, resize)
      requires !bufferMap[CURRENT][j].frozen
      requires !resize ==> at + |src| <= |cs[j]|
      modifies filesystem.Repr
      ensures Valid() && filesystem.Repr == old(filesystem.Repr)
      ensures filesystem.Packs() == Put(p0, bufferMap[CURRENT], Upto(final, cs, j + 1))
    {
      hide BufferPool.Valid, BufferPool.Packs, Put, Loaded, BufWrite, Upto;
      PutNext(p0, bufferMap[CURRENT], cs, final, j);
      var n := filesystem.WriteBuffer(bufferMap[CURRENT][j].id, src, at, resize);
      assert n == |src|;
    }

    /** Write `count` whole blocks from block `start` on, with the bytes of `buffer` after the first `first`. */
    method WriteWhole(start: nat, count: nat, buffer: Bytes, first: nat, resize: bool,
                      ghost p0: Pool, ghost cs: seq<Bytes>, ghost final: seq<Bytes>)
      requires Valid() && Loaded(p0, bufferMap[CURRENT]) && start + count <= |bufferMap[CURRENT]| == |cs| == |final|
      requires filesystem.Packs() == Put(p0, bufferMap[CURRENT], Upto(final, cs, start))
      requires NoneFrozen(start, start + count) && StartOf(blockSize, first, count) <= |buffer|
      requires forall i :: 0 <= i < count ==>
                 final[start + i] == BufWrite(cs[start + i], Piece(blockSize, buffer, StartOf(blockSize, first, i)),
                   0, resize)
      requires !resize ==> forall k :: start <= k < start + count ==> blockSize <= |cs[k]|
      modifies filesystem.Repr
      ensures Valid() && filesystem.Repr == old(filesystem.Repr)
      ensures filesystem.Packs() == Put(p0, bufferMap[CURRENT], Upto(final, cs, start + count))
    {
      hide BufferPool.Valid, BufferPool.Packs, Put, Loaded, BufWrite, Upto;
      for i := 0 to count
        invariant Valid() && filesystem.Repr == old(filesystem.Repr)
        invariant filesystem.Packs() == Put(p0, bufferMap[CURRENT], Upto(final, cs, start + i))
      {
        StartNext(blockSize, first, i, count);
        var at := StartOf(blockSize, first, i);
        WriteBlock(start + i, buffer[at..at + blockSize], 0, resize, p0, cs, final);
      }
    }

    /** Write the first block, the whole ones and the last one. */
    method WriteParts(start: nat, inner: nat, first: nat, full: nat, last: nat, buffer: Bytes, resize: bool,
                      ghost p0: Pool, ghost cs: seq<Bytes>, ghost final: seq<Bytes>)
      requires Valid() && Loaded(p0, bufferMap[CURRENT]) && |bufferMap[CURRENT]| == |cs|
      requires WritePlan(blockSize, cs, buffer, resize, final, start, inner, first, full, last)
      requires NoneFrozen(start, start + full + if last > 0 then 2 else 1)
      requires filesystem.Packs() == Put(p0, bufferMap[CURRENT], Upto(final, cs, start))
      modifies filesystem.Repr
      ensures Valid() && filesystem.Repr == old(filesystem.Repr)
      ensures filesystem.Packs() ==
              Put(p0, bufferMap[CURRENT], Upto(final, cs, start + full + if last > 0 then 2 else 1))
    {
      hide BufferPool.Valid, BufferPool.Packs, Put, Loaded, BufWrite, Upto, StartOf, Piece;
      WriteBlock(start, buffer[..first], inner, resize, p0, cs, final);
      WriteWhole(start + 1, full, buffer, first, resize, p0, cs, final);
      if last > 0 {
        var at := StartOf(blockSize, first, full);
        RestPiece(blockSize, buffer, at, last);
        WriteBlock(start + 1 + full, buffer[at..], 0, resize, p0, cs, final);
      }
    }

    /** Write into blocks that the list has. No block operation comes out short. */
    method WriteBlocks(buffer: Bytes, offset: nat, resize: bool)
      requires Valid() && LoadedAt(CURRENT)
      requires offset / blockSize < |bufferMap[CURRENT]|
               && BlockCount(offset + |buffer|, blockSize) <= |bufferMap[CURRENT]|
      requires resize ==> buffer != []
      requires offset % blockSize + |buffer| > 0
               && NoneFrozen(offset / blockSize, BlockCount(offset + |buffer|, blockSize))
      requires !resize ==> ShapedAt(CURRENT) && offset + |buffer| <= |Content(filesystem.Packs(), bufferMap[CURRENT])|
      modifies filesystem.Repr
      ensures Valid() && filesystem.Repr == old(filesystem.Repr)
      ensures CurrentBank() == PutBank(blockSize, old(CurrentBank()), offset, buffer, resize)
    {
      hide BufferPool.Valid, BufferPool.Packs, Put, Loaded, Upto, Shaped, Flatten, BlockCount, WriteAt, Spans,
           WritePlan;
      var start, inner, first, full, last := SplitRange(offset, |buffer|);
      ghost var p0, blocks := filesystem.Packs(), bufferMap[CURRENT];
      ghost var cs := ChunksOf(p0, blocks);
      ghost var final := WriteAt(blockSize, cs, offset, buffer, resize);
      PlanWrite(blockSize, cs, offset, buffer, resize, start, inner, first, full, last);
      PutSelf(p0, blocks);
      PlanInside(blockSize, cs, buffer, resize, final, start, inner, first, full, last);
      TouchedBlocks(blockSize, offset, |buffer|, full, last);
      WriteParts(start, inner, first, full, last, buffer, resize, p0, cs, final);
    }

    /** write() with resizing: the file is first cut or extended to end where the data ends. */
    method WriteResizing(buffer: Bytes, offset: nat)
      requires Valid() && LoadedAt(CURRENT) && buffer != []
      modifies this`bufferMap, filesystem.Repr
      ensures Valid() && fresh(filesystem.Repr - old(filesystem.Repr))
      ensures bufferMap == old(bufferMap)[CURRENT := bufferMap[CURRENT]]
      ensures ResizingWrite(blockSize, old(CurrentBank()), offset, buffer) == Ok((CurrentBank(), |buffer|))
    {
      hide BufferPool.Valid, BufferPool.Packs, LoadedAt, TruncateBank, PutBank, BlockCount;
      StartsInside(blockSize, offset, |buffer|);
      Truncate(offset + |buffer|);
      WriteBlocks(buffer, offset, true);
    }

    /** Copy the frozen blocks that the write touches, then overwrite; the start may have no block. */
    method Overwrite(buffer: Bytes, offset: nat) returns (ok: bool)
      requires Valid() && LoadedAt(CURRENT) && ShapedAt(CURRENT)
      requires offset + |buffer| <= |Content(filesystem.Packs(), bufferMap[CURRENT])|
      requires buffer == [] ==> offset == |Content(filesystem.Packs(), bufferMap[CURRENT])|
      modifies this`bufferMap, filesystem.Repr
      ensures Valid() && fresh(filesystem.Repr - old(filesystem.Repr))
      ensures bufferMap == old(bufferMap)[CURRENT := bufferMap[CURRENT]]
      ensures ok <==> offset / blockSize < old(|bufferMap[CURRENT]|)
      ensures BlockCount(offset + |buffer|, blockSize) <= old(|bufferMap[CURRENT]|)
      ensures CurrentBank() == if ok then Overwritten(blockSize, old(CurrentBank()), offset, buffer)
              else old(CurrentBank())
    {
      hide BufferPool.Valid, BufferPool.Packs, Loaded, Shaped, Flatten, PutBank, BlockCount, Thaw;
      var lo := offset / blockSize;
      var hi := CountBlocks(offset + |buffer|);
      FixedRange(blockSize, ChunksOf(filesystem.Packs(), bufferMap[CURRENT]), offset, |buffer|);
      if buffer == [] { EndOfBlocks(blockSize, ChunksOf(filesystem.Packs(), bufferMap[CURRENT]), offset); }
      ThawKeeps(CurrentBank(), lo, hi, blockSize);
      ThawBlocks(lo, hi);
      if lo >= |bufferMap[CURRENT]| {
        ThawNothing(old(CurrentBank()), lo, blockSize);
        return false;
      }
      WriteBlocks(buffer, offset, false);
      return true;
    }

    method CountBlocks(n: nat) returns (count: nat)
      requires blockSize > 0
      ensures count == BlockCount(n, blockSize)
    {
      count := n / blockSize + if n % blockSize != 0 then 1 else 0;
    }

    /** write() without resizing: what does not fit is not written. */
    method WriteFixed(buffer: Bytes, offset: nat) returns (r: Result<nat>)
      requires Valid() && LoadedAt(CURRENT) && ShapedAt(CURRENT) && buffer != []
      modifies this`bufferMap, filesystem.Repr
      ensures Valid() && fresh(filesystem.Repr - old(filesystem.Repr))
      ensures bufferMap == old(bufferMap)[CURRENT := bufferMap[CURRENT]]
      ensures match FixedWrite(blockSize, old(CurrentBank()), offset, buffer)
              case Err(e) => r == Err(e) && CurrentBank() == old(CurrentBank())
              case Ok((b, n)) => r == Ok(n) && CurrentBank() == b
    {
      hide BufferPool.Valid, BufferPool.Packs, LoadedAt, Shaped, Flatten, PutBank, BlockCount, Thaw;
      var size := CurrentDataSize(CURRENT);
      var writeSize;
      if offset > size.value {
        return Ok(0);
      } else if offset + |buffer| > size.value {
        writeSize := size.value - offset;
      } else {
        writeSize := |buffer|;
      }
      var ok := Overwrite(buffer[..writeSize], offset);
      return if ok then Ok(writeSize) else Err(OutOfRange);
    }

    /** `dentryOnly` is what only the directory resolver passes. */
    method Write(buffer: Bytes, offset: nat, resize: bool, dentryOnly: bool) returns (r: Result<nat>)
      requires Valid() && LoadedAt(CURRENT) && ShapedAt(CURRENT)
      modifies this`bufferMap, filesystem.Repr
      ensures Valid() && fresh(filesystem.Repr - old(filesystem.Repr))
      ensures bufferMap == old(bufferMap)[CURRENT := bufferMap[CURRENT]]
      ensures if isDir && !dentryOnly then r == Err(InvalidWriteInvoke) && CurrentBank() == old(CurrentBank())
              else
                match WriteBank(blockSize, old(CurrentBank()), offset, buffer, resize)
                case Err(e) => r == Err(e) && CurrentBank() == old(CurrentBank())
                case Ok((b, n)) => r == Ok(n) && CurrentBank() == b
    {
      hide BufferPool.Valid, BufferPool.Packs, LoadedAt, ShapedAt, ResizingWrite, FixedWrite;
      if isDir && !dentryOnly {
        return Err(InvalidWriteInvoke);
      }
      if |buffer| == 0 {
        return Ok(0);
      }
      if resize {
        WriteResizing(buffer, offset);
        return Ok(|buffer|);
      } else {
        r := WriteFixed(buffer, offset);
      }
    }

    // ---- Snapshot volumes ----

    /** Mark block `k` frozen, and give it one link more for the new volume. */
    method FreezeBlock(k: nat) returns (block: BlockRef, ok: bool)
      requires Valid() && CURRENT in bufferMap && k < |bufferMap[CURRENT]|
      modifies this`bufferMap, filesystem.Repr
      ensures Valid() && filesystem.Repr == old(filesystem.Repr)
      ensures block == old(bufferMap[CURRENT][k]).(frozen := true)
      ensures bufferMap == old(bufferMap)[CURRENT := old(bufferMap[CURRENT])[k := block]]
      ensures ok == (block.id in old(filesystem.Packs()))
      ensures filesystem.Packs() == Link(old(filesystem.Packs()), block.id)
    {
      hide BufferPool.Valid, BufferPool.Packs, Link;
      block := bufferMap[CURRENT][k].(frozen := true);
      bufferMap := bufferMap[CURRENT := bufferMap[CURRENT][k := block]];
      assert filesystem.Valid() && filesystem.Packs() == old(filesystem.Packs());
      ok := filesystem.LinkBuffer(block.id);
    }

    /** A missing block stops the loop, with that block frozen and the ones before it frozen and linked. */
    method CreateNewVolume(version: Version) returns (r: Result<()>)
      requires Valid()
      modifies this`bufferMap, filesystem.Repr
      ensures Valid() && filesystem.Repr == old(filesystem.Repr)
      ensures version in old(bufferMap) ==>
                r == Err(DoubleSnapshot) && bufferMap == old(bufferMap) && filesystem.Packs() == old(filesystem.Packs())
      ensures version !in old(bufferMap) ==>
                var blocks := old(bufferMap[CURRENT]);
                var (pool, n) := LinkSome(old(filesystem.Packs()), blocks);
                && filesystem.Packs() == pool
                && if n == |blocks| then r == Ok(()) && bufferMap == AddVolume(old(bufferMap), version)
                   else r == Err(BufferNotFound) && bufferMap == old(bufferMap)[CURRENT := HalfFrozen(blocks, n + 1)]
    {
      hide BufferPool.Valid, BufferPool.Packs, Link, LinkSome, Freeze, HalfFrozen, AddVolume;
      if version in bufferMap {
        return Err(DoubleSnapshot);
      }
      var newVolume: seq<BlockRef> := [];
      ghost var blocks := bufferMap[CURRENT];
      ghost var (pool, n) := LinkSome(filesystem.Packs(), blocks);
      FreezeEnds(blocks);
      assert blocks[0..] == blocks;
      for i := 0 to |bufferMap[CURRENT]|
        invariant Valid() && filesystem.Repr == old(filesystem.Repr)
        invariant CURRENT in bufferMap && bufferMap == old(bufferMap)[CURRENT := bufferMap[CURRENT]]
        invariant newVolume == Freeze(blocks[..i]) && bufferMap[CURRENT] == HalfFrozen(blocks, i)
        invariant i <= n && LinkSome(filesystem.Packs(), blocks[i..]) == (pool, n - i)
      {
        FreezeNext(blocks, i);
        LinkNext(filesystem.Packs(), blocks, i);
        var block, ok := FreezeBlock(i);
        newVolume := newVolume + [block];
        if !ok {
          return Err(BufferNotFound);
        }
      }
      NoneLeft(filesystem.Packs(), blocks);
      VolumeAdded(old(bufferMap), version);
      bufferMap := bufferMap[version := newVolume];
      return Ok(());
    }

    /** A missing block stops the loop, with the ones before it unlinked and the volume still there. */
    method DeleteVolume(version: Version) returns (r: Result<()>)
      requires Valid()
      modifies this`bufferMap, filesystem.Repr
      ensures Valid() && filesystem.Repr == old(filesystem.Repr)
      ensures version == CURRENT || version !in old(bufferMap) ==>
                r == Err(NoSuchSnapshot) && bufferMap == old(bufferMap) && filesystem.Packs() == old(filesystem.Packs())
      ensures version != CURRENT && version in old(bufferMap) ==>
                var blocks := old(bufferMap[version]);
                var (pool, n) := UnlinkSome(old(filesystem.Packs()), blocks);
                && filesystem.Packs() == pool
                && if n == |blocks| then r == Ok(()) && bufferMap == old(bufferMap) - {version}
                   else r == Err(BufferNotFound) && bufferMap == old(bufferMap)
    {
      hide BufferPool.Valid, BufferPool.Packs, Unlink, UnlinkSome;
      if version == CURRENT || version !in bufferMap {
        return Err(NoSuchSnapshot);
      }
      var blocks := bufferMap[version];
      ghost var (pool, n) := UnlinkSome(filesystem.Packs(), blocks);
      assert blocks[0..] == blocks;
      for i := 0 to |blocks|
        invariant Valid() && filesystem.Repr == old(filesystem.Repr) && bufferMap == old(bufferMap)
        invariant i <= n && UnlinkSome(filesystem.Packs(), blocks[i..]) == (pool, n - i)
      {
        UnlinkNext(filesystem.Packs(), blocks, i);
        var ok := filesystem.UnlinkBuffer(blocks[i].id);
        if !ok {
          return Err(BufferNotFound);
        }
      }
      NoneLeft(filesystem.Packs(), blocks);
      bufferMap := bufferMap - {version};
      return Ok(());
    }
  }
}
