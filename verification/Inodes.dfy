// read, write and truncate of one inode, and what they mean for the bytes of the file.
module Inodes {
  import opened ByteStrings
  import opened Buffers
  import opened Chunks
  import opened Blocks

  datatype Error =
    | NoSuchSnapshot
    | DoubleSnapshot
    | InvalidWriteInvoke
    | NotADirectory
    | NoSuchFileOrDir
    | DoubleMkPathname
    | InvalidDentryName
    | InodeNotFound
    | BufferNotFound
    | DirNotEmpty
    | IdDepleted
    | ShortOps
    | ReadOnlyFilesystem
    | MalformedDirectory // bytes that no directory writer produces; reading them is undefined in the source
    | OutOfRange         // the standard library's exception from .at()

  datatype Result<+T> = Ok(value: T) | Err(error: Error)

  // ---- The operations as functions of the pool and the current block list ----

  /** Append or pop blocks until there are `count`. */
  ghost function Sized(b: Bank, count: nat): (r: Bank)
    ensures |r.blocks| == count
  {
    if |b.blocks| < count then Grow(b, count - |b.blocks|) else Shrink(b, |b.blocks| - count)
  }

  ghost function TruncateBank(bs: nat, b: Bank, n: nat): (r: Bank)
    requires bs > 0
    ensures |r.blocks| == BlockCount(n, bs)
  {
    var count := BlockCount(n, bs);
    var thawed := Thaw(Sized(b, count), 0, count, bs);
    Bank(Put(thawed.pool, thawed.blocks, SizeAll(bs, ChunksOf(thawed.pool, thawed.blocks), n)), thawed.blocks)
  }

  function WriteAt(bs: nat, cs: seq<Bytes>, offset: nat, d: Bytes, resize: bool): (r: seq<Bytes>)
    requires bs > 0 && offset / bs <= |cs|
    ensures |r| == |cs|
  {
    cs[..offset / bs] + WriteAll(bs, cs[offset / bs..], offset % bs, d, resize)
  }

  /** Overwrite blocks that the list has. */
  ghost function PutBank(bs: nat, b: Bank, offset: nat, d: Bytes, resize: bool): (r: Bank)
    requires bs > 0 && offset / bs <= |b.blocks|
  {
    Bank(Put(b.pool, b.blocks, WriteAt(bs, ChunksOf(b.pool, b.blocks), offset, d, resize)), b.blocks)
  }

  /** Cut or extend the file so that it ends where `d` will end, and overwrite its end with `d`. */
  ghost function ResizingWrite(bs: nat, b: Bank, offset: nat, d: Bytes): Result<(Bank, nat)>
    requires bs > 0
  {
    var sized := TruncateBank(bs, b, offset + |d|);
    if offset / bs >= |sized.blocks| then Err(OutOfRange)
    else Ok((PutBank(bs, sized, offset, d, true), |d|))
  }

  /** Copy the frozen blocks that are touched, then overwrite. */
  ghost function Overwritten(bs: nat, b: Bank, offset: nat, d: Bytes): Bank
    requires bs > 0 && offset / bs < |b.blocks| && BlockCount(offset + |d|, bs) <= |b.blocks|
  {
    PutBank(bs, Thaw(b, offset / bs, BlockCount(offset + |d|, bs), bs), offset, d, false)
  }

  /** Overwrite what fits into the file, after copying the frozen blocks that are touched. */
  ghost function FixedWrite(bs: nat, b: Bank, offset: nat, d: Bytes): Result<(Bank, nat)>
    requires bs > 0
  {
    var size := |Content(b.pool, b.blocks)|;
    if offset > size then Ok((b, 0))
    else
      var w := Fitting(size, |d|, offset);
      if offset / bs >= |b.blocks| || BlockCount(offset + w, bs) > |b.blocks| then Err(OutOfRange)
      else Ok((Overwritten(bs, b, offset, d[..w]), w))
  }

  /** The new bank and the number of bytes written. */
  ghost function WriteBank(bs: nat, b: Bank, offset: nat, d: Bytes, resize: bool): Result<(Bank, nat)>
    requires bs > 0
  {
    if d == [] then Ok((b, 0)) else if resize then ResizingWrite(bs, b, offset, d) else FixedWrite(bs, b, offset, d)
  }

  function ReadAt(bs: nat, cs: seq<Bytes>, offset: nat, n: nat): Bytes
    requires bs > 0 && offset / bs <= |cs|
  {
    ReadAll(bs, cs[offset / bs..], offset % bs, n)
  }

  function ReadBank(bs: nat, b: Bank, length: nat, offset: nat): Result<Bytes>
    requires bs > 0
  {
    var size := |Content(b.pool, b.blocks)|;
    if length == 0 || offset > size then Ok([])
    else if offset / bs >= |b.blocks| then Err(OutOfRange)
    else Ok(ReadAt(bs, ChunksOf(b.pool, b.blocks), offset, Fitting(size, length, offset)))
  }

  function BankToString(bs: nat, b: Bank): Result<Bytes>
    requires bs > 0
  {
    var size := |Content(b.pool, b.blocks)|;
    if size == 0 then Ok([])
    else
      match ReadBank(bs, b, bs * |b.blocks| + 1, 0)
      case Err(e) => Err(e)
      case Ok(bytes) => if |bytes| != size then Err(ShortOps) else Ok(bytes)
  }

  // ---- Reading ----

  /**
    * A read delivers exactly the slice that the file has there. It fails in one case only: something is to be
    * read at the very end of a file whose blocks are all full.
    */
  lemma ReadRefines(bs: nat, b: Bank, length: nat, offset: nat)
    requires bs > 0 && Shaped(bs, ChunksOf(b.pool, b.blocks))
    ensures var bytes := Content(b.pool, b.blocks);
            ReadBank(bs, b, length, offset) ==
            if length > 0 && offset == |bytes| && offset % bs == 0 then Err(OutOfRange)
            else Ok(BufRead(bytes, length, offset))
    ensures var bytes := Content(b.pool, b.blocks);
            && (offset > |bytes| ==> ReadBank(bs, b, length, offset) == Ok([]))
            && (offset < |bytes| && length <= |bytes| - offset ==>
                  ReadBank(bs, b, length, offset) == Ok(bytes[offset..offset + length]))
            && (offset < |bytes| && length > |bytes| - offset ==>
                  ReadBank(bs, b, length, offset) == Ok(bytes[offset..]))
  {
    hide Shaped, Flatten, ReadAt;
    ReadExactly(Content(b.pool, b.blocks), length, offset);
    var cs := ChunksOf(b.pool, b.blocks);
    var bytes := Flatten(cs);
    EndOfBlocks(bs, cs, offset);
    if length != 0 && offset <= |bytes| && offset / bs < |cs| {
      ReadInside(bs, cs, offset, Fitting(|bytes|, length, offset));
    }
  }

  lemma ReadInside(bs: nat, cs: seq<Bytes>, offset: nat, n: nat)
    requires bs > 0 && Shaped(bs, cs)
    requires offset / bs < |cs| && offset + n <= |Flatten(cs)|
    ensures ReadAt(bs, cs, offset, n) == Flatten(cs)[offset..offset + n]
  {
    hide Shaped, Flatten, ReadAll;
    var k, inner := offset / bs, offset % bs;
    BlockOf(bs, cs, offset);
    var before, from := Flatten(cs[..k]), Flatten(cs[k..]);
    ReadAllRefines(bs, cs[k..], inner, n);
    assert (before + from)[|before| + inner..|before| + inner + n] == from[inner..inner + n];
  }

  /** Which offsets have a block. */
  lemma EndOfBlocks(bs: nat, cs: seq<Bytes>, offset: nat)
    requires bs > 0 && Shaped(bs, cs)
    ensures offset < |Flatten(cs)| ==> offset / bs < |cs|
    ensures offset == |Flatten(cs)| ==> (offset / bs < |cs| <==> offset % bs != 0)
    ensures offset == |Flatten(cs)| ==> |cs| == BlockCount(offset, bs)
  {
    hide Shaped, Flatten;
    ShapedCount(bs, cs);
    if offset < |Flatten(cs)| { InsideHasBlock(bs, cs, offset); }
  }

  lemma InsideHasBlock(bs: nat, cs: seq<Bytes>, offset: nat)
    requires bs > 0 && Shaped(bs, cs) && offset < |Flatten(cs)|
    ensures offset / bs < |cs|
  {
    hide Shaped, Flatten;
    DivMod(offset, bs);
    SplitAt(bs, cs, offset / bs, offset % bs);
  }

  /** The flat contents before and from block `offset / bs` on, for any offset that has a block. */
  lemma BlockOf(bs: nat, cs: seq<Bytes>, offset: nat)
    requires bs > 0 && Shaped(bs, cs)
    requires offset <= |Flatten(cs)| && offset / bs < |cs|
    ensures var k := offset / bs;
            && Shaped(bs, cs[k..])
            && |Flatten(cs[..k])| == offset - offset % bs
            && Flatten(cs) == Flatten(cs[..k]) + Flatten(cs[k..])
  {
    hide Shaped, Flatten;
    EndOfBlocks(bs, cs, offset);
    DivMod(offset, bs);
    SplitAt(bs, cs, offset / bs, 0);
  }

  lemma BankHolds(bs: nat, n: nat)
    requires bs > 0
    ensures n <= bs * BlockCount(n, bs)
  {
    DivMod(n, bs);
    var q := n / bs;
    if n % bs != 0 {
      assert bs * (q + 1) == q * bs + bs;
    }
  }

  /** to_string() delivers the whole file; the short-operation error is never raised. */
  lemma ToStringRefines(bs: nat, b: Bank)
    requires bs > 0 && Shaped(bs, ChunksOf(b.pool, b.blocks))
    ensures BankToString(bs, b) == Ok(Content(b.pool, b.blocks))
  {
    hide Shaped, Flatten, ReadBank, BlockCount;
    var cs := ChunksOf(b.pool, b.blocks);
    var bytes := Flatten(cs);
    if |bytes| != 0 {
      ShapedCount(bs, cs);
      BankHolds(bs, |bytes|);
      ReadRefines(bs, b, bs * |b.blocks| + 1, 0);
      BufReadAll(bytes, bs * |b.blocks| + 1);
    }
  }

  // ---- Accounting of the compound steps ----

  lemma {:induction false} GrowStep(p: Pool, vols: Vols, count: nat)
    requires InodeOk(p, vols)
    ensures var b := Grow(Bank(p, vols[CURRENT]), count);
            var vols2: Vols := vols[CURRENT := b.blocks];
            && Step(p, vols, b.pool, vols2) && KeepOthers(p, vols, b.pool, vols2)
            && ChunksOf(b.pool, b.blocks) == PadOrCut(ChunksOf(p, vols[CURRENT]), |vols[CURRENT]| + count)
    decreases count
  {
    hide Step, KeepOthers, InodeOk, PadOrCut, Append;
    var cs := ChunksOf(p, vols[CURRENT]);
    PadTwice(cs, count);
    if count == 0 {
      StepReflexive(p, vols);
      assert vols[CURRENT := vols[CURRENT]] == vols;
    } else {
      AppendStep(p, vols);
      var a := Append(Bank(p, vols[CURRENT]));
      var mid: Vols := vols[CURRENT := a.blocks];
      GrowStep(a.pool, mid, count - 1);
      var b := Grow(a, count - 1);
      assert mid[CURRENT := b.blocks] == vols[CURRENT := b.blocks];
      StepTransitive(p, vols, a.pool, mid, b.pool, vols[CURRENT := b.blocks]);
    }
  }

  lemma PadTwice(cs: seq<Bytes>, count: nat)
    ensures count == 0 ==> PadOrCut(cs, |cs| + count) == cs
    ensures PadOrCut(cs + [[]], |cs| + count) == if count > 0 then PadOrCut(cs, |cs| + count) else cs
  {
  }

  lemma {:induction false} ShrinkStep(p: Pool, vols: Vols, count: nat)
    requires InodeOk(p, vols) && count <= |vols[CURRENT]|
    ensures var b := Shrink(Bank(p, vols[CURRENT]), count);
            var vols2: Vols := vols[CURRENT := b.blocks];
            && Step(p, vols, b.pool, vols2) && KeepOthers(p, vols, b.pool, vols2)
            && ChunksOf(b.pool, b.blocks) == PadOrCut(ChunksOf(p, vols[CURRENT]), |vols[CURRENT]| - count)
    decreases count
  {
    hide Step, KeepOthers, InodeOk;
    if count == 0 {
      StepReflexive(p, vols);
      assert vols[CURRENT := vols[CURRENT]] == vols;
    } else {
      PopStep(p, vols);
      var a := Pop(Bank(p, vols[CURRENT]));
      var mid: Vols := vols[CURRENT := a.blocks];
      ShrinkStep(a.pool, mid, count - 1);
      var b := Shrink(a, count - 1);
      assert mid[CURRENT := b.blocks] == vols[CURRENT := b.blocks];
      StepTransitive(p, vols, a.pool, mid, b.pool, vols[CURRENT := b.blocks]);
    }
  }

  lemma {:induction false} ThawRangeStep(p: Pool, vols: Vols, lo: nat, hi: nat, bs: nat)
    requires InodeOk(p, vols) && hi <= |vols[CURRENT]|
    requires forall c :: c in ChunksOf(p, vols[CURRENT]) ==> |c| <= bs
    ensures var b := Thaw(Bank(p, vols[CURRENT]), lo, hi, bs);
            var vols2: Vols := vols[CURRENT := b.blocks];
            && Step(p, vols, b.pool, vols2) && KeepOthers(p, vols, b.pool, vols2)
            && ChunksOf(b.pool, b.blocks) == ChunksOf(p, vols[CURRENT])
            && (forall j: nat :: lo <= j < hi ==> !b.blocks[j].frozen)
            && (forall j: nat :: j < |b.blocks| && !(lo <= j < hi) ==> b.blocks[j] == vols[CURRENT][j])
    decreases hi - lo
  {
    hide Step, KeepOthers, InodeOk;
    if lo >= hi {
      StepReflexive(p, vols);
      assert vols[CURRENT := vols[CURRENT]] == vols;
    } else {
      assert ChunksOf(p, vols[CURRENT])[lo] in ChunksOf(p, vols[CURRENT]);
      ThawStep(p, vols, lo, bs);
      var a := ThawAt(Bank(p, vols[CURRENT]), lo, bs);
      var mid: Vols := vols[CURRENT := a.blocks];
      ThawRangeStep(a.pool, mid, lo + 1, hi, bs);
      var b := Thaw(a, lo + 1, hi, bs);
      assert mid[CURRENT := b.blocks] == vols[CURRENT := b.blocks];
      StepTransitive(p, vols, a.pool, mid, b.pool, vols[CURRENT := b.blocks]);
    }
  }

  lemma SameCountsOk(p: Pool, q: Pool, vols: Vols)
    requires InodeOk(p, vols)
    requires q.Keys == p.Keys && forall id :: id in p ==> q[id].links == p[id].links && q[id].lost == p[id].lost
    ensures InodeOk(q, vols)
  {
    forall v, k: nat | v in vols && k < |vols[v]|
      ensures EntryOk(q, vols, v, k)
    {
      assert EntryOk(p, vols, v, k);
    }
  }

  lemma PutAt(p: Pool, vols: Vols, cs: seq<Bytes>, k: nat)
    requires InodeOk(p, vols) && |cs| == |vols[CURRENT]| && k < |cs|
    ensures var id := vols[CURRENT][k].id;
            id in p && Put(p, vols[CURRENT], cs)[id] == p[id].(data := cs[k])
  {
    var id := vols[CURRENT][k].id;
    IdsInPool(p, vols);
    IdIn(vols, CURRENT, k);
    assert IndexOf(vols[CURRENT], id) == k;
  }

  lemma PutElsewhere(p: Pool, blocks: seq<BlockRef>, cs: seq<Bytes>, id: nat)
    requires |cs| == |blocks| && id in p
    requires forall k: nat :: k < |blocks| ==> blocks[k].id != id
    ensures Put(p, blocks, cs)[id] == p[id]
  {
  }

  /** A snapshot shares with the current list only frozen blocks, which keep their bytes. */
  lemma PutKeeps(p: Pool, vols: Vols, cs: seq<Bytes>, w: Version, j: nat)
    requires InodeOk(p, vols) && |cs| == |vols[CURRENT]|
    requires forall k: nat :: k < |cs| && vols[CURRENT][k].frozen ==> cs[k] == DataAt(p, vols[CURRENT][k].id)
    requires w in vols && w != CURRENT && j < |vols[w]|
    ensures DataAt(Put(p, vols[CURRENT], cs), vols[w][j].id) == DataAt(p, vols[w][j].id)
  {
    var id := vols[w][j].id;
    IdsInPool(p, vols);
    IdIn(vols, w, j);
    if k: nat :| k < |cs| && vols[CURRENT][k].id == id {
      PutAt(p, vols, cs, k);
      if !vols[CURRENT][k].frozen { UnfrozenIsPrivate(p, vols, k); }
    } else {
      PutElsewhere(p, vols[CURRENT], cs, id);
    }
  }

  /** Changing the bytes of unfrozen blocks only. */
  lemma PutStep(p: Pool, vols: Vols, cs: seq<Bytes>)
    requires InodeOk(p, vols) && |cs| == |vols[CURRENT]|
    requires forall k: nat :: k < |cs| && vols[CURRENT][k].frozen ==> cs[k] == DataAt(p, vols[CURRENT][k].id)
    ensures var q := Put(p, vols[CURRENT], cs);
            && Step(p, vols, q, vols) && KeepOthers(p, vols, q, vols)
            && ChunksOf(q, vols[CURRENT]) == cs
  {
    var q := Put(p, vols[CURRENT], cs);
    IdsInPool(p, vols);
    SameCountsOk(p, q, vols);
    forall id | id in p && id !in Ids(vols)
      ensures q[id] == p[id]
    {
      NotReferred(vols, id);
      PutElsewhere(p, vols[CURRENT], cs, id);
    }
    forall w | w in vols && w != CURRENT
      ensures ChunksOf(q, vols[w]) == ChunksOf(p, vols[w])
    {
      forall j: nat | j < |vols[w]|
        ensures DataAt(q, vols[w][j].id) == DataAt(p, vols[w][j].id)
      {
        PutKeeps(p, vols, cs, w, j);
      }
    }
    forall k: nat | k < |cs|
      ensures ChunksOf(q, vols[CURRENT])[k] == cs[k]
    {
      PutAt(p, vols, cs, k);
    }
  }

  // ---- Truncate ----

  /** What a bank operation keeps and what it makes of the current contents. */
  ghost predicate Becomes(bs: nat, p: Pool, vols: Vols, b: Bank, bytes: Bytes) {
    && CURRENT in vols
    && Step(p, vols, b.pool, vols[CURRENT := b.blocks])
    && KeepOthers(p, vols, b.pool, vols[CURRENT := b.blocks])
    && Shaped(bs, ChunksOf(b.pool, b.blocks))
    && Content(b.pool, b.blocks) == bytes
  }

  lemma SizedStep(bs: nat, p: Pool, vols: Vols, count: nat)
    requires InodeOk(p, vols)
    ensures var sized := Sized(Bank(p, vols[CURRENT]), count);
            var vols2: Vols := vols[CURRENT := sized.blocks];
            && Step(p, vols, sized.pool, vols2) && KeepOthers(p, vols, sized.pool, vols2)
            && ChunksOf(sized.pool, sized.blocks) == PadOrCut(ChunksOf(p, vols[CURRENT]), count)
  {
    hide Step, KeepOthers, InodeOk;
    var n := |vols[CURRENT]|;
    if n < count { GrowStep(p, vols, count - n); } else { ShrinkStep(p, vols, n - count); }
  }

  lemma PadOrCutFits(bs: nat, cs: seq<Bytes>, count: nat)
    requires bs > 0 && Shaped(bs, cs)
    ensures forall c :: c in PadOrCut(cs, count) ==> |c| <= bs
  {
    ShapedCount(bs, cs);
  }

  /** truncate() cuts or zero-extends the file, thaws every block it keeps, and touches no other version. */
  lemma TruncateBankRefines(bs: nat, p: Pool, vols: Vols, n: nat)
    requires bs > 0 && InodeOk(p, vols) && Shaped(bs, ChunksOf(p, vols[CURRENT]))
    ensures var b := TruncateBank(bs, Bank(p, vols[CURRENT]), n);
            && Becomes(bs, p, vols, b, Resize(Content(p, vols[CURRENT]), n))
            && |b.blocks| == BlockCount(n, bs)
            && forall k: nat :: k < |b.blocks| ==> !b.blocks[k].frozen
  {
    hide Step, KeepOthers, InodeOk, Shaped, Flatten, SizeAll, Sized, Thaw, Put, BlockCount;
    var cs := ChunksOf(p, vols[CURRENT]);
    var count := BlockCount(n, bs);
    var b := Bank(p, vols[CURRENT]);
    var sized := Sized(b, count);
    SizedStep(bs, p, vols, count);
    var v1: Vols := vols[CURRENT := sized.blocks];
    PadOrCutFits(bs, cs, count);
    ThawRangeStep(sized.pool, v1, 0, count, bs);
    var thawed := Thaw(sized, 0, count, bs);
    var v2: Vols := vols[CURRENT := thawed.blocks];
    assert v1[CURRENT := thawed.blocks] == v2;
    StepTransitive(p, vols, sized.pool, v1, thawed.pool, v2);
    var cs2 := SizeAll(bs, ChunksOf(thawed.pool, thawed.blocks), n);
    PutStep(thawed.pool, v2, cs2);
    var r := TruncateBank(bs, b, n);
    StepTransitive(p, vols, thawed.pool, v2, r.pool, v2);
    TruncateRefines(bs, cs, n);
  }

  // ---- Write ----

  lemma BlockCountShift(k: nat, m: nat, bs: nat)
    requires bs > 0
    ensures BlockCount(k * bs + m, bs) == k + BlockCount(m, bs)
  {
    DivUnique(k * bs + m, bs, k + m / bs, m % bs) by {
      assert k * bs + m == (k + m / bs) * bs + m % bs;
    }
  }

  lemma {:induction false} WriteAllUntouched(bs: nat, ts: seq<Bytes>, inner: nat, d: Bytes, resize: bool, j: nat)
    requires inner < bs && BlockCount(inner + |d|, bs) <= j < |ts|
    ensures WriteAll(bs, ts, inner, d, resize)[j] == ts[j]
    decreases |d|
  {
    if d != [] {
      var w := Min(bs - inner, |d|);
      BlockCountStep(inner + |d|, bs);
      BlockCountStep(|d| - w, bs);
      if inner + |d| < bs { BlockCountStep(0, bs); }
      WriteAllUntouched(bs, ts[1..], 0, d[w..], resize, j - 1);
    }
  }

  /** Overwriting inside a file whose touched blocks are unfrozen. */
  lemma PutBankRefines(bs: nat, p: Pool, vols: Vols, offset: nat, d: Bytes, resize: bool)
    requires bs > 0 && InodeOk(p, vols) && Shaped(bs, ChunksOf(p, vols[CURRENT]))
    requires offset / bs < |vols[CURRENT]|
    requires offset + |d| <= |Content(p, vols[CURRENT])|
    requires resize ==> offset + |d| == |Content(p, vols[CURRENT])|
    requires forall j: nat :: offset / bs <= j < BlockCount(offset + |d|, bs) && j < |vols[CURRENT]| ==>
             !vols[CURRENT][j].frozen
    ensures Becomes(bs, p, vols, PutBank(bs, Bank(p, vols[CURRENT]), offset, d, resize),
                    Overlay(Content(p, vols[CURRENT]), offset, d))
  {
    hide Step, KeepOthers, InodeOk, Shaped, Flatten, Put, WriteAt;
    var cs := ChunksOf(p, vols[CURRENT]);
    var cs2 := WriteAt(bs, cs, offset, d, resize);
    forall j: nat | j < |cs| && vols[CURRENT][j].frozen
      ensures cs2[j] == cs[j]
    {
      WriteAtUntouched(bs, cs, offset, d, resize, j);
    }
    PutStep(p, vols, cs2);
    assert vols[CURRENT := vols[CURRENT]] == vols;
    WriteAtRefines(bs, cs, offset, d, resize);
  }

  lemma WriteAtUntouched(bs: nat, cs: seq<Bytes>, offset: nat, d: Bytes, resize: bool, j: nat)
    requires bs > 0 && offset / bs < |cs| && j < |cs|
    requires j < offset / bs || BlockCount(offset + |d|, bs) <= j
    ensures WriteAt(bs, cs, offset, d, resize)[j] == cs[j]
  {
    hide WriteAll, BlockCount;
    var k, inner := offset / bs, offset % bs;
    DivMod(offset, bs);
    BlockCountShift(k, inner + |d|, bs);
    if j >= k {
      assert offset + |d| == k * bs + (inner + |d|);
      WriteAllUntouched(bs, cs[k..], inner, d, resize, j - k);
    }
  }

  /** Writing from byte `inner` of block `k` on. */
  lemma SpliceRefines(bs: nat, cs: seq<Bytes>, k: nat, inner: nat, d: Bytes, resize: bool)
    requires inner < bs && k < |cs| && Shaped(bs, cs) && Shaped(bs, cs[k..])
    requires Flatten(cs) == Flatten(cs[..k]) + Flatten(cs[k..])
    requires inner + |d| <= |Flatten(cs[k..])|
    requires resize ==> inner + |d| == |Flatten(cs[k..])|
    ensures var r := cs[..k] + WriteAll(bs, cs[k..], inner, d, resize);
            Flatten(r) == Overlay(Flatten(cs), |Flatten(cs[..k])| + inner, d) && Shaped(bs, r)
  {
    hide Flatten, WriteAll, Shaped;
    var ts := WriteAll(bs, cs[k..], inner, d, resize);
    WriteAllRefines(bs, cs[k..], inner, d, resize);
    FlattenConcat(cs[..k], ts);
    OverlayAfter(Flatten(cs[..k]), Flatten(cs[k..]), inner, d);
    ShapedConcat(bs, cs, k, ts);
  }

  lemma OverlayAfter(before: Bytes, b: Bytes, inner: nat, d: Bytes)
    requires inner + |d| <= |b|
    ensures Overlay(before + b, |before| + inner, d) == before + Overlay(b, inner, d)
  {
  }

  lemma WriteAtRefines(bs: nat, cs: seq<Bytes>, offset: nat, d: Bytes, resize: bool)
    requires bs > 0 && Shaped(bs, cs)
    requires offset / bs < |cs|
    requires offset + |d| <= |Flatten(cs)|
    requires resize ==> offset + |d| == |Flatten(cs)|
    ensures Flatten(WriteAt(bs, cs, offset, d, resize)) == Overlay(Flatten(cs), offset, d)
    ensures Shaped(bs, WriteAt(bs, cs, offset, d, resize))
  {
    hide Flatten, WriteAll, Shaped, Overlay;
    BlockOf(bs, cs, offset);
    SpliceRefines(bs, cs, offset / bs, offset % bs, d, resize);
  }

  lemma ShapedConcat(bs: nat, cs: seq<Bytes>, k: nat, ts: seq<Bytes>)
    requires Shaped(bs, cs) && Shaped(bs, ts) && k < |cs| && ts != []
    ensures Shaped(bs, cs[..k] + ts)
  {
    var r := cs[..k] + ts;
    assert r[|r| - 1] == ts[|ts| - 1];
    forall j | 0 <= j < |r| - 1
      ensures |r[j]| == bs
    {
      if j >= k { assert r[j] == ts[j - k]; } else { assert r[j] == cs[j]; }
    }
  }

  /** write() with resizing: the file ends with the written bytes, after the old ones cut or zero-padded to `offset`. */
  lemma ResizingWriteRefines(bs: nat, p: Pool, vols: Vols, offset: nat, d: Bytes)
    requires bs > 0 && InodeOk(p, vols) && Shaped(bs, ChunksOf(p, vols[CURRENT])) && d != []
    ensures var r := WriteBank(bs, Bank(p, vols[CURRENT]), offset, d, true);
            && r.Ok? && r.value.1 == |d|
            && Becomes(bs, p, vols, r.value.0, Resize(Content(p, vols[CURRENT]), offset) + d)
  {
    hide Step, KeepOthers, InodeOk, Shaped, Flatten, TruncateBank, PutBank;
    var n := offset + |d|;
    var bytes := Content(p, vols[CURRENT]);
    TruncateBankRefines(bs, p, vols, n);
    var sized := TruncateBank(bs, Bank(p, vols[CURRENT]), n);
    var v1: Vols := vols[CURRENT := sized.blocks];
    EndOfBlocks(bs, ChunksOf(sized.pool, sized.blocks), offset);
    PutBankRefines(bs, sized.pool, v1, offset, d, true);
    var r := PutBank(bs, sized, offset, d, true);
    assert v1[CURRENT := r.blocks] == vols[CURRENT := r.blocks];
    StepTransitive(p, vols, sized.pool, v1, r.pool, vols[CURRENT := r.blocks]);
    assert Overlay(Resize(bytes, n), offset, d) == Resize(bytes, offset) + d;
  }

  lemma UnchangedBecomes(bs: nat, p: Pool, vols: Vols)
    requires InodeOk(p, vols) && Shaped(bs, ChunksOf(p, vols[CURRENT]))
    ensures Becomes(bs, p, vols, Bank(p, vols[CURRENT]), Content(p, vols[CURRENT]))
  {
    hide Step, KeepOthers, InodeOk, Shaped, Flatten;
    StepReflexive(p, vols);
    assert vols[CURRENT := vols[CURRENT]] == vols;
  }

  lemma FixedWriteInside(bs: nat, p: Pool, vols: Vols, offset: nat, d: Bytes)
    requires bs > 0 && InodeOk(p, vols) && Shaped(bs, ChunksOf(p, vols[CURRENT]))
    requires offset / bs < |vols[CURRENT]| && offset + |d| <= |Content(p, vols[CURRENT])|
    requires BlockCount(offset + |d|, bs) <= |vols[CURRENT]|
    ensures Becomes(bs, p, vols, Overwritten(bs, Bank(p, vols[CURRENT]), offset, d),
            Overlay(Content(p, vols[CURRENT]), offset, d))
  {
    hide Step, KeepOthers, InodeOk, Shaped, Flatten, Thaw, BlockCount, WriteAt, Put;
    var last := BlockCount(offset + |d|, bs);
    ShapedCount(bs, ChunksOf(p, vols[CURRENT]));
    ThawRangeStep(p, vols, offset / bs, last, bs);
    var b := Thaw(Bank(p, vols[CURRENT]), offset / bs, last, bs);
    var v1: Vols := vols[CURRENT := b.blocks];
    PutBankRefines(bs, b.pool, v1, offset, d, false);
    var r := PutBank(bs, b, offset, d, false);
    assert v1[CURRENT := r.blocks] == vols[CURRENT := r.blocks];
    StepTransitive(p, vols, b.pool, v1, r.pool, vols[CURRENT := r.blocks]);
  }

  /** Block by block, writing without resizing is writing to one buffer. */
  lemma FixedWriteAsBuffer(bs: nat, p: Pool, vols: Vols, offset: nat, d: Bytes)
    requires bs > 0 && InodeOk(p, vols) && Shaped(bs, ChunksOf(p, vols[CURRENT])) && d != []
    ensures var r := WriteBank(bs, Bank(p, vols[CURRENT]), offset, d, false);
            var bytes := Content(p, vols[CURRENT]);
            if offset == |bytes| && offset % bs == 0 then r == Err(OutOfRange)
            else
              && r.Ok? && r.value.1 == Fitting(|bytes|, |d|, offset)
              && Becomes(bs, p, vols, r.value.0, BufWrite(bytes, d, offset, false))
  {
    hide Step, KeepOthers, InodeOk, Shaped, Flatten, PutBank, Thaw, BlockCount, Becomes;
    var cs := ChunksOf(p, vols[CURRENT]);
    var bytes := Flatten(cs);
    EndOfBlocks(bs, cs, offset);
    if offset > |bytes| {
      UnchangedBecomes(bs, p, vols);
    } else if offset / bs < |cs| {
      var w := Fitting(|bytes|, |d|, offset);
      LastBlock(bs, cs, offset + w);
      FixedWriteInside(bs, p, vols, offset, d[..w]);
    }
  }

  /**
    * write() without resizing: the part that fits overlays the file. It fails in one case only: something is to be
    * written at the very end of a file whose blocks are all full.
    */
  lemma FixedWriteRefines(bs: nat, p: Pool, vols: Vols, offset: nat, d: Bytes)
    requires bs > 0 && InodeOk(p, vols) && Shaped(bs, ChunksOf(p, vols[CURRENT])) && d != []
    ensures var r := WriteBank(bs, Bank(p, vols[CURRENT]), offset, d, false);
            var bytes := Content(p, vols[CURRENT]);
            if offset == |bytes| && offset % bs == 0 then r == Err(OutOfRange)
            else if offset > |bytes| then r.Ok? && r.value.1 == 0 && Becomes(bs, p, vols, r.value.0, bytes)
            else
              var n := if |d| <= |bytes| - offset then |d| else |bytes| - offset;
              && r.Ok? && r.value.1 == n
              && Becomes(bs, p, vols, r.value.0, bytes[..offset] + d[..n] + bytes[offset + n..])
  {
    hide InodeOk, Shaped, Flatten, WriteBank, Becomes, BufWrite, Fitting;
    FixedWriteAsBuffer(bs, p, vols, offset, d);
    FixedWriteExactly(Content(p, vols[CURRENT]), d, offset);
  }

  lemma LastBlock(bs: nat, cs: seq<Bytes>, end: nat)
    requires bs > 0 && Shaped(bs, cs) && end <= |Flatten(cs)|
    ensures BlockCount(end, bs) <= |cs|
  {
    EndOfBlocks(bs, cs, end);
  }
}
