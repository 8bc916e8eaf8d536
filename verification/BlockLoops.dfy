// What the block loops of read, write and truncate do to one block at a time.
module BlockLoops {
  import opened ByteStrings
  import opened Buffers
  import opened Chunks
  import opened Blocks
  import opened Inodes

  /** Every listed block is in the pool, and none is listed twice. */
  ghost predicate Loaded(p: Pool, blocks: seq<BlockRef>) {
    && (forall k :: 0 <= k < |blocks| ==> blocks[k].id in p)
    && (forall a, b :: 0 <= a < b < |blocks| ==> blocks[a].id != blocks[b].id)
  }

  lemma InodeLoaded(p: Pool, vols: Vols, v: Version)
    requires InodeOk(p, vols) && v in vols
    ensures Loaded(p, vols[v])
  {
    forall k: nat | k < |vols[v]|
      ensures vols[v][k].id in p
    {
      assert EntryOk(p, vols, v, k);
    }
  }

  // ---- Replacing the contents of blocks one after the other ----

  lemma PutSelf(p: Pool, blocks: seq<BlockRef>)
    ensures Put(p, blocks, ChunksOf(p, blocks)) == p
  {
    var q := Put(p, blocks, ChunksOf(p, blocks));
    forall id | id in p
      ensures q[id] == p[id]
    {
      if k: nat :| k < |blocks| && blocks[k].id == id { assert blocks[IndexOf(blocks, id)].id == id; }
    }
  }

  /** The contents when the blocks before `j` are done. */
  function Upto(final: seq<Bytes>, cs: seq<Bytes>, j: nat): (r: seq<Bytes>)
    requires j <= |cs| == |final|
    ensures |r| == |cs|
  {
    final[..j] + cs[j..]
  }

  lemma UptoEnds(final: seq<Bytes>, cs: seq<Bytes>, j: nat)
    requires j <= |cs| == |final|
    ensures final[..j] == cs[..j] ==> Upto(final, cs, j) == cs
    ensures final[j..] == cs[j..] ==> Upto(final, cs, j) == final
  {
  }

  /** Replacing block `j` as well. */
  lemma PutNext(p: Pool, blocks: seq<BlockRef>, cs: seq<Bytes>, final: seq<Bytes>, j: nat)
    requires Loaded(p, blocks) && |cs| == |final| == |blocks| && j < |blocks|
    ensures var id := blocks[j].id;
            var before := Put(p, blocks, Upto(final, cs, j));
            && id in before && before[id].data == cs[j]
            && Put(p, blocks, Upto(final, cs, j + 1)) == before[id := before[id].(data := final[j])]
  {
    var before, after := Put(p, blocks, Upto(final, cs, j)), Put(p, blocks, Upto(final, cs, j + 1));
    var id := blocks[j].id;
    assert IndexOf(blocks, id) == j;
    forall i | i in p && i != id
      ensures after[i] == before[i]
    {
      if k: nat :| k < |blocks| && blocks[k].id == i {
        var l := IndexOf(blocks, i);
        assert l != j;
        assert Upto(final, cs, j)[l] == Upto(final, cs, j + 1)[l];
      }
    }
  }

  lemma PutLoaded(p: Pool, blocks: seq<BlockRef>, cs: seq<Bytes>)
    requires Loaded(p, blocks) && |cs| == |blocks|
    ensures Loaded(Put(p, blocks, cs), blocks)
  {
  }

  // ---- Which bytes go where ----

  /** Block `j` of a resized file. */
  lemma {:induction false} SizeAllAt(bs: nat, ts: seq<Bytes>, n: nat, j: nat)
    requires bs > 0 && j < |ts| && j * bs < n
    ensures SizeAll(bs, ts, n)[j] == Resize(ts[j], Min(bs, n - j * bs))
    decreases j
  {
    hide Resize;
    if j > 0 {
      Mono(1, j, bs);
      assert j * bs == bs + (j - 1) * bs;
      SizeAllAt(bs, ts[1..], n - bs, j - 1);
    }
  }

  /** The bytes of `d` for one block, from `at` on. */
  function Piece(bs: nat, d: Bytes, at: nat): Bytes {
    if at < |d| then d[at..at + Min(bs, |d| - at)] else []
  }

  lemma PieceOfRest(bs: nat, d: Bytes, w: nat, at: nat)
    requires w <= |d|
    ensures Piece(bs, d[w..], at) == Piece(bs, d, w + at)
  {
  }

  /** Block `j` after a write from the first byte of block 0 on. */
  lemma {:induction false} WriteAllAt(bs: nat, ts: seq<Bytes>, d: Bytes, resize: bool, j: nat)
    requires bs > 0 && j < |ts|
    ensures WriteAll(bs, ts, 0, d, resize)[j] ==
            if j * bs < |d| then BufWrite(ts[j], Piece(bs, d, j * bs), 0, resize) else ts[j]
    decreases j
  {
    hide BufWrite, Piece;
    Mono(0, j, bs);
    if j > 0 && d != [] {
      var w := Min(bs, |d|);
      Mono(0, j - 1, bs);
      assert j * bs == bs + (j - 1) * bs;
      WriteAllAt(bs, ts[1..], d[w..], resize, j - 1);
      PieceOfRest(bs, d, w, (j - 1) * bs);
    } else if d != [] {
      FirstPiece(bs, d);
    }
  }

  lemma FirstPiece(bs: nat, d: Bytes)
    requires bs > 0
    ensures Piece(bs, d, 0) == d[..Min(bs, |d|)]
  {
  }

  /** The first block of a write takes what fits after `inner`. */
  lemma WriteAllFirst(bs: nat, ts: seq<Bytes>, inner: nat, d: Bytes, resize: bool)
    requires inner < bs && ts != [] && (resize ==> d != [])
    ensures WriteAll(bs, ts, inner, d, resize)[0] == BufWrite(ts[0], d[..Min(bs - inner, |d|)], inner, resize)
  {
  }

  /** Later blocks take whole blocks, and the last one the rest. */
  lemma WriteAllLater(bs: nat, ts: seq<Bytes>, inner: nat, d: Bytes, resize: bool, j: nat)
    requires inner < bs && 1 <= j < |ts|
    ensures var at := Min(bs - inner, |d|) + (j - 1) * bs;
            && at >= 0
            && WriteAll(bs, ts, inner, d, resize)[j] ==
               if at < |d| then BufWrite(ts[j], Piece(bs, d, at), 0, resize) else ts[j]
  {
    hide BufWrite, Piece;
    Mono(0, j - 1, bs);
    if d != [] {
      var w := Min(bs - inner, |d|);
      WriteAllAt(bs, ts[1..], d[w..], resize, j - 1);
      PieceOfRest(bs, d, w, (j - 1) * bs);
    }
  }

  /** How a range of `n` bytes splits into a first part, whole blocks and a rest. */
  lemma SplitLength(bs: nat, inner: nat, n: nat)
    requires inner < bs
    ensures var w := Min(bs - inner, n);
            var full, last := (n - w) / bs, (n - w) % bs;
            && n == w + full * bs + last
            && BlockCount(inner + n, bs) == (if inner + n == 0 then 0 else 1 + full + if last > 0 then 1 else 0)
            && (w < bs - inner ==> full == 0 && last == 0)
  {
    var w := Min(bs - inner, n);
    DivMod(n - w, bs);
    BlockCountStep(inner + n, bs);
    if w < bs - inner || n == w {
      DivUnique(0, bs, 0, 0);
    }
  }

  /** `n` bytes from `offset` on are a part of the first block, `full` whole blocks and `last` bytes of one more. */
  ghost predicate Spans(bs: nat, offset: nat, n: nat, full: nat, last: nat)
    requires bs > 0
  {
    var w := Min(bs - offset % bs, n);
    && n == w + full * bs + last && last < bs
    && (full > 0 || last > 0 ==> w == bs - offset % bs)
  }

  /** The source's arithmetic finds such a split. */
  lemma SpansOf(bs: nat, offset: nat, n: nat)
    requires bs > 0
    ensures var w := Min(bs - offset % bs, n); Spans(bs, offset, n, (n - w) / bs, (n - w) % bs)
  {
    SplitLength(bs, offset % bs, n);
  }

  lemma SplitCount(bs: nat, inner: nat, w: nat, full: nat, last: nat)
    requires inner + w <= bs && last < bs && (full > 0 || last > 0 ==> inner + w == bs)
    ensures bs > 0 ==>
              BlockCount(inner + w + full * bs + last, bs) + (if inner + w == 0 then 1 else 0) ==
              1 + full + if last > 0 then 1 else 0
  {
    if bs > 0 {
      BlockCountShift(full, inner + w + last, bs);
      BlockCountStep(inner + w + last, bs);
      BlockCountStep(last, bs);
    }
  }

  /** A list of `count` blocks that is long enough has all the blocks of the split, and no others are touched. */
  lemma Extent(bs: nat, offset: nat, n: nat, full: nat, last: nat, count: nat)
    requires bs > 0 && Spans(bs, offset, n, full, last)
    requires offset / bs < count && BlockCount(offset + n, bs) <= count
    ensures offset / bs + full < count && (last > 0 ==> offset / bs + full + 1 < count)
    ensures BlockCount(offset + n, bs) <= offset / bs + full + if last > 0 then 2 else 1
  {
    hide BlockCount;
    var k, inner := offset / bs, offset % bs;
    var w := Min(bs - inner, n);
    DivMod(offset, bs);
    SplitCount(bs, inner, w, full, last);
    BlockCountShift(k, inner + n, bs);
    assert offset + n == k * bs + (inner + n);
  }

  /** The blocks that a write of at least one byte, or of none in the middle of a block, works on. */
  lemma TouchedBlocks(bs: nat, offset: nat, n: nat, full: nat, last: nat)
    requires bs > 0 && Spans(bs, offset, n, full, last) && offset % bs + n > 0
    ensures offset / bs + full + (if last > 0 then 2 else 1) == BlockCount(offset + n, bs)
  {
    hide BlockCount;
    var k, inner := offset / bs, offset % bs;
    var w := Min(bs - inner, n);
    DivMod(offset, bs);
    SplitCount(bs, inner, w, full, last);
    BlockCountShift(k, inner + n, bs);
    assert offset + n == k * bs + (inner + n);
  }

  /** The first block that a write touches. */
  lemma WrittenFirst(bs: nat, cs: seq<Bytes>, offset: nat, d: Bytes, resize: bool, k: nat, inner: nat)
    requires bs > 0 && k == offset / bs && inner == offset % bs && k < |cs| && (resize ==> d != [])
    ensures WriteAt(bs, cs, offset, d, resize)[..k] == cs[..k]
    ensures WriteAt(bs, cs, offset, d, resize)[k] == BufWrite(cs[k], d[..Min(bs - inner, |d|)], inner, resize)
  {
    hide WriteAll, BufWrite;
    WriteAllFirst(bs, cs[offset / bs..], offset % bs, d, resize);
  }

  /** The blocks after the first one get `bs` bytes each while there are some, and stay as they are after that. */
  lemma WrittenLater(bs: nat, cs: seq<Bytes>, offset: nat, d: Bytes, resize: bool, i: nat)
    requires bs > 0 && 1 <= i && offset / bs + i < |cs|
    ensures var k := offset / bs;
            var at := Min(bs - offset % bs, |d|) + (i - 1) * bs;
            && at >= 0
            && WriteAt(bs, cs, offset, d, resize)[k + i] ==
               if at < |d| then BufWrite(cs[k + i], Piece(bs, d, at), 0, resize) else cs[k + i]
  {
    hide WriteAll, BufWrite, Piece;
    WriteAllLater(bs, cs[offset / bs..], offset % bs, d, resize, i);
  }

  /** Behind the written range nothing changes. */
  lemma WrittenRest(bs: nat, cs: seq<Bytes>, offset: nat, d: Bytes, resize: bool, j: nat)
    requires bs > 0 && offset / bs < j <= |cs| && BlockCount(offset + |d|, bs) <= j
    ensures WriteAt(bs, cs, offset, d, resize)[j..] == cs[j..]
  {
    hide BlockCount, WriteAt;
    forall l | j <= l < |cs|
      ensures WriteAt(bs, cs, offset, d, resize)[l] == cs[l]
    {
      WriteAtUntouched(bs, cs, offset, d, resize, l);
    }
  }

  /** Where the bytes for block `i` after the first one start, when the first one takes `w`. */
  function StartOf(bs: nat, w: nat, i: nat): (at: nat)
    ensures at >= w
  {
    Mono(0, i, bs);
    w + i * bs
  }

  lemma StartNext(bs: nat, w: nat, i: nat, full: nat)
    requires i < full
    ensures StartOf(bs, w, i + 1) == StartOf(bs, w, i) + bs <= StartOf(bs, w, full)
  {
    Mono(i + 1, full, bs);
    assert (i + 1) * bs == i * bs + bs;
  }

  lemma SpansLength(bs: nat, offset: nat, n: nat, full: nat, last: nat)
    requires bs > 0 && Spans(bs, offset, n, full, last)
    ensures n == StartOf(bs, Min(bs - offset % bs, n), full) + last && last < bs
  {
  }

  lemma WrittenPiece(bs: nat, cs: seq<Bytes>, offset: nat, d: Bytes, resize: bool, i: nat)
    requires bs > 0 && offset / bs + 1 + i < |cs|
    ensures var k := offset / bs;
            var at := StartOf(bs, Min(bs - offset % bs, |d|), i);
            at < |d| ==>
              WriteAt(bs, cs, offset, d, resize)[k + 1 + i] == BufWrite(cs[k + 1 + i], Piece(bs, d, at), 0, resize)
  {
    hide WriteAt, BufWrite, Piece;
    WrittenLater(bs, cs, offset, d, resize, i + 1);
  }

  /** Where the first, the whole and the last blocks of a write get their bytes from. */
  ghost predicate Sources(bs: nat, cs: seq<Bytes>, d: Bytes, resize: bool, final: seq<Bytes>,
                          start: nat, inner: nat, first: nat, full: nat, last: nat)
  {
    && |final| == |cs| && start + full < |cs| && (last > 0 ==> start + full + 1 < |cs|) && first <= |d|
    && final[start] == BufWrite(cs[start], d[..first], inner, resize)
    && (forall i :: 0 <= i < full ==>
          final[start + 1 + i] == BufWrite(cs[start + 1 + i], Piece(bs, d, StartOf(bs, first, i)), 0, resize))
    && (last > 0 ==>
          final[start + 1 + full] == BufWrite(cs[start + 1 + full], Piece(bs, d, StartOf(bs, first, full)), 0, resize))
  }

  lemma WrittenParts(bs: nat, cs: seq<Bytes>, offset: nat, d: Bytes, resize: bool, k: nat, inner: nat, w: nat,
                     full: nat, last: nat)
    requires bs > 0 && k == offset / bs && inner == offset % bs && w == Min(bs - inner, |d|)
    requires Spans(bs, offset, |d|, full, last) && (resize ==> d != [])
    requires k + full < |cs| && (last > 0 ==> k + full + 1 < |cs|)
    ensures Sources(bs, cs, d, resize, WriteAt(bs, cs, offset, d, resize), k, inner, w, full, last)
  {
    hide WriteAt, BufWrite, Piece, Spans, StartOf;
    var final := WriteAt(bs, cs, offset, d, resize);
    WrittenFirst(bs, cs, offset, d, resize, k, inner);
    SpansLength(bs, offset, |d|, full, last);
    forall i | 0 <= i < full
      ensures final[k + 1 + i] == BufWrite(cs[k + 1 + i], Piece(bs, d, StartOf(bs, w, i)), 0, resize)
    {
      StartNext(bs, w, i, full);
      WrittenPiece(bs, cs, offset, d, resize, i);
    }
    if last > 0 { WrittenPiece(bs, cs, offset, d, resize, full); }
  }

  /** All these blocks have the bytes that are to be read or overwritten there. */
  ghost predicate Fits(bs: nat, cs: seq<Bytes>, start: nat, inner: nat, first: nat, full: nat, last: nat) {
    && start + full < |cs| && (last > 0 ==> start + full + 1 < |cs|)
    && inner + first <= |cs[start]|
    && (forall k :: start + 1 <= k < start + 1 + full ==> bs <= |cs[k]|)
    && (last > 0 ==> last <= |cs[start + full + 1]|)
  }

  /** The first, the whole and the last blocks of a write, with what they hold afterwards; the others stay. */
  ghost predicate WritePlan(bs: nat, cs: seq<Bytes>, d: Bytes, resize: bool, final: seq<Bytes>,
                            start: nat, inner: nat, first: nat, full: nat, last: nat)
  {
    && Sources(bs, cs, d, resize, final, start, inner, first, full, last)
    && |d| == StartOf(bs, first, full) + last && last < bs
    && (!resize ==> Fits(bs, cs, start, inner, first, full, last))
    && final[..start] == cs[..start]
    && var end := start + full + if last > 0 then 2 else 1; final[end..] == cs[end..]
  }

  lemma PlanWrite(bs: nat, cs: seq<Bytes>, offset: nat, d: Bytes, resize: bool, k: nat, inner: nat, w: nat,
                  full: nat, last: nat)
    requires bs > 0 && k == offset / bs && inner == offset % bs && w == Min(bs - inner, |d|)
    requires k < |cs| && BlockCount(offset + |d|, bs) <= |cs|
    requires resize ==> d != []
    requires !resize ==> Shaped(bs, cs) && offset + |d| <= |Flatten(cs)|
    requires Spans(bs, offset, |d|, full, last)
    ensures WritePlan(bs, cs, d, resize, WriteAt(bs, cs, offset, d, resize), k, inner, w, full, last)
  {
    hide BufWrite, Shaped, Flatten, BlockCount, WriteAt, Spans, StartOf, Piece, Sources, Fits;
    Extent(bs, offset, |d|, full, last, |cs|);
    SpansLength(bs, offset, |d|, full, last);
    WrittenParts(bs, cs, offset, d, resize, k, inner, w, full, last);
    if !resize { AllFit(bs, cs, offset, |d|, full, last); }
    WrittenFirst(bs, cs, offset, d, resize, k, inner);
    WrittenRest(bs, cs, offset, d, resize, k + full + if last > 0 then 2 else 1);
  }

  lemma PlanInside(bs: nat, cs: seq<Bytes>, d: Bytes, resize: bool, final: seq<Bytes>,
                   start: nat, inner: nat, first: nat, full: nat, last: nat)
    requires WritePlan(bs, cs, d, resize, final, start, inner, first, full, last)
    ensures |final| == |cs| && start + full + (if last > 0 then 2 else 1) <= |cs|
    ensures Upto(final, cs, start) == cs
    ensures Upto(final, cs, start + full + if last > 0 then 2 else 1) == final
  {
    UptoEnds(final, cs, start);
    UptoEnds(final, cs, start + full + if last > 0 then 2 else 1);
  }

  /** Inside the file a block has all the bytes that are to be read or overwritten there. */
  lemma FirstFits(bs: nat, cs: seq<Bytes>, offset: nat, n: nat)
    requires bs > 0 && Shaped(bs, cs) && offset + n <= |Flatten(cs)| && offset / bs < |cs|
    ensures offset % bs + Min(bs - offset % bs, n) <= |cs[offset / bs]|
  {
    hide Shaped, Flatten;
    DivMod(offset, bs);
    ChunkSize(bs, cs, offset / bs);
  }

  lemma LaterFits(bs: nat, cs: seq<Bytes>, offset: nat, n: nat, i: nat, full: nat, last: nat)
    requires bs > 0 && Shaped(bs, cs) && offset + n <= |Flatten(cs)| && offset / bs + i < |cs|
    requires Spans(bs, offset, n, full, last)
    requires 1 <= i <= full || (i == full + 1 && last > 0)
    ensures (if i <= full then bs else last) <= |cs[offset / bs + i]|
  {
    hide Shaped, Flatten;
    var k := offset / bs;
    DivMod(offset, bs);
    ChunkSize(bs, cs, k + i);
    assert (k + i) * bs == k * bs + i * bs;
    assert (full + 1) * bs == full * bs + bs;
    if i <= full {
      Mono(i, full, bs);
    }
  }

  /** All blocks of a split have the bytes that are to be read or overwritten there. */
  lemma AllFit(bs: nat, cs: seq<Bytes>, offset: nat, n: nat, full: nat, last: nat)
    requires bs > 0 && Shaped(bs, cs) && offset + n <= |Flatten(cs)|
    requires Spans(bs, offset, n, full, last)
    requires offset / bs + full < |cs| && (last > 0 ==> offset / bs + full + 1 < |cs|)
    ensures Fits(bs, cs, offset / bs, offset % bs, Min(bs - offset % bs, n), full, last)
  {
    hide Shaped, Flatten, Spans;
    FirstFits(bs, cs, offset, n);
    forall k | offset / bs + 1 <= k < offset / bs + 1 + full
      ensures bs <= |cs[k]|
    {
      LaterFits(bs, cs, offset, n, k - offset / bs, full, last);
    }
    if last > 0 { LaterFits(bs, cs, offset, n, full + 1, full, last); }
  }

  /** The size of block `j` of a shaped list. */
  lemma {:induction false} ChunkSize(bs: nat, cs: seq<Bytes>, j: nat)
    requires bs > 0 && Shaped(bs, cs) && j < |cs|
    ensures j * bs < |Flatten(cs)| && |cs[j]| == Min(bs, |Flatten(cs)| - j * bs)
    decreases j
  {
    ShapedTail(bs, cs);
    if j > 0 {
      assert j * bs == bs + (j - 1) * bs;
      ChunkSize(bs, cs[1..], j - 1);
    }
  }

  // ---- Reading ----

  lemma ReadAllFull(bs: nat, ts: seq<Bytes>, n: nat)
    requires bs > 0 && ts != []
    ensures ReadAll(bs, ts, 0, bs + n) == BufRead(ts[0], bs, 0) + ReadAll(bs, ts[1..], 0, n)
  {
  }

  lemma ReadAllHead(bs: nat, ts: seq<Bytes>, w: nat)
    requires 0 < bs && ts != [] && w <= bs
    ensures ReadAll(bs, ts, 0, 0) == [] && ReadAll(bs, ts, 0, w) == BufRead(ts[0], w, 0)
  {
    assert ReadAll(bs, ts[1..], 0, 0) == [];
    assert w == 0 ==> BufRead(ts[0], w, 0) == [];
  }

  /** Reading goes on after block 0 with the first bytes of the following blocks. */
  lemma {:induction false} ReadAllAppend(bs: nat, ts: seq<Bytes>, j: nat, n: nat)
    requires bs > 0 && j < |ts| && j * bs <= n
    ensures var w := Min(bs, n - j * bs);
            ReadAll(bs, ts, 0, j * bs + w) == ReadAll(bs, ts, 0, j * bs) + BufRead(ts[j], w, 0)
    decreases j
  {
    hide BufRead, ReadAll;
    var w := Min(bs, n - j * bs);
    if j > 0 {
      Mono(0, j - 1, bs);
      var k: nat := (j - 1) * bs;
      assert j * bs == bs + k;
      ReadAllAppend(bs, ts[1..], j - 1, n - bs);
      ReadAllFull(bs, ts, k);
      ReadAllFull(bs, ts, k + w);
      assert ReadAll(bs, ts, 0, bs + (k + w)) == ReadAll(bs, ts, 0, bs + k) + BufRead(ts[j], w, 0);
    } else {
      ReadAllHead(bs, ts, w);
    }
  }

  /** Blocks `start` to `start + count - 1`, one after the other. */
  function WholeBlocks(bs: nat, cs: seq<Bytes>, start: nat, count: nat): (r: Bytes)
    requires start + count <= |cs|
    ensures count == 0 ==> r == []
    decreases count
  {
    if count == 0 then [] else WholeBlocks(bs, cs, start, count - 1) + BufRead(cs[start + count - 1], bs, 0)
  }

  lemma {:induction false} WholeBlocksAre(bs: nat, cs: seq<Bytes>, start: nat, count: nat)
    requires bs > 0 && start + count <= |cs|
    ensures count * bs >= 0 && WholeBlocks(bs, cs, start, count) == ReadAll(bs, cs[start..], 0, count * bs)
    decreases count
  {
    hide BufRead;
    Mono(0, count, bs);
    if count > 0 {
      Mono(0, count - 1, bs);
      WholeBlocksAre(bs, cs, start, count - 1);
      assert count * bs == (count - 1) * bs + bs;
      ReadAllAppend(bs, cs[start..], count - 1, count * bs);
    }
  }

  lemma ReadAllFirst(bs: nat, ts: seq<Bytes>, inner: nat, n: nat)
    requires inner < bs && ts != []
    ensures var w := Min(bs - inner, n);
            ReadAll(bs, ts, inner, n) == BufRead(ts[0], w, inner) + ReadAll(bs, ts[1..], 0, n - w)
  {
    if n == 0 { assert BufRead(ts[0], 0, inner) == [] && ReadAll(bs, ts[1..], 0, 0) == []; }
  }

  lemma ReadTail(bs: nat, cs: seq<Bytes>, start: nat, full: nat, last: nat)
    requires bs > 0 && last < bs && start + full <= |cs| && (last > 0 ==> start + full < |cs|)
    ensures full * bs >= 0
    ensures ReadAll(bs, cs[start..], 0, full * bs + last) ==
            WholeBlocks(bs, cs, start, full) + if last > 0 then BufRead(cs[start + full], last, 0) else []
  {
    hide BufRead, ReadAll;
    Mono(0, full, bs);
    WholeBlocksAre(bs, cs, start, full);
    if last > 0 { ReadAllAppend(bs, cs[start..], full, full * bs + last); }
  }

  lemma ReadAllInParts(bs: nat, cs: seq<Bytes>, k: nat, inner: nat, n: nat, full: nat, last: nat)
    requires inner < bs && n == Min(bs - inner, n) + full * bs + last && last < bs
    requires k + full < |cs| && (last > 0 ==> k + full + 1 < |cs|)
    ensures ReadAll(bs, cs[k..], inner, n) ==
            BufRead(cs[k], Min(bs - inner, n), inner) + WholeBlocks(bs, cs, k + 1, full) +
            if last > 0 then BufRead(cs[k + full + 1], last, 0) else []
  {
    hide BufRead, ReadAll, WholeBlocks;
    ReadAllFirst(bs, cs[k..], inner, n);
    assert cs[k..][1..] == cs[k + 1..];
    ReadTail(bs, cs, k + 1, full, last);
  }

  /** The three reads of read() together. */
  lemma ReadInParts(bs: nat, cs: seq<Bytes>, offset: nat, n: nat, full: nat, last: nat)
    requires bs > 0 && Spans(bs, offset, n, full, last)
    requires offset / bs + full < |cs| && (last > 0 ==> offset / bs + full + 1 < |cs|)
    ensures var k := offset / bs;
            ReadAt(bs, cs, offset, n) ==
            BufRead(cs[k], Min(bs - offset % bs, n), offset % bs) + WholeBlocks(bs, cs, k + 1, full) +
            if last > 0 then BufRead(cs[k + full + 1], last, 0) else []
  {
    hide BufRead, ReadAll, WholeBlocks;
    ReadAllInParts(bs, cs, offset / bs, offset % bs, n, full, last);
  }

  /** The first, the whole and the last blocks of a read, which are all there and long enough. */
  lemma ReadPlan(bs: nat, cs: seq<Bytes>, offset: nat, n: nat, start: nat, inner: nat, first: nat, full: nat, last: nat)
    requires bs > 0 && Shaped(bs, cs) && offset + n <= |Flatten(cs)| && offset / bs < |cs|
    requires start == offset / bs && inner == offset % bs && first == Min(bs - inner, n)
             && Spans(bs, offset, n, full, last)
    ensures Fits(bs, cs, start, inner, first, full, last)
    ensures ReadAt(bs, cs, offset, n) ==
            BufRead(cs[start], first, inner) + WholeBlocks(bs, cs, start + 1, full) +
            if last > 0 then BufRead(cs[start + full + 1], last, 0) else []
  {
    hide Shaped, Flatten, ReadAt, BufRead, BlockCount, Spans, WholeBlocks;
    LastBlock(bs, cs, offset + n);
    Extent(bs, offset, n, full, last, |cs|);
    ReadInParts(bs, cs, offset, n, full, last);
    AllFit(bs, cs, offset, n, full, last);
  }

  /** The sum of the block sizes is the size of the contents. */
  lemma {:induction false} SizeStep(cs: seq<Bytes>, k: nat)
    requires k < |cs|
    ensures |Flatten(cs[..k + 1])| == |Flatten(cs[..k])| + |cs[k]|
  {
    assert cs[..k + 1] == cs[..k] + [cs[k]];
    FlattenConcat(cs[..k], [cs[k]]);
    assert Flatten([cs[k]]) == cs[k] + [];
  }
}
