// Block arithmetic on values: the contents of a file as a list of chunks, one per block.
module Chunks {
  import opened ByteStrings
  import opened Buffers

  function BlockCount(n: nat, bs: nat): nat
    requires bs > 0
  {
    n / bs + if n % bs != 0 then 1 else 0
  }

  lemma DivUnique(n: nat, bs: nat, q: int, r: int)
    requires bs > 0 && n == q * bs + r && 0 <= r < bs
    ensures n / bs == q && n % bs == r
  {
    var q' := n / bs;
    var r' := n % bs;
    assert (q - q') * bs == r' - r && (q' - q) * bs == r - r';
    if q > q' {
      Mono(1, q - q', bs);
    } else if q < q' {
      Mono(1, q' - q, bs);
    }
  }

  lemma DivMod(n: nat, bs: nat)
    requires bs > 0
    ensures n == (n / bs) * bs + n % bs
    ensures n % bs < bs
  {
  }

  lemma Mono(a: int, b: int, c: nat)
    requires a <= b
    ensures a * c <= b * c
  {
  }

  lemma BlockCountStep(n: nat, bs: nat)
    requires bs > 0
    ensures n == 0 ==> BlockCount(n, bs) == 0
    ensures 0 < n <= bs ==> BlockCount(n, bs) == 1
    ensures n < bs ==> n / bs == 0 && n % bs == n
    ensures n >= bs ==> n / bs == (n - bs) / bs + 1 && n % bs == (n - bs) % bs
    ensures n >= bs ==> BlockCount(n, bs) == 1 + BlockCount(n - bs, bs)
  {
    if n < bs {
      DivUnique(n, bs, 0, n);
    } else {
      var q, r := (n - bs) / bs, (n - bs) % bs;
      assert n == (q + 1) * bs + r;
      DivUnique(n, bs, q + 1, r);
      if n == bs { DivUnique(0, bs, 0, 0); }
    }
  }

  /** Every block is full except the last, which is not empty. */
  ghost predicate Shaped(bs: nat, cs: seq<Bytes>) {
    && (forall k :: 0 <= k < |cs| - 1 ==> |cs[k]| == bs)
    && (cs != [] ==> 1 <= |cs[|cs| - 1]| <= bs)
  }

  /**
    * The block list of a resized file before the blocks themselves are resized: blocks cut off, or empty ones
    * appended.
    */
  function PadOrCut(cs: seq<Bytes>, count: nat): (r: seq<Bytes>)
    ensures |r| == count
  {
    if count <= |cs| then cs[..count] else cs + seq(count - |cs|, _ => [])
  }

  /** Resize the blocks from the head of `ts` on so that they hold `n` bytes together. */
  function SizeAll(bs: nat, ts: seq<Bytes>, n: nat): (r: seq<Bytes>)
    requires bs > 0
    ensures |r| == |ts|
    decreases n
  {
    if n == 0 || ts == [] then ts
    else [Resize(ts[0], Min(bs, n))] + SizeAll(bs, ts[1..], n - Min(bs, n))
  }

  /** Write `d` into the blocks from the head of `ts` on, `inner` bytes into the first of them. */
  function WriteAll(bs: nat, ts: seq<Bytes>, inner: nat, d: Bytes, resize: bool): (r: seq<Bytes>)
    requires inner < bs
    ensures |r| == |ts|
    decreases |d|
  {
    if d == [] || ts == [] then ts
    else
      var w := Min(bs - inner, |d|);
      [BufWrite(ts[0], d[..w], inner, resize)] + WriteAll(bs, ts[1..], 0, d[w..], resize)
  }

  /** Read `n` bytes from the blocks from the head of `ts` on, starting `inner` bytes into the first of them. */
  function ReadAll(bs: nat, ts: seq<Bytes>, inner: nat, n: nat): (r: Bytes)
    requires inner < bs
    decreases n
  {
    if n == 0 || ts == [] then []
    else
      var w := Min(bs - inner, n);
      BufRead(ts[0], w, inner) + ReadAll(bs, ts[1..], 0, n - w)
  }

  lemma ShapedTail(bs: nat, cs: seq<Bytes>)
    requires Shaped(bs, cs) && cs != []
    ensures Shaped(bs, cs[1..])
    ensures Flatten(cs) == cs[0] + Flatten(cs[1..])
    ensures |cs| > 1 ==> |cs[0]| == bs && Flatten(cs[1..]) != []
    ensures |cs| == 1 ==> 1 <= |cs[0]| <= bs && Flatten(cs) == cs[0]
  {
    if |cs| > 1 {
      assert cs[1..][|cs| - 2] == cs[|cs| - 1];
      assert Flatten(cs[1..]) == cs[1..][0] + Flatten(cs[1..][1..]);
    } else {
      assert Flatten(cs) == cs[0] + [];
    }
  }

  /** A shaped list has exactly as many blocks as its bytes need. */
  lemma {:induction false} ShapedCount(bs: nat, cs: seq<Bytes>)
    requires bs > 0 && Shaped(bs, cs)
    ensures |cs| == BlockCount(|Flatten(cs)|, bs)
    ensures forall c :: c in cs ==> |c| <= bs
  {
    if cs != [] {
      ShapedTail(bs, cs);
      ShapedCount(bs, cs[1..]);
      BlockCountStep(|Flatten(cs)|, bs);
    }
  }

  /** truncate() on blocks is cut-or-zero-extend on bytes, and leaves a shaped list. */
  lemma {:induction false} TruncateRefines(bs: nat, cs: seq<Bytes>, n: nat)
    requires bs > 0 && Shaped(bs, cs)
    ensures var r := SizeAll(bs, PadOrCut(cs, BlockCount(n, bs)), n);
            && Flatten(r) == Resize(Flatten(cs), n)
            && Shaped(bs, r)
            && |r| == BlockCount(n, bs)
    decreases n
  {
    hide Shaped, Flatten, BlockCount, PadOrCut, Resize;
    BlockCountStep(n, bs);
    if n == 0 {
      TruncateToNothing(bs, cs);
    } else {
      var m := n - Min(bs, n);
      var rest := if cs == [] then [] else cs[1..];
      if cs != [] { ShapedTail(bs, cs); } else { NothingShaped(bs); }
      TruncateRefines(bs, rest, m);
      BlockCountStep(m, bs);
      TruncateFirst(bs, cs, n);
    }
  }

  lemma TruncateToNothing(bs: nat, cs: seq<Bytes>)
    requires bs > 0
    ensures PadOrCut(cs, 0) == [] && SizeAll(bs, [], 0) == [] && Flatten([]) == Resize(Flatten(cs), 0) && Shaped(bs, [])
  {
  }

  lemma NothingShaped(bs: nat)
    ensures Shaped(bs, [])
  {
  }

  /** One step: the first block is resized, the rest as a file of its own. */
  lemma TruncateFirst(bs: nat, cs: seq<Bytes>, n: nat)
    requires bs > 0 && Shaped(bs, cs) && n > 0 && BlockCount(n, bs) == 1 + BlockCount(n - Min(bs, n), bs)
    requires n <= bs ==> BlockCount(n - Min(bs, n), bs) == 0
    requires n > bs ==> BlockCount(n - Min(bs, n), bs) > 0
    requires var rest := if cs == [] then [] else cs[1..];
             var m := n - Min(bs, n);
             var tail := SizeAll(bs, PadOrCut(rest, BlockCount(m, bs)), m);
             Flatten(tail) == Resize(Flatten(rest), m) && Shaped(bs, tail)
    ensures var r := SizeAll(bs, PadOrCut(cs, BlockCount(n, bs)), n);
            Flatten(r) == Resize(Flatten(cs), n) && Shaped(bs, r)
  {
    hide BlockCount, Shaped, Resize;
    var rest := if cs == [] then [] else cs[1..];
    var m := n - Min(bs, n);
    var p := PadOrCut(cs, BlockCount(n, bs));
    assert p[1..] == PadOrCut(rest, BlockCount(m, bs));
    hide PadOrCut;
    var tail := SizeAll(bs, p[1..], m);
    var r := SizeAll(bs, p, n);
    assert r == [Resize(p[0], Min(bs, n))] + tail;
    assert r[1..] == tail;
    HeadOf(cs, BlockCount(n, bs));
    TruncateHead(bs, cs, n, p[0]);
    assert Flatten(r) == r[0] + Flatten(tail);
    ShapedCons(bs, r[0], tail);
  }

  lemma HeadOf(cs: seq<Bytes>, count: nat)
    requires count > 0
    ensures PadOrCut(cs, count)[0] == if cs == [] then [] else cs[0]
  {
  }

  lemma ShapedCons(bs: nat, c: Bytes, tail: seq<Bytes>)
    requires Shaped(bs, tail)
    requires tail == [] ==> 1 <= |c| <= bs
    requires tail != [] ==> |c| == bs
    ensures Shaped(bs, [c] + tail)
  {
    var r := [c] + tail;
    if tail != [] {
      assert r[|r| - 1] == tail[|tail| - 1];
      forall k | 0 <= k < |r| - 1
        ensures |r[k]| == bs
      {
        if k > 0 { assert r[k] == tail[k - 1]; }
      }
    }
  }

  lemma TruncateHead(bs: nat, cs: seq<Bytes>, n: nat, head: Bytes)
    requires bs > 0 && Shaped(bs, cs) && n > 0
    requires head == if cs == [] then [] else cs[0]
    ensures var rest := if cs == [] then [] else cs[1..];
            var m := n - Min(bs, n);
            Resize(Flatten(cs), n) == Resize(head, Min(bs, n)) + Resize(Flatten(rest), m)
  {
    if cs != [] { ShapedTail(bs, cs); }
    if n <= bs {
    } else {
      assert Zeros(n) == Zeros(bs) + Zeros(n - bs);
      if cs == [] {
        assert Resize([], n) == Zeros(n);
        assert Resize([], bs) == Zeros(bs);
      }
    }
  }

  /** Writing into blocks overlays the flat bytes; with resizing this is so when the write ends where the file ends. */
  lemma {:induction false} WriteAllRefines(bs: nat, ts: seq<Bytes>, inner: nat, d: Bytes, resize: bool)
    requires Shaped(bs, ts) && inner < bs
    requires inner + |d| <= |Flatten(ts)|
    requires resize ==> inner + |d| == |Flatten(ts)|
    ensures var r := WriteAll(bs, ts, inner, d, resize);
            && Flatten(r) == Overlay(Flatten(ts), inner, d)
            && Shaped(bs, r)
    decreases |d|
  {
    var r := WriteAll(bs, ts, inner, d, resize);
    var flat := Flatten(ts);
    if d == [] {
      assert Overlay(flat, inner, d) == flat;
    } else {
      ShapedTail(bs, ts);
      var w := Min(bs - inner, |d|);
      var c := BufWrite(ts[0], d[..w], inner, resize);
      var rest := Flatten(ts[1..]);
      assert inner + w <= |ts[0]|;
      WriteFirst(ts[0], inner, d[..w], resize);
      WriteAllRefines(bs, ts[1..], 0, d[w..], resize);
      var tail := WriteAll(bs, ts[1..], 0, d[w..], resize);
      assert r == [c] + tail && r[1..] == tail;
      OverlaySplit(ts[0], rest, inner, d, w);
      ShapedCons(bs, c, tail);
    }
  }

  lemma WriteFirst(c: Bytes, inner: nat, d: Bytes, resize: bool)
    requires inner + |d| <= |c|
    requires resize ==> inner + |d| == |c|
    ensures BufWrite(c, d, inner, resize) == Overlay(c, inner, d)
  {
    assert d[..|d|] == d;
  }

  /** An overlay across a block boundary is an overlay on each side. */
  lemma OverlaySplit(c: Bytes, rest: Bytes, inner: nat, d: Bytes, w: nat)
    requires w <= |d| && inner + w <= |c| && |d| - w <= |rest|
    requires w < |d| ==> inner + w == |c|
    ensures Overlay(c + rest, inner, d) == Overlay(c, inner, d[..w]) + Overlay(rest, 0, d[w..])
  {
    if w == |d| {
      assert d[..w] == d;
    }
  }

  /** Reading from blocks delivers the slice of the flat bytes. */
  lemma {:induction false} ReadAllRefines(bs: nat, ts: seq<Bytes>, inner: nat, n: nat)
    requires Shaped(bs, ts) && inner < bs
    requires inner + n <= |Flatten(ts)|
    ensures ReadAll(bs, ts, inner, n) == Flatten(ts)[inner..inner + n]
    decreases n
  {
    if n != 0 {
      ShapedTail(bs, ts);
      var w := Min(bs - inner, n);
      assert inner + w <= |ts[0]|;
      ReadAllRefines(bs, ts[1..], 0, n - w);
      assert Flatten(ts)[inner..inner + n] == ts[0][inner..inner + w] + Flatten(ts[1..])[..n - w];
    }
  }

  /** `k * bs`, by repeated addition. */
  function Times(k: nat, bs: nat): nat {
    if k == 0 then 0 else bs + Times(k - 1, bs)
  }

  lemma {:induction false} TimesIs(k: nat, bs: nat)
    ensures Times(k, bs) == k * bs
  {
    if k > 0 {
      TimesIs(k - 1, bs);
      assert k * bs == (k - 1) * bs + bs;
    }
  }

  lemma {:induction false} SplitTimes(bs: nat, cs: seq<Bytes>, k: nat, inner: nat)
    requires Shaped(bs, cs)
    requires inner < bs && Times(k, bs) + inner < |Flatten(cs)|
    ensures k < |cs|
    ensures Shaped(bs, cs[k..])
    ensures |Flatten(cs[..k])| == Times(k, bs)
    ensures Flatten(cs) == Flatten(cs[..k]) + Flatten(cs[k..])
    decreases k
  {
    assert cs != [] && Flatten(cs[..0]) == [];
    hide Shaped, Flatten;
    ShapedTail(bs, cs);
    if k == 0 {
      assert cs[0..] == cs;
    } else {
      SplitTimes(bs, cs[1..], k - 1, inner);
      SplitShift(cs, k);
    }
  }

  /** The byte `inner` bytes into block `k` is byte `k * bs + inner` of the flat contents. */
  lemma SplitAt(bs: nat, cs: seq<Bytes>, k: nat, inner: nat)
    requires Shaped(bs, cs)
    requires inner < bs && k * bs + inner < |Flatten(cs)|
    ensures k < |cs|
    ensures Shaped(bs, cs[k..])
    ensures |Flatten(cs[..k])| == k * bs
    ensures Flatten(cs) == Flatten(cs[..k]) + Flatten(cs[k..])
  {
    hide Shaped, Flatten, Times;
    TimesIs(k, bs);
    SplitTimes(bs, cs, k, inner);
  }

  lemma SplitShift(cs: seq<Bytes>, k: nat)
    requires 1 <= k <= |cs|
    ensures cs[1..][k - 1..] == cs[k..]
    ensures Flatten(cs[..k]) == cs[0] + Flatten(cs[1..][..k - 1])
    ensures Flatten(cs) == Flatten(cs[..k]) + Flatten(cs[k..])
  {
    hide Flatten;
    Slices(cs, k);
    FlattenHead(cs[..k]);
    Halves(cs, k);
    FlattenConcat(cs[..k], cs[k..]);
  }

  lemma Slices<T>(cs: seq<T>, k: nat)
    requires 1 <= k <= |cs|
    ensures cs[1..][k - 1..] == cs[k..]
    ensures cs[..k][0] == cs[0] && cs[..k][1..] == cs[1..][..k - 1]
  {
  }

  lemma Halves<T>(cs: seq<T>, k: nat)
    requires k <= |cs|
    ensures cs == cs[..k] + cs[k..]
  {
  }

  lemma FlattenHead(cs: seq<Bytes>)
    requires cs != []
    ensures Flatten(cs) == cs[0] + Flatten(cs[1..])
  {
  }
}
