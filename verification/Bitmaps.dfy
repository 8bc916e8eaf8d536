// A bitmap over consecutive buffers of the pool.
module Bitmaps {
  import opened ByteStrings
  import opened Buffers
  import opened Chunks
  import opened Blocks
  import opened Inodes
  import opened Pools

  // ---- Bits of a byte ----

  function ToBits(c: Byte): bv8 {
    (c as int) as bv8
  }

  function OfBits(v: bv8): Byte {
    (v as int) as char
  }

  function Mask(bit: nat): bv8
    requires bit < 8
  {
    (1 as bv8) << bit
  }

  function SetBitOf(v: bv8, bit: nat): bv8
    requires bit < 8
  {
    v | Mask(bit)
  }

  function RemoveBitOf(v: bv8, bit: nat): bv8
    requires bit < 8
  {
    v & !Mask(bit)
  }

  function GetBitOf(v: bv8, bit: nat): bool
    requires bit < 8
  {
    Mask(bit) & v != 0
  }

  lemma BitsOfByte(v: bv8)
    ensures ToBits(OfBits(v)) == v
  {
  }

  lemma Masks(i: nat)
    requires i < 8
    ensures Mask(i) ==
            match i
            case 0 => 1 case 1 => 2 case 2 => 4 case 3 => 8 case 4 => 16 case 5 => 32 case 6 => 64 case _ => 128
  {
  }

  lemma MasksApart(i: nat, j: nat)
    requires i < 8 && j < 8
    ensures Mask(i) & Mask(j) == if i == j then Mask(i) else 0
    ensures Mask(i) != 0
  {
    Masks(i);
    Masks(j);
    hide Mask;
  }

  lemma ApartMasks(v: bv8, a: bv8, b: bv8)
    requires a & b == 0
    ensures b & (v | a) == b & v && b & (v & !a) == b & v
  {
  }

  lemma SameMask(v: bv8, a: bv8)
    ensures a & (v | a) == a && a & (v & !a) == 0
  {
  }

  /** Setting or removing a bit changes that bit and no other. */
  lemma BitsApart(v: bv8, i: nat, j: nat)
    requires i < 8 && j < 8
    ensures GetBitOf(SetBitOf(v, i), j) == (i == j || GetBitOf(v, j))
    ensures GetBitOf(RemoveBitOf(v, i), j) == (i != j && GetBitOf(v, j))
  {
    hide Mask;
    MasksApart(i, j);
    if i == j { SameMask(v, Mask(i)); } else { ApartMasks(v, Mask(i), Mask(j)); }
  }

  /** Binary digit `bit` of a number, the lowest first. */
  function Digit(n: nat, bit: nat): bool {
    if bit == 0 then n % 2 == 1 else Digit(n / 2, bit - 1)
  }

  lemma LowDigit(v: bv8)
    ensures v & 1 != 0 <==> v as int % 2 == 1
  {
  }

  lemma HalfByte(v: bv8)
    ensures (v >> 1) as int == v as int / 2
  {
  }

  lemma MaskBelow(v: bv8, bit: nat)
    requires 0 < bit < 8
    ensures Mask(bit) & v != 0 <==> Mask(bit - 1) & (v >> 1) != 0
  {
    Masks(bit);
    Masks(bit - 1);
    hide Mask;
    MasksBelow(v);
  }

  lemma MasksBelow(v: bv8)
    ensures v & 2 != 0 <==> (v >> 1) & 1 != 0
    ensures v & 4 != 0 <==> (v >> 1) & 2 != 0
    ensures v & 8 != 0 <==> (v >> 1) & 4 != 0
    ensures v & 16 != 0 <==> (v >> 1) & 8 != 0
    ensures v & 32 != 0 <==> (v >> 1) & 16 != 0
    ensures v & 64 != 0 <==> (v >> 1) & 32 != 0
    ensures v & 128 != 0 <==> (v >> 1) & 64 != 0
  {
  }

  lemma {:induction false} BitIsDigit(v: bv8, bit: nat)
    requires bit < 8
    ensures GetBitOf(v, bit) <==> Digit(v as int, bit)
    decreases bit
  {
    if bit == 0 {
      Masks(0);
      LowDigit(v);
    } else {
      MaskBelow(v, bit);
      HalfByte(v);
      BitIsDigit(v >> 1, bit - 1);
    }
  }

  // ---- Bits in the pool ----

  /** The buffer that holds bit `i`, the byte in it, and the bit in the byte. */
  function BlockOfBit(bs: nat, start: nat, i: nat): nat
    requires bs > 0
  {
    i / 8 / bs + start
  }

  function ByteOfBit(bs: nat, i: nat): (r: nat)
    requires bs > 0
    ensures r < bs
  {
    i / 8 % bs
  }

  /** The pool has the byte of bit `i`. */
  predicate Held(p: Pool, bs: nat, start: nat, i: nat) {
    bs > 0 && BlockOfBit(bs, start, i) in p && ByteOfBit(bs, i) < |p[BlockOfBit(bs, start, i)].data|
  }

  function BitIn(p: Pool, bs: nat, start: nat, i: nat): bool
    requires Held(p, bs, start, i)
  {
    GetBitOf(ToBits(p[BlockOfBit(bs, start, i)].data[ByteOfBit(bs, i)]), i % 8)
  }

  function PutBit(p: Pool, bs: nat, start: nat, i: nat, bit: bool): Pool
    requires Held(p, bs, start, i)
  {
    var id, off := BlockOfBit(bs, start, i), ByteOfBit(bs, i);
    var v := ToBits(p[id].data[off]);
    p[id := p[id].(data := p[id].data[off := OfBits(if bit then SetBitOf(v, i % 8) else RemoveBitOf(v, i % 8))])]
  }

  /** Two bits never share a place. */
  lemma PlaceIsInjective(bs: nat, start: nat, i: nat, j: nat)
    requires bs > 0
    requires BlockOfBit(bs, start, i) == BlockOfBit(bs, start, j) && ByteOfBit(bs, i) == ByteOfBit(bs, j)
             && i % 8 == j % 8
    ensures i == j
  {
    DivMod(i / 8, bs);
    DivMod(j / 8, bs);
  }

  /** After a bit is set, reading it gives what was set, and reading any other gives what it was. */
  lemma SetThenGet(p: Pool, bs: nat, start: nat, i: nat, bit: bool, j: nat)
    requires Held(p, bs, start, i) && Held(p, bs, start, j)
    ensures Held(PutBit(p, bs, start, i, bit), bs, start, j)
    ensures BitIn(PutBit(p, bs, start, i, bit), bs, start, j) == if j == i then bit else BitIn(p, bs, start, j)
  {
    hide BlockOfBit, ByteOfBit, SetBitOf, RemoveBitOf, GetBitOf, ToBits, OfBits;
    var id, off := BlockOfBit(bs, start, i), ByteOfBit(bs, i);
    var v := ToBits(p[id].data[off]);
    BitsOfByte(SetBitOf(v, i % 8));
    BitsOfByte(RemoveBitOf(v, i % 8));
    BitsApart(v, i % 8, j % 8);
    if BlockOfBit(bs, start, j) == id && ByteOfBit(bs, j) == off && j % 8 == i % 8 {
      PlaceIsInjective(bs, start, i, j);
    }
  }

  // ---- Consecutive full blocks as an array of booleans ----

  ghost predicate FullBlocks(p: Pool, bs: nat, start: nat, count: nat) {
    bs > 0 && forall id: nat :: start <= id < start + count ==> id in p && |p[id].data| == bs
  }

  /** How many bits `count` blocks hold. */
  function Capacity(bs: nat, count: nat): nat {
    8 * (bs * count)
  }

  lemma InRange(p: Pool, bs: nat, start: nat, count: nat, i: nat)
    requires FullBlocks(p, bs, start, count) && i < Capacity(bs, count)
    ensures Held(p, bs, start, i)
  {
    var q := i / 8 / bs;
    DivMod(i / 8, bs);
    if q >= count { Mono(count, q, bs); }
  }

  ghost function AsArray(p: Pool, bs: nat, start: nat, count: nat): (a: seq<bool>)
    requires FullBlocks(p, bs, start, count)
    ensures |a| == Capacity(bs, count)
  {
    seq(Capacity(bs, count), i requires 0 <= i < Capacity(bs, count) =>
      (InRange(p, bs, start, count, i); BitIn(p, bs, start, i)))
  }

  /** The blocks stay full, and setting a bit is an assignment to an array of booleans. */
  lemma BitmapIsArray(p: Pool, bs: nat, start: nat, count: nat, i: nat, bit: bool)
    requires FullBlocks(p, bs, start, count) && i < Capacity(bs, count)
    ensures Held(p, bs, start, i)
    ensures var q := PutBit(p, bs, start, i, bit);
            && FullBlocks(q, bs, start, count)
            && AsArray(q, bs, start, count) == AsArray(p, bs, start, count)[i := bit]
  {
    InRange(p, bs, start, count, i);
    var q := PutBit(p, bs, start, i, bit);
    assert FullBlocks(q, bs, start, count);
    hide PutBit, Held, BitIn, FullBlocks;
    forall j: nat | j < Capacity(bs, count)
      ensures AsArray(q, bs, start, count)[j] == AsArray(p, bs, start, count)[i := bit][j]
    {
      InRange(p, bs, start, count, j);
      SetThenGet(p, bs, start, i, bit, j);
    }
  }

  /** The bytes of `count` consecutive buffers, one after the other. */
  function Joined(p: Pool, start: nat, count: nat): Bytes
    requires forall id: nat :: start <= id < start + count ==> id in p
  {
    if count == 0 then [] else Joined(p, start, count - 1) + p[start + count - 1].data
  }

  lemma {:induction false} JoinedAt(p: Pool, bs: nat, start: nat, count: nat, q: nat, r: nat, at: nat)
    requires FullBlocks(p, bs, start, count) && q < count && r < bs && at == bs * q + r
    ensures at < |Joined(p, start, count)| && Joined(p, start, count)[at] == p[start + q].data[r]
  {
    JoinedSize(p, bs, start, count - 1);
    if q < count - 1 { JoinedAt(p, bs, start, count - 1, q, r, at); }
  }

  lemma {:induction false} JoinedSize(p: Pool, bs: nat, start: nat, count: nat)
    requires FullBlocks(p, bs, start, count)
    ensures |Joined(p, start, count)| == bs * count
  {
    if count > 0 { JoinedSize(p, bs, start, count - 1); }
  }

  /** Bit `i` of consecutive full blocks is binary digit `i % 8` of byte `i / 8` of their bytes, taken together. */
  lemma BitOfJoined(p: Pool, bs: nat, start: nat, count: nat, i: nat)
    requires FullBlocks(p, bs, start, count) && i < 8 * (bs * count)
    ensures Held(p, bs, start, i) && i / 8 < |Joined(p, start, count)|
    ensures BitIn(p, bs, start, i) <==> Digit(Joined(p, start, count)[i / 8] as int, i % 8)
  {
    InRange(p, bs, start, count, i);
    BlockInRange(bs, count, i / 8);
    JoinedAt(p, bs, start, count, i / 8 / bs, i / 8 % bs, i / 8);
    hide Joined, FullBlocks, GetBitOf, ToBits, Digit;
    ByteValue(Joined(p, start, count)[i / 8], i % 8);
  }

  lemma BlockInRange(bs: nat, count: nat, m: nat)
    requires bs > 0 && m < bs * count
    ensures m / bs < count && m == bs * (m / bs) + m % bs
  {
    DivMod(m, bs);
    if m / bs >= count { Mono(count, m / bs, bs); }
  }

  lemma ByteValue(c: Byte, bit: nat)
    requires bit < 8
    ensures GetBitOf(ToBits(c), bit) <==> Digit(c as int, bit)
  {
    hide GetBitOf, Digit;
    BitIsDigit(ToBits(c), bit);
    BitsValue(c);
  }

  lemma DoubleByte(y: bv8, x: bv8)
    requires y as int < 128 && x as int < 2
    ensures ((y << 1) | x) as int == 2 * y as int + x as int
  {
  }

  /** The bits of a number, built digit by digit. */
  function Built(n: nat): (v: bv8)
    requires n < 256
    ensures v as int == n
  {
    if n == 0 then 0
    else
      DoubleByte(Built(n / 2), if n % 2 == 1 then 1 else 0);
      (Built(n / 2) << 1) | (if n % 2 == 1 then 1 else 0)
  }

  lemma BitsValue(c: Byte)
    ensures ToBits(c) as int == c as int
  {
    var v := Built(c as int);
    BitsOfByte(v);
    SameChar(c, v);
  }

  lemma SameChar(c: Byte, v: bv8)
    requires v as int == c as int
    ensures OfBits(v) == c
  {
  }

  class Bitmap {
    const filesystem: BufferPool
    const blockSize: nat
    const startingBufferId: nat

    constructor (filesystem: BufferPool, blockSize: nat, startingBufferId: nat)
      ensures this.filesystem == filesystem && this.blockSize == blockSize && this.startingBufferId == startingBufferId
    {
      this.filesystem := filesystem;
      this.blockSize := blockSize;
      this.startingBufferId := startingBufferId;
    }

    /** `byte` is what the source's byte variable happens to hold before anything is read into it. */
    method SetBitInMap(location: nat, bit: bool, byte: Byte) returns (r: Result<()>)
      requires filesystem.Valid() && blockSize > 0
      modifies filesystem.Repr
      ensures filesystem.Valid() && filesystem.Repr == old(filesystem.Repr)
      ensures r == if BlockOfBit(blockSize, startingBufferId, location) in old(filesystem.Packs()) then Ok(())
              else Err(BufferNotFound)
      ensures filesystem.Packs() ==
              if Held(old(filesystem.Packs()), blockSize, startingBufferId, location)
              then PutBit(old(filesystem.Packs()), blockSize, startingBufferId, location, bit)
              else old(filesystem.Packs())
    {
      hide BufferPool.Valid, BufferPool.Packs, BlockOfBit, ByteOfBit, SetBitOf, RemoveBitOf, ToBits, OfBits,
           BufWrite, BufRead;
      var byteLocInBlock := BlockOfBit(blockSize, startingBufferId, location);
      var byteOffInBlock := ByteOfBit(blockSize, location);
      var bitOffset := location % 8;
      if byteLocInBlock !in filesystem.packs {
        return Err(BufferNotFound);
      }
      OneByte(filesystem.Packs()[byteLocInBlock].data, byteOffInBlock);
      var read := filesystem.ReadBuffer(byteLocInBlock, 1, byteOffInBlock);
      var v := ToBits(if read == [] then byte else read[0]);
      v := if bit then SetBitOf(v, bitOffset) else RemoveBitOf(v, bitOffset);
      ghost var p := filesystem.Packs();
      var n := filesystem.WriteBuffer(byteLocInBlock, [OfBits(v)], byteOffInBlock, false);
      assert p[byteLocInBlock := p[byteLocInBlock].(data := p[byteLocInBlock].data)] == p;
      return Ok(());
    }

    method GetBitInMap(location: nat, byte: Byte) returns (r: Result<bool>)
      requires filesystem.Valid() && blockSize > 0
      ensures r == if BlockOfBit(blockSize, startingBufferId, location) !in filesystem.Packs() then Err(BufferNotFound)
                   else if Held(filesystem.Packs(), blockSize, startingBufferId, location)
                        then Ok(BitIn(filesystem.Packs(), blockSize, startingBufferId, location))
                   else Ok(GetBitOf(ToBits(byte), location % 8))
    {
      hide BufferPool.Valid, BufferPool.Packs, BlockOfBit, ByteOfBit, GetBitOf, ToBits, BufRead;
      var byteLocInBlock := BlockOfBit(blockSize, startingBufferId, location);
      if byteLocInBlock !in filesystem.packs {
        return Err(BufferNotFound);
      }
      OneByte(filesystem.Packs()[byteLocInBlock].data, ByteOfBit(blockSize, location));
      var read := filesystem.ReadBuffer(byteLocInBlock, 1, ByteOfBit(blockSize, location));
      return Ok(GetBitOf(ToBits(if read == [] then byte else read[0]), location % 8));
    }
  }

  /** Reading and writing one byte; where a buffer has no such byte nothing is read and nothing is written. */
  lemma OneByte(data: Bytes, off: nat)
    ensures BufRead(data, 1, off) == if off < |data| then [data[off]] else []
    ensures forall c: Byte {:trigger BufWrite(data, [c], off, false)} ::
              BufWrite(data, [c], off, false) == if off < |data| then data[off := c] else data
  {
  }
}
