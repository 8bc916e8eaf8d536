// The growable byte buffer on which every block operation rests.
module Buffers {
  import opened ByteStrings

  /** How many of `length` bytes from `offset` on lie inside a buffer of `size` bytes. */
  function Fitting(size: nat, length: nat, offset: nat): (n: nat)
    ensures n <= length
    ensures offset <= size ==> offset + n <= size
    ensures offset + length <= size ==> n == length
  {
    if offset > size then 0 else if size < length + offset then size - offset else length
  }

  /** The bytes a read of `length` bytes at `offset` delivers. */
  function BufRead(data: Bytes, length: nat, offset: nat): (r: Bytes)
    ensures |r| == Fitting(|data|, length, offset)
  {
    if offset > |data| then [] else data[offset..offset + Fitting(|data|, length, offset)]
  }

  /**
    * The contents after a write: the buffer ends with the written bytes when resizing, and keeps its length
    * otherwise.
    */
  function BufWrite(data: Bytes, src: Bytes, offset: nat, resize: bool): (r: Bytes)
    ensures |r| == if resize then offset + |src| else |data|
  {
    if resize then Overlay(Resize(data, offset + |src|), offset, src)
    else if offset > |data| then data
    else Overlay(data, offset, src[..Fitting(|data|, |src|, offset)])
  }

  lemma BufReadAll(data: Bytes, length: nat)
    requires |data| <= length
    ensures BufRead(data, length, 0) == data
  {
  }

  /** A read delivers what there is from `offset` on, and no more than was asked for. */
  lemma ReadExactly(data: Bytes, length: nat, offset: nat)
    ensures offset > |data| ==> BufRead(data, length, offset) == []
    ensures offset <= |data| && length <= |data| - offset ==>
            BufRead(data, length, offset) == data[offset..offset + length]
    ensures offset <= |data| && length > |data| - offset ==> BufRead(data, length, offset) == data[offset..]
  {
  }

  /** A write in the fixed mode replaces what there is from `offset` on, and no more than was given. */
  lemma FixedWriteExactly(data: Bytes, src: Bytes, offset: nat)
    ensures offset > |data| ==> BufWrite(data, src, offset, false) == data && Fitting(|data|, |src|, offset) == 0
    ensures offset <= |data| ==>
              var n := if |src| <= |data| - offset then |src| else |data| - offset;
              && Fitting(|data|, |src|, offset) == n
              && BufWrite(data, src, offset, false) == data[..offset] + src[..n] + data[offset + n..]
  {
  }

  /** A write in the resizing mode ends the contents with what is written, after a gap of zeros if need be. */
  lemma ResizingWriteExactly(data: Bytes, src: Bytes, offset: nat)
    ensures offset <= |data| ==> BufWrite(data, src, offset, true) == data[..offset] + src
    ensures offset > |data| ==> BufWrite(data, src, offset, true) == data + seq(offset - |data|, _ => '\0') + src
  {
    var n := offset + |src|;
    assert Resize(data, n)[n..] == [];
    if offset > |data| { assert Resize(data, n)[..offset] == data + seq(offset - |data|, _ => '\0'); }
  }

  /** What the loops of a write leave: `before` is resized to `base`, and `n` bytes are copied in. */
  lemma WriteLands(before: Bytes, base: Bytes, after: Bytes, src: Bytes, offset: nat, resize: bool, n: nat)
    requires base == if resize then Resize(before, offset + |src|) else before
    requires n == if resize then |src| else Fitting(|before|, |src|, offset)
    requires after == if n == 0 then base else base[..offset] + src[..n] + base[offset + n..]
    ensures after == BufWrite(before, src, offset, resize)
    ensures WriteExactly(before, src, offset, resize, after, n)
  {
    hide BufWrite, Fitting, Resize;
    FixedWriteExactly(before, src, offset);
    ResizingWriteExactly(before, src, offset);
    if resize {
      Resized(before, base, src, offset);
    } else {
      NothingCopied(before, src, offset);
    }
  }

  lemma Resized(data: Bytes, base: Bytes, src: Bytes, offset: nat)
    requires base == Resize(data, offset + |src|)
    ensures BufWrite(data, src, offset, true) ==
            if src == [] then base else base[..offset] + src[..|src|] + base[offset + |src|..]
  {
    assert src[..|src|] == src;
  }

  lemma NothingCopied(data: Bytes, src: Bytes, offset: nat)
    ensures offset <= |data| ==> data[..offset] + src[..0] + data[offset + 0..] == data
  {
  }

  /** A write, mode by mode: the contents afterwards and the count. */
  ghost predicate WriteExactly(before: Bytes, src: Bytes, offset: nat, resize: bool, after: Bytes, n: nat) {
    if resize then
      && n == |src|
      && after == if offset <= |before| then before[..offset] + src
         else before + seq(offset - |before|, _ => '\0') + src
    else if offset > |before| then n == 0 && after == before
    else
      && n == (if |src| <= |before| - offset then |src| else |before| - offset)
      && after == before[..offset] + src[..n] + before[offset + n..]
  }

  class Buffer {
    var data: Bytes

    constructor ()
      ensures data == []
    {
      data := [];
    }

    constructor FromBytes(newData: Bytes)
      ensures data == newData
    {
      data := [];
      new;
      for i := 0 to |newData|
        invariant data == newData[..i]
      {
        data := data + [newData[i]];
      }
    }

    /** `out` is what the source stores through its `char *`; its length is the source's return value. */
    method Read(length: nat, offset: nat) returns (out: Bytes)
      ensures out == BufRead(data, length, offset)
      ensures offset > |data| ==> out == []
      ensures offset <= |data| ==> out == data[offset..if length <= |data| - offset then offset + length else |data|]
    {
      var readSize;
      if offset > |data| {
        readSize := 0;
      } else if |data| < length + offset {
        readSize := |data| - offset;
      } else {
        readSize := length;
      }

      out := [];
      for i := 0 to readSize
        invariant readSize > 0 ==> offset + readSize <= |data| && out == data[offset..offset + i]
        invariant readSize == 0 ==> out == []
      {
        out := out + [data[i + offset]];
      }
    }

    method Write(src: Bytes, offset: nat, resize: bool) returns (writeSize: nat)
      modifies this
      ensures data == BufWrite(old(data), src, offset, resize)
      ensures writeSize == if resize then |src| else Fitting(|old(data)|, |src|, offset)
      ensures WriteExactly(old(data), src, offset, resize, data, writeSize)
    {
      hide BufWrite, WriteExactly, Resize;
      if !resize {
        if offset > |data| {
          writeSize := 0;
        } else if |data| < |src| + offset {
          writeSize := |data| - offset;
        } else {
          writeSize := |src|;
        }
      } else {
        if |src| + offset > |data| {
          Grow(|src| + offset - |data|);
        } else {
          Shrink(|data| - (|src| + offset));
        }
        writeSize := |src|;
      }
      ghost var base := data;
      Copy(src, offset, writeSize);
      WriteLands(old(data), base, data, src, offset, resize, writeSize);
    }

    /** The copy loop of Write. */
    method Copy(src: Bytes, offset: nat, count: nat)
      requires count <= |src| && (count > 0 ==> offset + count <= |data|)
      modifies this
      ensures data == if count == 0 then old(data) else old(data)[..offset] + src[..count] + old(data)[offset + count..]
    {
      for i := 0 to count
        invariant |data| == |old(data)|
        invariant count > 0 ==> data == old(data)[..offset] + src[..i] + old(data)[offset + i..]
        invariant count == 0 ==> data == old(data)
      {
        data := data[offset + i := src[i]];
      }
    }

    method Truncate(length: nat)
      modifies this
      ensures data == Resize(old(data), length)
    {
      if length > |data| {
        Grow(length - |data|);
      } else if length < |data| {
        Shrink(|data| - length);
      }
    }

    /** The grow loop shared by Write and Truncate. */
    method Grow(count: nat)
      modifies this
      ensures data == Resize(old(data), |old(data)| + count)
    {
      for i := 0 to count
        invariant data == old(data) + Zeros(i)
      {
        data := data + ['\0'];
      }
    }

    /** The shrink loop shared by Write and Truncate. */
    method Shrink(count: nat)
      requires count <= |data|
      modifies this
      ensures data == Resize(old(data), |old(data)| - count)
    {
      for i := 0 to count
        invariant |data| == |old(data)| - i && data == old(data)[..|old(data)| - i]
      {
        data := data[..|data| - 1];
      }
    }
  }
}
