// Byte strings (the contents of buffers, file names, paths and version names) and other shared definitions.
module ByteStrings {
  /** A C++ `char` seen as an unsigned byte. */
  type Byte = c: char | c as int < 256 witness '\0'

  type Bytes = seq<Byte>

  datatype Option<+T> = None | Some(value: T) {
    function GetOr(default: T): T {
      match this
      case None => default
      case Some(v) => v
    }
  }

  function Min(a: int, b: int): int {
    if a < b then a else b
  }

  function Zeros(n: nat): (z: Bytes)
    ensures |z| == n
  {
    seq(n, _ => '\0')
  }

  /** `b` cut to its first `n` bytes, or extended with zeros up to `n` bytes. */
  function Resize(b: Bytes, n: nat): (r: Bytes)
    ensures |r| == n
  {
    if n <= |b| then b[..n] else b + Zeros(n - |b|)
  }

  /** `b` with the bytes from `offset` on replaced by `d`, which must fit. */
  function Overlay(b: Bytes, offset: nat, d: Bytes): (r: Bytes)
    requires offset + |d| <= |b|
    ensures |r| == |b|
  {
    b[..offset] + d + b[offset + |d|..]
  }

  /**
    * What POSIX write() does to the bytes of a regular file: a gap is filled with zeros, bytes before and after stay.
    */
  function PosixWrite(b: Bytes, offset: nat, d: Bytes): Bytes {
    if d == [] then b
    else Overlay(if offset + |d| <= |b| then b else Resize(b, offset + |d|), offset, d)
  }

  function Flatten(cs: seq<Bytes>): Bytes {
    if cs == [] then [] else cs[0] + Flatten(cs[1..])
  }

  lemma {:induction false} FlattenConcat(a: seq<Bytes>, b: seq<Bytes>)
    ensures Flatten(a + b) == Flatten(a) + Flatten(b)
  {
    if a == [] {
      assert a + b == b;
    } else {
      FlattenConcat(a[1..], b);
      assert (a + b)[1..] == a[1..] + b;
    }
  }

  ghost predicate Distinct<T>(l: seq<T>) {
    forall a, b :: 0 <= a < b < |l| ==> l[a] != l[b]
  }

  /** The inode of the root directory. */
  const ROOT: nat := 0

  const SEPARATOR: Byte := '/'
  const CURRENT: Bytes := "current"
  const SNAPSHOT_ENTRY: Bytes := ".snapshot"
}
