// What write and truncate do to the bytes of a file, case by case.
module FileOutcomes {
  import opened ByteStrings
  import opened Buffers
  import opened Inodes
  import opened Stores
  import opened Histories
  import opened Filesystems

  // ---- Bytes ----

  /** `b` with a gap of zero bytes behind it that ends at `n`. */
  function Gap(b: Bytes, n: nat): Bytes
    requires n >= |b|
  {
    b + seq(n - |b|, _ => '\0')
  }

  lemma ResizeExactly(b: Bytes, n: nat)
    ensures n <= |b| ==> Resize(b, n) == b[..n]
    ensures n > |b| ==> Resize(b, n) == Gap(b, n)
  {
  }

  /** The bytes that a write of at least one byte leaves, and how many of them were written. */
  lemma BytesExactly(bs: nat, b: Bytes, offset: nat, d: Bytes)
    requires bs > 0 && d != []
    ensures offset <= |b| ==> WriteBytes(bs, b, offset, d, true) == Ok((b[..offset] + d, |d|))
    ensures offset > |b| ==> WriteBytes(bs, b, offset, d, true) == Ok((Gap(b, offset) + d, |d|))
    ensures offset == |b| && |b| % bs == 0 ==> WriteBytes(bs, b, offset, d, false) == Err(OutOfRange)
    ensures offset > |b| || (offset == |b| && |b| % bs != 0) ==> WriteBytes(bs, b, offset, d, false) == Ok((b, 0))
    ensures offset < |b| ==>
              var n := if |d| <= |b| - offset then |d| else |b| - offset;
              WriteBytes(bs, b, offset, d, false) == Ok((b[..offset] + d[..n] + b[offset + n..], n))
  {
    ResizeExactly(b, offset);
    FixedWriteExactly(b, d, offset);
    hide Resize, BufWrite, Fitting;
    if offset == |b| { assert b[..offset] + d[..0] + b[offset + 0..] == b; }
  }

  /** POSIX write(): bytes before and after stay, a gap is filled with zeros. */
  lemma PosixExactly(b: Bytes, offset: nat, d: Bytes)
    ensures d == [] ==> PosixWrite(b, offset, d) == b
    ensures d != [] && offset <= |b| && |d| <= |b| - offset ==>
              PosixWrite(b, offset, d) == b[..offset] + d + b[offset + |d|..]
    ensures d != [] && offset <= |b| && |d| > |b| - offset ==> PosixWrite(b, offset, d) == b[..offset] + d
    ensures d != [] && offset > |b| ==> PosixWrite(b, offset, d) == Gap(b, offset) + d
  {
    if offset + |d| > |b| {
      ResizeExactly(b, offset + |d|);
      assert Resize(b, offset + |d|)[offset + |d|..] == [];
    }
  }

  // ---- Files in the store ----

  /** `n` bytes were written, and the file has these bytes now; nothing else that any version shows has changed. */
  ghost predicate Written(s: Store, r: Result<Done<Store>>, i: nat, bytes: Bytes, n: nat)
    requires CURRENT in s.versions
  {
    && r.Ok? && r.value.ret == n && StoreInv(r.value.state) && r.value.state.bs == s.bs
    && Abs(r.value.state) == Abs(s)[CURRENT := View(s, CURRENT)[i := Node(false, bytes)]]
  }

  lemma ShownIsListed(s: Store, i: nat)
    requires StoreInv(s) && i in View(s, CURRENT)
    ensures CURRENT in Abs(s) && Abs(s)[CURRENT] == View(s, CURRENT) && !OnlyInSnapshots(Abs(s), i)
  {
    hide StoreInv, View;
    AbsCurrent(s);
  }

  lemma WritesBytes(s: Store, i: nat, offset: nat, d: Bytes, resize: bool)
    requires StoreInv(s) && i in View(s, CURRENT)
    ensures var r := StoreWrite(s, i, offset, d, resize);
            if View(s, CURRENT)[i].isDir then r == Err(InvalidWriteInvoke)
            else
              match WriteBytes(s.bs, View(s, CURRENT)[i].bytes, offset, d, resize)
              case Err(e) => r == Err(e)
              case Ok((bytes, n)) => Written(s, r, i, bytes, n)
  {
    hide StoreInv, View, Abs, StoreWrite, WriteBytes, OnlyInSnapshots;
    ShownIsListed(s, i);
    WriteRefines(s, i, offset, d, resize);
  }

  /** write() in the fixed mode, on an inode of the current version. */
  lemma FixedWriteIs(s: Store, i: nat, offset: nat, d: Bytes)
    requires StoreInv(s) && i in View(s, CURRENT)
    ensures var r, b := StoreWrite(s, i, offset, d, false), View(s, CURRENT)[i].bytes;
            if View(s, CURRENT)[i].isDir then r == Err(InvalidWriteInvoke)
            else if d == [] || offset > |b| then Written(s, r, i, b, 0)
            else if offset == |b| then (if |b| % s.bs == 0 then r == Err(OutOfRange) else Written(s, r, i, b, 0))
            else
              var n := if |d| <= |b| - offset then |d| else |b| - offset;
              Written(s, r, i, b[..offset] + d[..n] + b[offset + n..], n)
  {
    hide StoreInv, View, StoreWrite, Written;
    WritesBytes(s, i, offset, d, false);
    if d != [] { BytesExactly(s.bs, View(s, CURRENT)[i].bytes, offset, d); }
    hide BufWrite, Fitting;
  }

  /** write() in the resizing mode: the file ends where the data ends, also when it was longer. */
  lemma ResizingWriteIs(s: Store, i: nat, offset: nat, d: Bytes)
    requires StoreInv(s) && i in View(s, CURRENT)
    ensures var r, b := StoreWrite(s, i, offset, d, true), View(s, CURRENT)[i].bytes;
            if View(s, CURRENT)[i].isDir then r == Err(InvalidWriteInvoke)
            else if d == [] then Written(s, r, i, b, 0)
            else if offset <= |b| then Written(s, r, i, b[..offset] + d, |d|)
            else Written(s, r, i, Gap(b, offset) + d, |d|)
  {
    hide StoreInv, View, StoreWrite, Written;
    WritesBytes(s, i, offset, d, true);
    if d != [] { BytesExactly(s.bs, View(s, CURRENT)[i].bytes, offset, d); }
    hide Resize;
  }

  /** do_write: POSIX write() on the file. */
  lemma PWriteIs(s: Store, i: nat, offset: nat, d: Bytes)
    requires StoreInv(s) && i in View(s, CURRENT)
    ensures var r, b := StorePWrite(s, i, offset, d), View(s, CURRENT)[i].bytes;
            if View(s, CURRENT)[i].isDir then r == Err(InvalidWriteInvoke)
            else if d == [] then Written(s, r, i, b, 0)
            else if offset > |b| then Written(s, r, i, Gap(b, offset) + d, |d|)
            else if |d| > |b| - offset then Written(s, r, i, b[..offset] + d, |d|)
            else Written(s, r, i, b[..offset] + d + b[offset + |d|..], |d|)
  {
    hide StoreInv, View, Abs, StorePWrite, PosixWrite, OnlyInSnapshots;
    ShownIsListed(s, i);
    PWriteRefines(s, i, offset, d);
    PosixExactly(View(s, CURRENT)[i].bytes, offset, d);
  }

  /** truncate(), on an inode of the current version. */
  lemma TruncateIs(s: Store, i: nat, n: nat)
    requires StoreInv(s) && i in View(s, CURRENT)
    ensures var r, node := StoreTruncate(s, i, n), View(s, CURRENT)[i];
            var bytes := if n <= |node.bytes| then node.bytes[..n] else Gap(node.bytes, n);
            && r.Ok? && r.value.ret == 0 && StoreInv(r.value.state) && r.value.state.bs == s.bs
            && Abs(r.value.state) == Abs(s)[CURRENT := View(s, CURRENT)[i := Node(node.isDir, bytes)]]
  {
    hide StoreInv, View, Abs, StoreTruncate, OnlyInSnapshots;
    ShownIsListed(s, i);
    TruncateRefinesStore(s, i, n);
    ResizeExactly(View(s, CURRENT)[i].bytes, n);
    hide Resize;
  }

  /** An inode that no version lists cannot be written or truncated. */
  lemma UnlistedIs(s: Store, i: nat, offset: nat, d: Bytes, resize: bool, n: nat)
    requires StoreInv(s) && forall v :: v in s.versions ==> i !in View(s, v)
    ensures StoreWrite(s, i, offset, d, resize) == Err(InodeNotFound)
    ensures StorePWrite(s, i, offset, d) == Err(InodeNotFound)
    ensures StoreTruncate(s, i, n) == Err(InodeNotFound)
  {
    hide StoreInv, View;
    AbsIds(s);
    assert i !in AllIds(Abs(s));
  }
}
