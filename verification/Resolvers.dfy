// The directory resolver: the entry list of one directory, read from an inode and written back to it.
module Resolvers {
  import opened ByteStrings
  import opened Chunks
  import opened Blocks
  import opened Inodes
  import opened Pools
  import opened InodeObjects
  import opened Directories
  import opened Filesystems

  /** The entry at `k` is the first of its name. */
  lemma {:induction false} FoundAt(es: seq<Dentry>, k: nat, name: Bytes)
    requires k < |es| && es[k].name == name && forall j :: 0 <= j < k ==> es[j].name != name
    ensures Find(es, name) == Some(es[k].id)
    ensures RemoveName(es, name) == es[..k] + es[k + 1..]
    decreases k
  {
    if k > 0 {
      FoundAt(es[1..], k - 1, name);
      assert es[..k] + es[k + 1..] == [es[0]] + (es[1..][..k - 1] + es[1..][k..]);
    }
  }

  lemma {:induction false} EncodeAllNext(es: seq<Dentry>, i: nat)
    requires i < |es|
    ensures EncodeAll(es[i..]) == EncodeEntry(es[i]) + EncodeAll(es[i + 1..])
  {
    assert es[i..][1..] == es[i + 1..];
  }

  /** What is left to decode decides what the whole decodes to. */
  ghost predicate Decoding(whole: Option<seq<Dentry>>, done: seq<Dentry>, rest: Option<seq<Dentry>>) {
    whole == match rest { case None => None case Some(es) => Some(done + es) }
  }

  lemma DecodingStarts(b: Bytes)
    requires |b| >= 8
    ensures Decoding(Decode(b), [], DecodeAll(b[8..], FromLe(b[..8])))
  {
    var all := DecodeAll(b[8..], FromLe(b[..8]));
    if all.Some? { assert [] + all.value == all.value; }
  }

  lemma DecodingNext(whole: Option<seq<Dentry>>, done: seq<Dentry>, rest: Bytes, count: nat)
    requires count > 0 && Decoding(whole, done, DecodeAll(rest, count))
    ensures |rest| < RECORD ==> whole == None
    ensures |rest| >= RECORD ==>
              match DecodeEntry(rest[..RECORD])
              case None => whole == None
              case Some(e) => Decoding(whole, done + [e], DecodeAll(rest[RECORD..], count - 1))
  {
    if |rest| >= RECORD && DecodeEntry(rest[..RECORD]).Some? {
      var e, tail := DecodeEntry(rest[..RECORD]).value, DecodeAll(rest[RECORD..], count - 1);
      if tail.Some? { assert done + ([e] + tail.value) == done + [e] + tail.value; }
    }
  }

  lemma DecodingEnds(whole: Option<seq<Dentry>>, done: seq<Dentry>, rest: Bytes)
    requires Decoding(whole, done, DecodeAll(rest, 0))
    ensures whole == Some(done)
  {
    assert done + [] == done;
  }

  class DirectoryResolver {
    var path: seq<Dentry>
    const associatedInode: Inode
    const accessVersion: Version

    constructor (inode: Inode, version: Version)
      ensures path == [] && associatedInode == inode && accessVersion == version
    {
      path := [];
      associatedInode := inode;
      accessVersion := version;
    }

    /** The source's constructor: it may throw. */
    static method Open(inode: Inode, version: Version) returns (r: Result<DirectoryResolver>)
      requires inode.Valid() && inode.LoadedAt(version) && inode.ShapedAt(version)
      ensures match OpenVols(inode.filesystem.Packs(), inode.isDir, inode.bufferMap, version)
              case Err(e) => r == Err(e)
              case Ok(es) =>
                && r.Ok? && fresh(r.value) && r.value.path == es
                && r.value.associatedInode == inode && r.value.accessVersion == version
    {
      hide BufferPool.Valid, BufferPool.Packs, Decode, Flatten;
      if !inode.isDir {
        return Err(NotADirectory);
      }
      var resolver := new DirectoryResolver(inode, version);
      var refreshed := resolver.Refresh();
      return if refreshed.Ok? then Ok(resolver) else Err(refreshed.error);
    }

    /** Read the entries again from the inode. */
    method Refresh() returns (r: Result<()>)
      requires this !in associatedInode.filesystem.Repr
      requires associatedInode.Valid() && associatedInode.LoadedAt(accessVersion)
               && associatedInode.ShapedAt(accessVersion)
      modifies this`path
      ensures var packs, vols := associatedInode.filesystem.Packs(), associatedInode.bufferMap;
              if accessVersion !in vols then r == Err(NoSuchSnapshot)
              else
                match Decode(Content(packs, vols[accessVersion]))
                case None => r == Err(MalformedDirectory)
                case Some(es) => r == Ok(()) && path == es
    {
      hide BufferPool.Valid, BufferPool.Packs, Decode, Flatten, Shaped;
      path := [];
      var size := associatedInode.CurrentDataSize(accessVersion);
      if size.Err? {
        return Err(size.error);
      }
      if size.value == 0 {
        DecodeEmpty();
        return Ok(());
      }
      ghost var bank := Bank(associatedInode.filesystem.Packs(), associatedInode.bufferMap[accessVersion]);
      ToStringRefines(associatedInode.blockSize, bank);
      var allPath := associatedInode.ToString(accessVersion);
      r := Parse(allPath.value);
    }

    /** The loop of refresh() over a saved list. */
    method Parse(allPath: Bytes) returns (r: Result<()>)
      requires path == [] && allPath != []
      modifies this`path
      ensures match Decode(allPath)
              case None => r == Err(MalformedDirectory)
              case Some(es) => r == Ok(()) && path == es
    {
      hide Decode, Decoding, DecodeAll;
      if |allPath| < 8 {
        ShortDecode(allPath);
        return Err(MalformedDirectory);
      }
      var savePackCount := FromLe(allPath[..8]);
      var rest := allPath[8..];
      DecodingStarts(allPath);
      for i := 0 to savePackCount
        invariant Decoding(Decode(allPath), path, DecodeAll(rest, savePackCount - i))
      {
        DecodingNext(Decode(allPath), path, rest, savePackCount - i);
        if |rest| < RECORD {
          return Err(MalformedDirectory);
        }
        var record := rest[..RECORD];
        var n := 0;
        while n < |record| && record[n] != '\0'
          invariant n <= |record| && forall k :: 0 <= k < n ==> record[k] != '\0'
        {
          n := n + 1;
        }
        CStringIs(record, n);
        if n > NAME_FIELD {
          return Err(MalformedDirectory);
        }
        path := path + [Dentry(record[..n], FromLe(record[NAME_FIELD..]))];
        rest := rest[RECORD..];
      }
      DecodingEnds(Decode(allPath), path, rest);
      return Ok(());
    }

    /** The first entry of this name. */
    method Namei(pathname: Bytes) returns (r: Result<nat>)
      ensures r == match Find(path, pathname) { case None => Err(NoSuchFileOrDir) case Some(id) => Ok(id) }
    {
      for k := 0 to |path|
        invariant forall j :: 0 <= j < k ==> path[j].name != pathname
      {
        if path[k].name == pathname {
          FoundAt(path, k, pathname);
          return Ok(path[k].id);
        }
      }
      return Err(NoSuchFileOrDir);
    }

    method CheckAvailability(pathname: Bytes) returns (available: bool)
      ensures available == Find(path, pathname).None?
    {
      for k := 0 to |path|
        invariant forall j :: 0 <= j < k ==> path[j].name != pathname
      {
        if path[k].name == pathname {
          FoundAt(path, k, pathname);
          return false;
        }
      }
      return true;
    }

    method AddPath(pathname: Bytes, id: nat) returns (r: Result<()>)
      modifies this`path
      ensures if Find(old(path), pathname).Some? then r == Err(DoubleMkPathname) && path == old(path)
              else r == Ok(()) && path == old(path) + [Dentry(pathname, id)]
    {
      for k := 0 to |path|
        invariant path == old(path)
        invariant forall j :: 0 <= j < k ==> path[j].name != pathname
      {
        if path[k].name == pathname {
          FoundAt(path, k, pathname);
          return Err(DoubleMkPathname);
        }
      }
      path := path + [Dentry(pathname, id)];
      return Ok(());
    }

    /** Erase the first entry of this name. */
    method RemovePath(pathname: Bytes) returns (r: Result<()>)
      modifies this`path
      ensures if Find(old(path), pathname).None? then r == Err(InodeNotFound) && path == old(path)
              else r == Ok(()) && path == RemoveName(old(path), pathname)
    {
      for k := 0 to |path|
        invariant path == old(path)
        invariant forall j :: 0 <= j < k ==> path[j].name != pathname
      {
        if path[k].name == pathname {
          FoundAt(path, k, pathname);
          path := path[..k] + path[k + 1..];
          return Ok(());
        }
      }
      return Err(InodeNotFound);
    }

    /** The entries in the packed format. */
    method Flat() returns (ret: Bytes)
      ensures ret == Encode(path)
    {
      ret := Le(|path|, 8);
      assert path[0..] == path;
      for i := 0 to |path|
        invariant ret + EncodeAll(path[i..]) == Encode(path)
      {
        EncodeAllNext(path, i);
        ret := ret + EncodeEntry(path[i]);
      }
      assert ret + [] == ret;
    }

    /** Write the entries back as the directory's current contents. */
    method SaveCurrent()
      requires this !in associatedInode.filesystem.Repr
      requires associatedInode.Valid() && associatedInode.LoadedAt(CURRENT) && associatedInode.ShapedAt(CURRENT)
      modifies associatedInode`bufferMap, associatedInode.filesystem.Repr
      ensures associatedInode.Valid() && fresh(associatedInode.filesystem.Repr - old(associatedInode.filesystem.Repr))
      ensures associatedInode.bufferMap == old(associatedInode.bufferMap)[CURRENT := associatedInode.bufferMap[CURRENT]]
      ensures WriteBank(associatedInode.blockSize, old(associatedInode.CurrentBank()), 0, Encode(path), true) ==
              Ok((associatedInode.CurrentBank(), |Encode(path)|))
    {
      hide BufferPool.Valid, BufferPool.Packs, Encode, WriteBank;
      var ret := Flat();
      SaveFits(associatedInode.blockSize, associatedInode.CurrentBank(), ret);
      var written := associatedInode.Write(ret, 0, true, true);
    }
  }

  lemma ShortDecode(b: Bytes)
    requires 0 < |b| < 8
    ensures Decode(b) == None
  {
  }

  lemma DecodeEmpty()
    ensures Decode([]) == Some([])
  {
  }

  /** Saving never fails. */
  lemma SaveFits(bs: nat, b: Bank, d: Bytes)
    requires bs > 0 && d != []
    ensures var r := WriteBank(bs, b, 0, d, true); r.Ok? && r.value.1 == |d|
  {
    StartsInside(bs, 0, |d|);
  }
}
