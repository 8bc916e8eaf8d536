// The buffer pool as an object: reference-counted buffers keyed by id.
module Pools {
  import opened ByteStrings
  import opened Buffers
  import opened FreeIds
  import opened Blocks
  import opened Snapshots

  datatype BufferPack = BufferPack(linkCount: nat, buffer: Buffer)

  class BufferPool {
    var packs: map<nat, BufferPack>
    ghost var lost: map<nat, nat>
    ghost var Repr: set<object>

    ghost predicate Valid()
      reads this, Repr
      ensures Valid() ==> this in Repr
    {
      && this in Repr
      && lost.Keys == packs.Keys
      && (forall id :: id in packs ==> packs[id].buffer in Repr)
      && (forall a, b :: a in packs && b in packs && a != b ==> packs[a].buffer != packs[b].buffer)
    }

    /** The pool as a value. */
    ghost function Packs(): (p: Pool)
      requires Valid()
      reads this, Repr
      ensures p.Keys == packs.Keys
    {
      map id | id in packs :: Pack(packs[id].linkCount, packs[id].buffer.data, lost[id])
    }

    constructor ()
      ensures Valid() && fresh(Repr)
      ensures Packs() == map[]
    {
      packs, lost := map[], map[];
      Repr := {this};
    }

    method EmplaceBuffer(id: nat, buffer: Buffer)
      requires Valid() && id !in packs && buffer !in Repr
      modifies this
      ensures Valid() && Repr == old(Repr) + {buffer}
      ensures Packs() == old(Packs())[id := Pack(1, buffer.data, 0)]
    {
      packs := packs[id := BufferPack(1, buffer)];
      lost := lost[id := 0];
      Repr := Repr + {buffer};
    }

    method RequestBufferAllocation() returns (id: nat)
      requires Valid()
      modifies Repr
      ensures Valid() && fresh(Repr - old(Repr))
      ensures id == FreeId(old(Packs()).Keys)
      ensures Packs() == Alloc(old(Packs()), [])
      ensures id !in old(Packs()) && Packs() == old(Packs())[id := Pack(1, [], 0)]
    {
      hide Valid, Packs;
      id := SearchFreeId(packs);
      var buffer := new Buffer();
      assert Valid() && Packs() == old(Packs());
      EmplaceBuffer(id, buffer);
    }

    method LinkBuffer(id: nat) returns (ok: bool)
      requires Valid()
      modifies Repr
      ensures Valid() && Repr == old(Repr)
      ensures ok == (id in old(Packs())) && Packs() == Link(old(Packs()), id)
      ensures Packs() == if ok then old(Packs())[id := old(Packs())[id].(links := old(Packs())[id].links + 1)]
              else old(Packs())
    {
      if id !in packs {
        return false;
      }
      packs := packs[id := packs[id].(linkCount := packs[id].linkCount + 1)];
      return true;
    }

    method EraseBuffer(id: nat)
      requires Valid() && id in packs
      modifies this
      ensures Valid() && Repr == old(Repr) && Packs() == old(Packs()) - {id}
    {
      packs := packs - {id};
      lost := lost - {id};
    }

    method SetLinkCount(id: nat, count: nat)
      requires Valid() && id in packs
      modifies this
      ensures Valid() && Repr == old(Repr)
      ensures id in old(Packs()) && Packs() == old(Packs())[id := old(Packs())[id].(links := count)]
    {
      packs := packs[id := packs[id].(linkCount := count)];
    }

    /** The last link erases the buffer. */
    method UnlinkBuffer(id: nat) returns (ok: bool)
      requires Valid()
      modifies Repr
      ensures Valid() && Repr == old(Repr)
      ensures ok == (id in old(Packs())) && Packs() == Unlink(old(Packs()), id)
      ensures !ok ==> Packs() == old(Packs())
      ensures ok && old(Packs())[id].links == 1 ==> Packs() == old(Packs()) - {id}
      ensures ok && old(Packs())[id].links > 1 ==>
                Packs() == old(Packs())[id := old(Packs())[id].(links := old(Packs())[id].links - 1)]
      ensures ok && old(Packs())[id].links == 0 ==>
                Packs() == old(Packs())[id := old(Packs())[id].(links := 0xFFFF_FFFF_FFFF_FFFF)]
    {
      if id !in packs {
        return false;
      }
      if packs[id].linkCount == 1 {
        EraseBuffer(id);
      } else {
        SetLinkCount(id, if packs[id].linkCount == 0 then MAX_COUNT else packs[id].linkCount - 1);
      }
      return true;
    }

    /** Bookkeeping: a reference to the buffer goes away without an unlink. */
    ghost method LoseRef(id: nat)
      requires Valid()
      modifies this`lost
      ensures Valid() && Repr == old(Repr)
      ensures Packs() == Lose(old(Packs()), id)
    {
      if id in packs {
        lost := lost[id := lost[id] + 1];
      }
    }

    /** Bookkeeping: the references of an erased inode go away. */
    ghost method LoseRefs(blocks: seq<BlockRef>)
      requires Valid()
      modifies this`lost
      ensures Valid() && Repr == old(Repr)
      ensures Packs() == LoseAll(old(Packs()), blocks)
      decreases |blocks|
    {
      if blocks != [] {
        LoseRef(blocks[0].id);
        LoseRefs(blocks[1..]);
      }
    }

    method Size(id: nat) returns (n: nat)
      requires Valid() && id in packs
      ensures n == |Packs()[id].data|
    {
      n := |packs[id].buffer.data|;
    }

    method ReadBuffer(id: nat, length: nat, offset: nat) returns (out: Bytes)
      requires Valid() && id in packs
      ensures out == BufRead(Packs()[id].data, length, offset)
    {
      out := packs[id].buffer.Read(length, offset);
    }

    method WriteBuffer(id: nat, src: Bytes, offset: nat, resize: bool) returns (n: nat)
      requires Valid() && id in packs
      modifies Repr
      ensures Valid() && Repr == old(Repr)
      ensures id in old(Packs())
              && Packs() == old(Packs())[id := old(Packs())[id].(data := BufWrite(old(Packs())[id].data, src, offset,
              resize))]
      ensures n == if resize then |src| else Fitting(|old(Packs())[id].data|, |src|, offset)
    {
      n := packs[id].buffer.Write(src, offset, resize);
    }

    method TruncateBuffer(id: nat, length: nat)
      requires Valid() && id in packs
      modifies Repr
      ensures Valid() && Repr == old(Repr)
      ensures id in old(Packs())
              && Packs() == old(Packs())[id := old(Packs())[id].(data := Resize(old(Packs())[id].data, length))]
    {
      packs[id].buffer.Truncate(length);
    }
  }
}
