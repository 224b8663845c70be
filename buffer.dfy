/**
 * The append-only growable byte buffer of src/buffer.c.  The heap block is
 * an array whose length is the capacity; `size` bytes of it are in use.
 * A detached buffer has no block (data == null) and capacity 0.
 * Allocation outcomes (malloc/realloc returning NULL) are parameters.
 */
module ByteBuffer {
  import opened Wrappers
  import opened Bytes

  function Max(a: nat, b: nat): nat { if a < b then b else a }

  /** The capacity buffer_append grows to when `needed` bytes do not fit. */
  function GrownCapacity(capacity: nat, needed: nat): (c: nat)
    requires capacity < needed
    ensures needed <= c && 2 * capacity <= c
    ensures c == needed || c == 2 * capacity
  {
    Max(2 * capacity, needed)
  }

  class Buffer {
    var data: array?<byte>
    var size: nat
    var capacity: nat

    /** The bytes appended so far. */
    ghost var Contents: seq<byte>
    ghost var Repr: set<object>

    ghost predicate Valid()
      reads this, Repr
      ensures Valid() ==> this in Repr && |Contents| == size
    {
      && this in Repr
      && (data == null ==> capacity == 0 && size == 0 && Contents == [])
      && (data != null ==> data in Repr && data.Length == capacity && size <= capacity && Contents == data[..size])
    }

    constructor Empty(block: array<byte>)
      ensures Valid() && fresh(Repr - {block})
      ensures data == block && size == 0 && capacity == block.Length && Contents == []
    {
      data := block;
      size := 0;
      capacity := block.Length;
      Contents := [];
      Repr := {this, block};
    }

    /**
     * buffer_create: a buffer of size 0 over a fresh block of
     * `initialCapacity` bytes, or null when malloc fails.
     */
    static method Create(initialCapacity: nat, allocOk: bool) returns (buf: Buffer?)
      ensures allocOk <==> buf != null
      ensures buf != null ==> fresh(buf.Repr) && buf.Valid()
      ensures buf != null ==> buf.size == 0 && buf.capacity == initialCapacity && buf.Contents == []
    {
      if !allocOk {
        return null;
      }
      var block := new byte[initialCapacity];
      buf := new Buffer.Empty(block);
    }

    /**
     * buffer_append: a null `src` (NULL data pointer) fails and changes
     * nothing; when size + len exceeds the capacity the block is reallocated
     * to max(2 * capacity, size + len), and if that reallocation fails the
     * call fails and changes nothing; otherwise the bytes are copied in.
     */
    method Append(src: Option<seq<byte>>, reallocOk: bool) returns (ok: bool)
      requires Valid()
      modifies Repr
      ensures Valid() && fresh(Repr - old(Repr))
      ensures ok <==> src.Some? && (old(size) + |src.value| <= old(capacity) || reallocOk)
      ensures Contents == if ok then old(Contents) + src.value else old(Contents)
      ensures ok && old(size) + |src.value| > old(capacity) ==>
                capacity == GrownCapacity(old(capacity), old(size) + |src.value|)
      ensures !ok || old(size) + |src.value| <= old(capacity) ==> capacity == old(capacity) && data == old(data)
    {
      if src.None? {
        return false;
      }
      var bytes := src.value;
      var len := |bytes|;
      if size + len > capacity {
        if !reallocOk {
          return false;
        }
        var newCap := GrownCapacity(capacity, size + len);
        var newData := new byte[newCap];
        if data != null {
          var old_ := data;
          forall i | 0 <= i < size {
            newData[i] := old_[i];
          }
        }
        data := newData;
        capacity := newCap;
        Repr := Repr + {newData};
      }
      var block := data;
      if block != null {
        forall i | size <= i < size + len {
          block[i] := bytes[i - size];
        }
      }
      size := size + len;
      Contents := Contents + bytes;
      ok := true;
    }

    /** buffer_append_u1: one byte. */
    method AppendU1(v: byte, reallocOk: bool) returns (ok: bool)
      requires Valid()
      modifies Repr
      ensures Valid() && fresh(Repr - old(Repr))
      ensures ok <==> (old(size) + 1 <= old(capacity) || reallocOk)
      ensures Contents == if ok then old(Contents) + [v] else old(Contents)
    {
      ok := Append(Some([v]), reallocOk);
    }

    /** buffer_append_u2_be: high byte, then low byte. */
    method AppendU2(v: u16, reallocOk: bool) returns (ok: bool)
      requires Valid()
      modifies Repr
      ensures Valid() && fresh(Repr - old(Repr))
      ensures ok <==> (old(size) + 2 <= old(capacity) || reallocOk)
      ensures Contents == if ok then old(Contents) + U2(v) else old(Contents)
    {
      ok := Append(Some([v / 0x100, v % 0x100]), reallocOk);
    }

    /** buffer_append_u4_be: four bytes, most significant first. */
    method AppendU4(v: u32, reallocOk: bool) returns (ok: bool)
      requires Valid()
      modifies Repr
      ensures Valid() && fresh(Repr - old(Repr))
      ensures ok <==> (old(size) + 4 <= old(capacity) || reallocOk)
      ensures Contents == if ok then old(Contents) + U4(v) else old(Contents)
    {
      ok := Append(Some([v / 0x100_0000, (v / 0x1_0000) % 0x100, (v / 0x100) % 0x100, v % 0x100]), reallocOk);
    }

    /**
     * buffer_detach: hands the block and the byte count to the caller and
     * leaves the buffer with no block, size 0 and capacity 0.
     */
    method Detach() returns (block: array?<byte>, outSize: nat)
      requires Valid()
      modifies this
      ensures Valid() && Repr == old(Repr)
      ensures block == old(data) && outSize == old(size)
      ensures block != null ==> outSize <= block.Length && block[..outSize] == old(Contents)
      ensures block == null ==> outSize == 0
      ensures data == null && size == 0 && capacity == 0 && Contents == []
    {
      block := data;
      outSize := size;
      data := null;
      size := 0;
      capacity := 0;
      Contents := [];
    }
  }
}
