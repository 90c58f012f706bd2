/** Copy-on-write byte buffers: handles that share storage and behave as values all the same. */
module CopyOnWrite {
  import opened Words

  function Max(a: nat, b: nat): nat { if a >= b then a else b }

  lemma SliceOfSlice(bytes: seq<Byte>, offset: nat, size: nat, from: nat, length: nat)
    requires offset + size <= |bytes| && from + length <= size
    ensures bytes[offset..offset + size][from..from + length] == bytes[offset + from..offset + from + length]
  {
    var part := bytes[offset..offset + size];
    var inner, direct := part[from..from + length], bytes[offset + from..offset + from + length];
    forall k | 0 <= k < length
      ensures inner[k] == direct[k]
    {
      assert part[from + k] == bytes[offset + from + k];
    }
  }

  class CopyOnWriteBuffer {
    var buffer: SharedBuffer?
    var offset: nat
    var size: nat

    /** The handle is one of those its storage counts, and views a part of it. */
    ghost predicate Valid()
      reads this, buffer, if buffer == null then {} else buffer.owners
    {
      if buffer == null then offset == 0 && size == 0
      else
        && buffer.Counted() && offset + size <= |buffer.bytes|
        && this in buffer.owners && forall h | h in buffer.owners :: h.buffer == buffer
    }

    /** With one reference, the storage is this handle's alone. */
    lemma SoleOwner()
      requires Valid() && buffer != null && buffer.HasOneRef()
      ensures forall h: CopyOnWriteBuffer | h.Valid() && h.buffer == buffer :: h == this
    {
      assert |buffer.owners - {this}| == 0;
      assert buffer.owners == {this};
    }

    /** The bytes the handle stands for. */
    ghost function Contents(): (s: seq<Byte>)
      requires Valid()
      reads this, buffer, if buffer == null then {} else buffer.owners
    {
      if buffer == null then [] else buffer.bytes[offset..offset + size]
    }

    /** `IsConsistent` asks besides that storage is not empty. */
    ghost predicate IsConsistent()
      reads this, buffer, if buffer == null then {} else buffer.owners
    {
      Valid() && (buffer != null ==> buffer.capacity > 0)
    }

    function Capacity(): int
      reads this, buffer
    {
      if buffer == null then 0 else buffer.capacity - offset
    }

    constructor ()
      ensures Valid() && Contents() == [] && buffer == null && Capacity() == 0
    {
      buffer, offset, size := null, 0, 0;
    }

    /** Lets go of the storage. */
    method Detach()
      requires Valid()
      modifies this`buffer, this`offset, this`size, buffer
      ensures Valid() && buffer == null
      ensures forall h: CopyOnWriteBuffer | h != this && old(allocated(h)) && old(h.Valid()) ::
                h.Valid() && h.buffer == old(h.buffer) && h.Contents() == old(h.Contents())
      ensures old(buffer) != null ==>
                && old(buffer).Counted() && old(buffer).owners == old(buffer.owners) - {this}
                && old(buffer).bytes == old(buffer.bytes) && old(buffer).capacity == old(buffer.capacity)
    {
      if buffer != null {
        buffer.refs := buffer.refs - 1;
        buffer.owners := buffer.owners - {this};
      }
      buffer, offset, size := null, 0, 0;
    }

    /** Refers to other storage, or to none. */
    method Attach(other: SharedBuffer?, offset: nat, size: nat)
      requires Valid() && buffer == null
      requires other == null ==> offset == 0 && size == 0
      requires other != null ==>
                 && other.Counted() && offset + size <= |other.bytes|
                 && forall h | h in other.owners :: h.buffer == other
      modifies this`buffer, this`offset, this`size, other
      ensures Valid() && buffer == other && this.offset == offset && this.size == size
      ensures forall h: CopyOnWriteBuffer | h != this && old(allocated(h)) && old(h.Valid()) ::
                h.Valid() && h.buffer == old(h.buffer) && h.Contents() == old(h.Contents())
      ensures other != null ==>
                && other.owners == old(other.owners) + {this}
                && other.bytes == old(other.bytes) && other.capacity == old(other.capacity)
    {
      if other != null {
        other.refs := other.refs + 1;
        other.owners := other.owners + {this};
      }
      buffer, this.offset, this.size := other, offset, size;
    }

    /** Refers to storage of its own from now on, with the given bytes. */
    method Replace(bytes: seq<Byte>, capacity: nat)
      requires Valid()
      modifies this, buffer
      ensures Valid() && buffer != null && fresh(buffer) && buffer.HasOneRef() && offset == 0
      ensures Contents() == bytes && buffer.bytes == bytes && buffer.capacity == Max(|bytes|, capacity)
      ensures forall h: CopyOnWriteBuffer | h != this && old(allocated(h)) && old(h.Valid()) ::
                h.Valid() && h.Contents() == old(h.Contents())
    {
      Detach();
      var storage := new SharedBuffer(bytes, capacity);
      Attach(storage, 0, |bytes|);
    }

    /** Makes sure of storage of its own, large enough. */
    method UnshareAndEnsureCapacity(newCapacity: nat)
      requires Valid() && buffer != null
      modifies this, buffer
      ensures Valid() && buffer != null && buffer.HasOneRef() && Capacity() >= newCapacity
      ensures buffer == old(buffer) || fresh(buffer)
      ensures buffer == old(buffer) ==> unchanged(this) && unchanged(buffer)
      ensures buffer != old(buffer) ==>
                offset == 0 && buffer.bytes == Contents() && buffer.capacity == Max(size, newCapacity)
      ensures buffer == old(buffer) <==> old(buffer.HasOneRef() && newCapacity <= Capacity())
      ensures Contents() == old(Contents()) && size == old(size)
      ensures forall h: CopyOnWriteBuffer | h != this && old(allocated(h)) && old(h.Valid()) ::
                h.Valid() && h.Contents() == old(h.Contents())
    {
      if buffer.HasOneRef() && newCapacity <= Capacity() {
        return;
      }
      Replace(buffer.bytes[offset..offset + size], newCapacity);
    }

    // ---------------------------------------------------------------- the interface

    /** Another handle on the same bytes. */
    constructor Copy(other: CopyOnWriteBuffer)
      requires other.Valid()
      modifies other.buffer
      ensures Valid() && Contents() == old(other.Contents()) && buffer == other.buffer
      ensures forall h: CopyOnWriteBuffer | old(allocated(h)) && old(h.Valid()) ::
                h.Valid() && h.Contents() == old(h.Contents())
      ensures old(other.IsConsistent()) ==> IsConsistent() && other.IsConsistent()
    {
      buffer, offset, size := null, 0, 0;
      new;
      Attach(other.buffer, other.offset, other.size);
    }

    /** The contents of another handle, which is left empty. */
    constructor Move(other: CopyOnWriteBuffer)
      requires other.Valid()
      modifies other, other.buffer
      ensures Valid() && Contents() == old(other.Contents())
      ensures other.Valid() && other.Contents() == [] && other.buffer == null
      ensures old(other.IsConsistent()) ==> IsConsistent() && other.IsConsistent()
      ensures forall h: CopyOnWriteBuffer | h != other && old(allocated(h)) && old(h.Valid()) ::
                h.Valid() && h.Contents() == old(h.Contents())
    {
      buffer, offset, size := null, 0, 0;
      new;
      Take(other);
    }

    /** Copy assignment, and `SetData` of another buffer. */
    method Assign(other: CopyOnWriteBuffer)
      requires Valid() && other.Valid()
      modifies this, buffer, other.buffer
      ensures Valid() && Contents() == old(other.Contents())
      ensures old(other.IsConsistent()) ==> IsConsistent() && other.IsConsistent()
      ensures forall h: CopyOnWriteBuffer | h != this && old(allocated(h)) && old(h.Valid()) ::
                h.Valid() && h.Contents() == old(h.Contents())
    {
      if other != this {
        var storage, from, length := other.buffer, other.offset, other.size;
        if storage == buffer {
          View(from, length);
        } else {
          Detach();
          Attach(storage, from, length);
        }
      }
    }

    /** Views another part of the same storage. */
    method View(from: nat, length: nat)
      requires Valid() && if buffer == null then from == 0 && length == 0 else from + length <= |buffer.bytes|
      modifies this`offset, this`size
      ensures Valid() && offset == from && size == length
      ensures old(IsConsistent()) ==> IsConsistent()
      ensures forall h: CopyOnWriteBuffer | h != this && old(allocated(h)) && old(h.Valid()) ::
                h.Valid() && h.Contents() == old(h.Contents())
    {
      offset, size := from, length;
    }

    /** Move assignment from another handle, which is left empty; from itself it leaves the handle empty
        on the same storage. */
    method AssignMoved(other: CopyOnWriteBuffer)
      requires Valid() && other.Valid()
      modifies this, buffer, other, other.buffer
      ensures Valid() && Contents() == if other == this then [] else old(other.Contents())
      ensures other.Valid() && other.Contents() == []
      ensures other.buffer == if other == this then old(buffer) else null
      ensures old(other.IsConsistent()) ==> IsConsistent() && other.IsConsistent()
      ensures forall h: CopyOnWriteBuffer | h != this && h != other && old(allocated(h)) && old(h.Valid()) ::
                h.Valid() && h.Contents() == old(h.Contents())
    {
      if other == this {
        View(0, 0);
      } else {
        Take(other);
      }
    }

    method Take(other: CopyOnWriteBuffer)
      requires Valid() && other.Valid() && other != this
      modifies this, buffer, other, other.buffer
      ensures Valid() && Contents() == old(other.Contents())
      ensures other.Valid() && other.Contents() == [] && other.buffer == null
      ensures old(other.IsConsistent()) ==> IsConsistent()
      ensures forall h: CopyOnWriteBuffer | h != this && h != other && old(allocated(h)) && old(h.Valid()) ::
                h.Valid() && h.Contents() == old(h.Contents())
    {
      var storage, from, length := other.buffer, other.offset, other.size;
      Detach();
      other.Detach();
      Attach(storage, from, length);
    }

    /** A part of the bytes, without copying them. */
    method Slice(from: nat, length: nat) returns (slice: CopyOnWriteBuffer)
      requires Valid() && from + length <= size
      modifies buffer
      ensures fresh(slice) && slice.Valid() && slice.buffer == buffer
      ensures slice.Contents() == old(Contents())[from..from + length]
      ensures old(IsConsistent()) ==> IsConsistent() && slice.IsConsistent()
      ensures forall h: CopyOnWriteBuffer | old(allocated(h)) && old(h.Valid()) ::
                h.Valid() && h.Contents() == old(h.Contents())
    {
      slice := new CopyOnWriteBuffer.Copy(this);
      slice.Narrow(from, length);
    }

    method Narrow(from: nat, length: nat)
      requires Valid() && from + length <= size
      modifies this`offset, this`size
      ensures Valid() && Contents() == old(Contents())[from..from + length]
      ensures old(IsConsistent()) ==> IsConsistent()
      ensures forall h: CopyOnWriteBuffer | h != this && old(allocated(h)) && old(h.Valid()) ::
                h.Valid() && h.Contents() == old(h.Contents())
    {
      if buffer != null {
        SliceOfSlice(buffer.bytes, offset, size, from, length);
        View(offset + from, length);
      }
    }

    /** A write through the pointer that `MutableData` gives. */
    method WriteByte(index: nat, value: Byte)
      requires Valid() && index < size
      modifies this, buffer
      ensures Valid() && Contents() == old(Contents())[index := value]
      ensures old(IsConsistent()) ==> IsConsistent()
      ensures forall h: CopyOnWriteBuffer | h != this && old(allocated(h)) && old(h.Valid()) ::
                h.Valid() && h.Contents() == old(h.Contents())
    {
      UnshareAndEnsureCapacity(Capacity());
      PutOwn(index, value);
    }

    method PutOwn(index: nat, value: Byte)
      requires Valid() && buffer != null && buffer.HasOneRef() && index < size
      modifies buffer`bytes
      ensures Valid() && Contents() == old(Contents())[index := value]
      ensures forall h: CopyOnWriteBuffer | h != this && old(allocated(h)) && old(h.Valid()) ::
                h.Valid() && h.Contents() == old(h.Contents())
    {
      SoleOwner();
      buffer.bytes := buffer.bytes[offset + index := value];
    }

    method SetData(data: seq<Byte>)
      requires Valid()
      modifies this, buffer
      ensures Valid() && Contents() == data
      ensures old(IsConsistent()) ==>
                (IsConsistent() <==> |data| > 0 || old(buffer == null || buffer.HasOneRef() || Capacity() > 0))
      ensures forall h: CopyOnWriteBuffer | h != this && old(allocated(h)) && old(h.Valid()) ::
                h.Valid() && h.Contents() == old(h.Contents())
    {
      if buffer == null {
        if |data| > 0 {
          Replace(data, |data|);
        }
      } else if !buffer.HasOneRef() {
        Replace(data, Capacity());
      } else {
        SetOwn(data);
      }
    }

    method SetOwn(data: seq<Byte>)
      requires Valid() && buffer != null && buffer.HasOneRef()
      modifies this`offset, this`size, buffer`bytes, buffer`capacity
      ensures Valid() && Contents() == data && buffer.capacity >= old(buffer.capacity)
      ensures forall h: CopyOnWriteBuffer | h != this && old(allocated(h)) && old(h.Valid()) ::
                h.Valid() && h.Contents() == old(h.Contents())
    {
      SoleOwner();
      buffer.SetData(data);
      offset := 0;
      size := |data|;
    }

    method AppendData(data: seq<Byte>)
      requires Valid()
      modifies this, buffer
      ensures Valid() && Contents() == old(Contents()) + data
      ensures old(IsConsistent()) ==>
                (IsConsistent() <==> |data| > 0 || old(buffer != null && (buffer.HasOneRef() || Capacity() > 0)))
      ensures forall h: CopyOnWriteBuffer | h != this && old(allocated(h)) && old(h.Valid()) ::
                h.Valid() && h.Contents() == old(h.Contents())
    {
      if buffer == null {
        Replace(data, |data|);
        return;
      }
      UnshareAndEnsureCapacity(Max(Capacity(), size + |data|));
      AppendOwn(data);
    }

    /** Appends in place, after dropping what lies to the right of the slice. */
    method AppendOwn(data: seq<Byte>)
      requires Valid() && buffer != null && buffer.HasOneRef()
      modifies this`size, buffer`bytes, buffer`capacity
      ensures Valid() && Contents() == old(Contents()) + data
      ensures buffer.capacity >= old(buffer.capacity) && buffer.capacity >= |data|
      ensures |data| == 0 ==> buffer.capacity == old(buffer.capacity)
      ensures forall h: CopyOnWriteBuffer | h != this && old(allocated(h)) && old(h.Valid()) ::
                h.Valid() && h.Contents() == old(h.Contents())
    {
      SoleOwner();
      buffer.bytes := buffer.bytes[..offset + size];
      buffer.AppendData(data);
      size := size + |data|;
    }

    /** Cuts the contents off, or adds bytes of whatever memory held. */
    method SetSize(newSize: nat, memory: nat -> Byte)
      requires Valid()
      modifies this, buffer
      ensures Valid() && |Contents()| == newSize
      ensures var kept := if newSize <= old(size) then newSize else old(size);
              Contents()[..kept] == old(Contents())[..kept]
      ensures old(IsConsistent()) ==> IsConsistent()
      ensures forall h: CopyOnWriteBuffer | h != this && old(allocated(h)) && old(h.Valid()) ::
                h.Valid() && h.Contents() == old(h.Contents())
    {
      if buffer == null {
        if newSize > 0 {
          var bytes: seq<Byte> := seq<Byte>(newSize, memory);
          Replace(bytes, newSize);
        }
        return;
      }
      if newSize <= size {
        size := newSize;
        return;
      }
      Grow(newSize, memory);
    }

    method Grow(newSize: nat, memory: nat -> Byte)
      requires Valid() && buffer != null && newSize > size
      modifies this, buffer
      ensures Valid() && |Contents()| == newSize && Contents()[..old(size)] == old(Contents())
      ensures buffer != null && buffer.capacity > 0
      ensures forall h: CopyOnWriteBuffer | h != this && old(allocated(h)) && old(h.Valid()) ::
                h.Valid() && h.Contents() == old(h.Contents())
    {
      UnshareAndEnsureCapacity(Max(Capacity(), newSize));
      GrowOwn(newSize, memory);
    }

    method GrowOwn(newSize: nat, memory: nat -> Byte)
      requires Valid() && buffer != null && buffer.HasOneRef() && newSize > size
      modifies this`size, buffer`bytes, buffer`capacity
      ensures Valid() && |Contents()| == newSize && Contents()[..old(size)] == old(Contents())
      ensures buffer.capacity > 0
      ensures forall h: CopyOnWriteBuffer | h != this && old(allocated(h)) && old(h.Valid()) ::
                h.Valid() && h.Contents() == old(h.Contents())
    {
      SoleOwner();
      ghost var before := buffer.bytes;
      buffer.SetSize(newSize + offset, memory);
      assert buffer.bytes[..offset + size] == before[..offset + size];
      assert buffer.bytes[offset..offset + size] == before[offset..offset + size];
      size := newSize;
      assert Contents()[..old(size)] == buffer.bytes[offset..offset + old(size)];
    }

    method EnsureCapacity(newCapacity: nat)
      requires Valid()
      modifies this, buffer
      ensures Valid() && Contents() == old(Contents()) && Capacity() >= newCapacity
      ensures newCapacity > 0 ==> buffer != null && buffer.capacity >= offset + newCapacity
      ensures old(IsConsistent()) ==> IsConsistent()
      ensures forall h: CopyOnWriteBuffer | h != this && old(allocated(h)) && old(h.Valid()) ::
                h.Valid() && h.Contents() == old(h.Contents())
    {
      if buffer == null {
        if newCapacity > 0 {
          Replace([], newCapacity);
        }
      } else if newCapacity > Capacity() {
        UnshareAndEnsureCapacity(newCapacity);
      }
    }

    method Clear()
      requires Valid()
      modifies this, buffer
      ensures Valid() && Contents() == []
      ensures old(IsConsistent()) ==>
                (IsConsistent() <==> old(buffer == null || buffer.HasOneRef() || Capacity() > 0))
      ensures forall h: CopyOnWriteBuffer | h != this && old(allocated(h)) && old(h.Valid()) ::
                h.Valid() && h.Contents() == old(h.Contents())
    {
      if buffer == null {
        return;
      }
      if buffer.HasOneRef() {
        SetOwn([]);
      } else {
        Replace([], Capacity());
      }
    }

    /** `operator==`. */
    method Equals(other: CopyOnWriteBuffer) returns (equal: bool)
      requires Valid() && other.Valid()
      ensures equal <==> Contents() == other.Contents()
    {
      equal := size == other.size
        && (size == 0 || (buffer == other.buffer && offset == other.offset)
            || buffer.bytes[offset..offset + size] == other.buffer.bytes[other.offset..other.offset + size]);
    }
  }

  /** `FinalRefCountedObject<Buffer>`: growing storage with a reference count. */
  class SharedBuffer {
    var bytes: seq<Byte>
    var capacity: nat
    var refs: nat

    /** The handles that refer to it. */
    ghost var owners: set<CopyOnWriteBuffer>

    ghost predicate Counted()
      reads this
    {
      |bytes| <= capacity && refs == |owners|
    }

    constructor (bytes: seq<Byte>, capacity: nat)
      ensures Counted() && this.bytes == bytes && this.capacity == Max(|bytes|, capacity)
      ensures refs == 0 && owners == {}
    {
      this.bytes := bytes;
      this.capacity := if |bytes| >= capacity then |bytes| else capacity;
      refs, owners := 0, {};
    }

    predicate HasOneRef()
      reads this`refs
    {
      refs == 1
    }

    /** Grows by half at least, if it has to grow. */
    method EnsureCapacityWithHeadroom(wanted: nat)
      requires Counted()
      modifies this`capacity
      ensures Counted() && capacity == if wanted <= old(capacity) then old(capacity)
                                       else Max(wanted, old(capacity) + old(capacity) / 2)
    {
      if wanted > capacity {
        capacity := Max(wanted, capacity + capacity / 2);
      }
    }

    /** What is new beyond the old size is whatever the memory held. */
    method SetSize(size: nat, memory: nat -> Byte)
      requires Counted()
      modifies this`bytes, this`capacity
      ensures Counted() && |bytes| == size && capacity >= old(capacity)
      ensures if size <= |old(bytes)| then bytes == old(bytes)[..size] else bytes[..|old(bytes)|] == old(bytes)
    {
      EnsureCapacityWithHeadroom(size);
      if size <= |bytes| {
        bytes := bytes[..size];
      } else {
        bytes := bytes + seq<Byte>(size - |bytes|, memory);
      }
    }

    method AppendData(data: seq<Byte>)
      requires Counted()
      modifies this`bytes, this`capacity
      ensures Counted() && bytes == old(bytes) + data && capacity >= old(capacity)
      ensures |bytes| <= old(capacity) ==> capacity == old(capacity)
    {
      EnsureCapacityWithHeadroom(|bytes| + |data|);
      bytes := bytes + data;
    }

    method SetData(data: seq<Byte>)
      requires Counted()
      modifies this`bytes, this`capacity
      ensures Counted() && bytes == data && capacity >= old(capacity)
    {
      bytes := [];
      AppendData(data);
    }
  }
}
