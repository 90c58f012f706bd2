/** The growing byte buffer under the WebSocket framer and parser. */
module MemoryBuffer {
  import opened Words

  const MAX_SIZE: nat := 0x8000_0000

  lemma FitsIn32(n: nat)
    requires n < 0x1_0000_0000
    ensures Wrap32(n) == n
  {
  }

  /** The bytes before a part and those behind it, place by place, are the bytes without the part. */
  lemma ClosedUp(before: seq<Byte>, after: seq<Byte>, offset: nat, count: nat)
    requires offset + count <= |before| && |after| == |before| - count
    requires forall k | 0 <= k < |after| :: after[k] == before[if k < offset then k else k + count]
    ensures after == before[..offset] + before[offset + count..]
  {
    var joined := before[..offset] + before[offset + count..];
    forall k | 0 <= k < |after| ensures after[k] == joined[k] {
      if k >= offset {
        assert joined[k] == before[offset + count..][k - offset];
      }
    }
  }

  class MemBuf {
    var data: array<Byte>
    var size: nat

    ghost predicate Valid()
      reads this
    {
      size <= data.Length
    }

    ghost function Contents(): (s: seq<Byte>)
      requires Valid()
      reads this, data
      ensures |s| == size
    {
      data[..size]
    }

    /** A copy of some of the bytes held. */
    function Bytes(from: nat, to: nat): (s: seq<Byte>)
      requires Valid() && from <= to <= size
      reads this, data
      ensures s == Contents()[from..to]
    {
      data[from..to]
    }

    constructor (initialBufferSize: nat)
      ensures Valid() && fresh(data) && Contents() == [] && data.Length == initialBufferSize
    {
      data := new Byte[initialBufferSize](_ => 0);
      size := 0;
    }

    /** Empties the buffer, and makes it smaller if it is larger than it may stay. */
    method Clear(maxSize: nat)
      requires Valid()
      modifies this, data
      ensures Valid() && Contents() == []
      ensures data == old(data) || fresh(data)
      ensures data.Length == if old(size) > 0 && 1 < maxSize < old(data.Length) then maxSize else old(data.Length)
      ensures data != old(data) ==> data.Length != old(data.Length)
      ensures old(size) > 0 ==> forall k | 0 <= k < data.Length :: data[k] == 0
    {
      if size > 0 {
        if maxSize > 1 && data.Length > maxSize {
          data := new Byte[maxSize](_ => 0);
        }
        size := 0;
        forall k | 0 <= k < data.Length {
          data[k] := 0;
        }
      }
    }

    /** Makes sure of room for more bytes, doubling the buffer until it is large enough. */
    method Reserve(extraSize: nat)
      requires Valid() && size + extraSize <= MAX_SIZE
      modifies this`data
      ensures Valid() && Contents() == old(Contents()) && extraSize <= data.Length - size
      ensures data == old(data) || fresh(data)
      ensures extraSize <= old(data.Length) - size ==> data == old(data)
      ensures data != old(data) ==>
                data.Length < 2 * (size + extraSize) && forall k | size <= k < data.Length :: data[k] == 0
    {
      hide Wrap32;
      if extraSize > data.Length - size {
        FitsIn32(if data.Length == 0 then extraSize else data.Length * 2);
        FitsIn32(size + extraSize);
        var newBufferSize := Wrap32(if data.Length == 0 then extraSize else data.Length * 2);
        var newDataSize := Wrap32(size + extraSize);
        while newBufferSize < newDataSize
          invariant unchanged(this) && newDataSize == size + extraSize && 0 < newBufferSize < 2 * newDataSize
          decreases newDataSize - newBufferSize
        {
          FitsIn32(newBufferSize * 2);
          newBufferSize := Wrap32(newBufferSize * 2);
        }
        var p := new Byte[newBufferSize](_ => 0);
        forall k | 0 <= k < size {
          p[k] := data[k];
        }
        data := p;
      }
    }

    method AppendData(bytes: seq<Byte>)
      requires Valid() && size + |bytes| <= MAX_SIZE
      modifies this, data
      ensures Valid() && Contents() == old(Contents()) + bytes
      ensures data == old(data) || fresh(data)
    {
      if |bytes| == 0 {
        return;
      }
      Reserve(|bytes|);
      forall k | 0 <= k < |bytes| {
        data[size + k] := bytes[k];
      }
      size := size + |bytes|;
    }

    /** Moves what lies behind a part of the bytes down over it. */
    method MoveDown(offset: nat, count: nat)
      requires Valid() && offset + count <= size
      modifies this`size, data
      ensures Valid() && size == old(size) - count
      ensures Contents() == old(Contents())[..offset] + old(Contents())[offset + count..]
    {
      ghost var before := Contents();
      forall k | offset <= k < size - count {
        data[k] := data[k + count];
      }
      size := size - count;
      ClosedUp(before, Contents(), offset, count);
    }

    /** Takes bytes out from a place on; the bytes after them move down. The zero put behind the last byte
        misses the buffer exactly if the buffer is full and nothing was to be taken out. */
    method Remove(offset: nat, count: nat) returns (zeroMisses: bool)
      requires Valid()
      modifies this`size, data
      ensures Valid()
      ensures Contents() == if offset >= old(size) then old(Contents())
                            else if offset + count >= old(size) then old(Contents())[..offset]
                            else old(Contents())[..offset] + old(Contents())[offset + count..]
      ensures zeroMisses <==> offset < old(size) == data.Length && count == 0
      ensures offset < old(size) && !zeroMisses ==> data[size] == 0
    {
      zeroMisses := false;
      if offset >= size {
        return;
      }
      if offset + count >= size {
        size := offset;
      } else {
        MoveDown(offset, count);
      }
      if data.Length > size {
        data[size] := 0;
      } else {
        zeroMisses := true;
      }
    }
  }
}
