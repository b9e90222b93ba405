/** `HAPIPByteBuffer`: caller-owned memory of fixed capacity with a write cursor. Appending never
    grows the memory; a write that does not fit fails and leaves the buffer as it was. */
module ByteBuffers {
  import opened HAPTypes

  class ByteBuffer {
    const data: array<byte>
    var position: nat

    ghost predicate Valid()
      reads this
    {
      position <= data.Length
    }

    /** The bytes written so far. */
    function Contents(): seq<byte>
      reads this, data
      requires Valid()
    {
      data[..position]
    }

    constructor (capacity: nat)
      ensures Valid() && fresh(data)
      ensures data.Length == capacity && Contents() == []
    {
      data := new byte[capacity];
      position := 0;
    }

    /** Appends `bytes` at the cursor, or reports OutOfResources when they do not fit. */
    method Append(bytes: seq<byte>) returns (err: HAPError)
      requires Valid()
      modifies this, data
      ensures Valid()
      ensures err == None || err == OutOfResources
      ensures err == None <==> old(position) + |bytes| <= data.Length
      ensures Contents() == if err == None then old(Contents()) + bytes else old(Contents())
    {
      if |bytes| > data.Length - position {
        return OutOfResources;
      }
      var k := 0;
      while k < |bytes|
        invariant k <= |bytes| && position == old(position)
        invariant data[..position + k] == old(data[..position]) + bytes[..k]
      {
        data[position + k] := bytes[k];
        k := k + 1;
      }
      position := position + |bytes|;
      return None;
    }
  }
}
