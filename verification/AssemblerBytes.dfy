/**
  The byte buffer under the assemblers: it grows by half, and what has been put in it stays.
 */
module AssemblerBytes {
  const INLINE_CAPACITY := 128

  function ToByte(x: bv32): (b: bv8) { (x & 0xff) as bv8 }
  function FromByte(b: bv8): (x: bv32) { b as bv32 }

  /** The bytes of a number in memory, lowest first. */
  function Bytes32(x: bv32): (r: seq<bv8>) {
    [ToByte(x), ToByte(x >> 8), ToByte(x >> 16), ToByte(x >> 24)]
  }

  function Join(b0: bv32, b1: bv32, b2: bv32, b3: bv32): (r: bv32) {
    b0 | (b1 << 8) | (b2 << 16) | (b3 << 24)
  }

  /** The number in four bytes of memory. */
  function Word32(b: seq<bv8>): (r: bv32)
    requires |b| == 4
  {
    Join(FromByte(b[0]), FromByte(b[1]), FromByte(b[2]), FromByte(b[3]))
  }

  lemma ByteOf(x: bv32)
    ensures FromByte(ToByte(x)) == x & 0xff
  {
  }

  lemma Joins(x: bv32)
    ensures Join(x & 0xff, (x >> 8) & 0xff, (x >> 16) & 0xff, (x >> 24) & 0xff) == x
  {
  }

  lemma ReadsBack(x: bv32)
    ensures Word32(Bytes32(x)) == x
  {
    ByteOf(x);
    ByteOf(x >> 8);
    ByteOf(x >> 16);
    ByteOf(x >> 24);
    Joins(x);
  }

  class AssemblerBuffer {
    var buffer: array<bv8>
    var capacity: nat
    var index: nat

    /** Always room for a few more bytes after growing once. */
    ghost predicate Valid()
      reads this
    {
      INLINE_CAPACITY <= capacity == buffer.Length && index <= capacity
    }

    ghost function Contents(): (r: seq<bv8>)
      requires Valid()
      reads this, buffer
    {
      buffer[..index]
    }

    constructor ()
      ensures Valid() && fresh(buffer) && Contents() == [] && capacity == INLINE_CAPACITY
    {
      buffer := new bv8[INLINE_CAPACITY];
      capacity, index := INLINE_CAPACITY, 0;
    }

    predicate IsAvailable(space: nat)
      reads this
    {
      index + space <= capacity
    }

    /** `grow` */
    method Grow(extra: nat)
      requires Valid()
      modifies this
      ensures Valid() && fresh(buffer) && Contents() == old(Contents()) && index == old(index)
      ensures capacity == old(capacity) + old(capacity) / 2 + extra
    {
      var bigger := new bv8[capacity + capacity / 2 + extra];
      var i := 0;
      while i < index
        modifies bigger
        invariant 0 <= i <= index && bigger[..i] == buffer[..i]
      {
        bigger[i] := buffer[i];
        i := i + 1;
      }
      buffer, capacity := bigger, bigger.Length;
    }

    /**
      `ensureSpace` grows at most once, and by half: afterwards the space is there if and only if it was there before or
      fits the grown buffer, as at most 64 bytes always do.
     */
    method EnsureSpace(space: nat)
      requires Valid()
      modifies this
      ensures Valid() && (buffer == old(buffer) || fresh(buffer))
      ensures Contents() == old(Contents()) && index == old(index)
      ensures IsAvailable(space) <==> old(IsAvailable(space)) || old(index + space <= capacity + capacity / 2)
      ensures space <= INLINE_CAPACITY / 2 ==> IsAvailable(space)
      ensures old(IsAvailable(space)) ==> buffer == old(buffer)
      ensures capacity == if old(IsAvailable(space)) then old(capacity) else old(capacity) + old(capacity) / 2
    {
      if !IsAvailable(space) {
        Grow(0);
      }
    }

    method PutUnchecked(bytes: seq<bv8>)
      requires Valid() && IsAvailable(|bytes|)
      modifies `index, buffer
      ensures Valid() && Contents() == old(Contents()) + bytes && index == old(index) + |bytes|
    {
      for i := 0 to |bytes|
        modifies buffer
        invariant buffer[..index + i] == old(buffer[..index]) + bytes[..i]
      {
        buffer[index + i] := bytes[i];
      }
      index := index + |bytes|;
    }

    /** `putIntegral` of a number in at most eight bytes. */
    method PutIntegral(bytes: seq<bv8>)
      requires Valid() && |bytes| <= 8
      modifies this, buffer
      ensures Valid() && (buffer == old(buffer) || fresh(buffer))
      ensures Contents() == old(Contents()) + bytes && index == old(index) + |bytes|
      ensures capacity == if old(IsAvailable(|bytes|)) then old(capacity) else old(capacity) + old(capacity) / 2
    {
      EnsureSpace(|bytes|);
      PutUnchecked(bytes);
    }

    /** `append` of any number of bytes. */
    method Append(data: seq<bv8>)
      requires Valid()
      modifies this, buffer
      ensures Valid() && (buffer == old(buffer) || fresh(buffer))
      ensures Contents() == old(Contents()) + data && index == old(index) + |data|
      ensures capacity == if old(IsAvailable(|data|)) then old(capacity) else old(capacity) + old(capacity) / 2 + |data|
    {
      if !IsAvailable(|data|) {
        Grow(|data|);
      }
      PutUnchecked(data);
    }

    /** `putInt`, and that the word can be read back where the label before it points. */
    method PutInt(value: bv32)
      requires Valid()
      modifies this, buffer
      ensures Valid() && (buffer == old(buffer) || fresh(buffer))
      ensures Contents() == old(Contents()) + Bytes32(value)
      ensures index == old(index) + 4 && Word32(Contents()[old(index)..index]) == value
    {
      PutIntegral(Bytes32(value));
      ReadsBack(value);
      assert Contents()[old(index)..index] == Bytes32(value);
    }
  }
}
