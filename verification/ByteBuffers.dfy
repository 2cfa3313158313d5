/** The growing buffer with a read offset (`ByteBuffer` in `src/ws_packet.cpp`). */
module ByteBuffers {
  import opened Bytes

  const INT_MAX := 0x7FFF_FFFF

  /** The conversion to `uint32_t`. */
  function Unsigned(n: int): nat {
    n % TWO32
  }

  /** `require`: the comparison is between unsigned numbers. */
  predicate Enough(size: int, length: nat, oft: nat) {
    Unsigned(size) <= Unsigned(length - oft)
  }

  /** What an `int` can hold. */
  predicate IsInt(n: int) {
    -INT_MAX - 1 <= n <= INT_MAX
  }

  /** An `int` has 32 bits, one of them for the sign. */
  lemma IntBounds()
    ensures Power256(4) == TWO32 == 2 * (INT_MAX + 1) && (forall n :: IsInt(n) <==> -2147483648 <= n <= 2147483647)
  {
  }

  /** The unsigned comparison means what it says, for every size, exactly as long as the offset has
      not passed the end. */
  lemma EnoughMeans(length: nat, oft: nat)
    requires length <= INT_MAX && oft < TWO32
    ensures (forall size :: IsInt(size) ==> (Enough(size, length, oft) <==> 0 <= size <= length - oft))
            <==> oft <= length
  {
    if length < oft {
      assert Unsigned(length - oft) == TWO32 + length - oft;
      assert IsInt(0) && Enough(0, length, oft) && 0 > length - oft;
    }
  }

  /** The result of `curat`: nothing, an offset, or the exception of `at`. */
  datatype Place = Null | At(oft: nat) | OutOfRange

  /** The result of `read_bytes_x`: false, the bytes, or the exception of `at`. */
  datatype Read = TooFew | Got(bytes: seq<byte>) | Thrown

  class ByteBuffer {
    var data: seq<byte>
    var oft: nat

    /** The offset is within the data, and an `int` can count them. */
    predicate Valid()
      reads this
    {
      oft <= |data| <= INT_MAX
    }

    constructor ()
      ensures data == [] && oft == 0
    {
      data, oft := [], 0;
    }

    function Curat(): Place
      reads this
    {
      if data == [] then Null else if oft < |data| then At(oft) else OutOfRange
    }

    /** The offset may be anywhere. */
    predicate Countable()
      reads this
    {
      |data| <= INT_MAX && oft < TWO32
    }

    method SkipX(size: int) returns (ok: bool)
      requires Countable() && IsInt(size)
      modifies this`oft
      ensures ok == Enough(size, |data|, old(oft))
      ensures oft == if ok then Unsigned(old(oft) + size) else old(oft)
      ensures old(Valid()) ==> Valid() && ok == (0 <= size <= |data| - old(oft)) && (ok ==> oft == old(oft) + size)
    {
      EnoughMeans(|data|, oft);
      ok := Enough(size, |data|, oft);
      if ok {
        oft := Unsigned(oft + size);
      }
    }

    /** The bytes read, if there are enough; at the end of the data even reading none throws. */
    method ReadBytesX(size: int) returns (r: Read)
      requires Countable() && IsInt(size)
      modifies this`oft
      ensures r.TooFew? <==> !Enough(size, |data|, old(oft))
      ensures r.Thrown? <==> Enough(size, |data|, old(oft)) && |data| <= old(oft)
      ensures r.Got? ==> 0 <= size && oft == old(oft) + size <= |data| && r.bytes == data[old(oft)..oft]
      ensures !r.Got? ==> oft == old(oft)
      ensures old(Valid()) ==> Valid() && (r.TooFew? <==> !(0 <= size <= |data| - old(oft)))
    {
      EnoughMeans(|data|, oft);
      if !Enough(size, |data|, oft) {
        return TooFew;
      }
      if |data| <= oft {
        return Thrown;
      }
      r := Got(data[oft..oft + size]);
      oft := oft + size;
    }

    method ResetOft()
      modifies this`oft
      ensures oft == 0
    {
      oft := 0;
    }

    /** The offset is not moved. */
    method Erase(size: int)
      modifies this`data
      ensures data == if size <= 0 then old(data) else if size >= |old(data)| then [] else old(data)[size..]
    {
      if size <= 0 {
        return;
      }
      if size >= |data| {
        data := [];
        return;
      }
      data := data[size..];
    }

    method Append(bytes: seq<byte>)
      requires |data| + |bytes| <= INT_MAX
      modifies this`data
      ensures data == old(data) + bytes
    {
      data := data + bytes;
    }
  }
}
