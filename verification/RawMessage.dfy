/**
 * The bytes of a RawJson as Go keeps them: a slice of an array that copies share. Decoding into a
 * RawJson reuses that array when it is large enough.
 */
module RawMessages {
  type Byte = bv8

  class RawMessage {
    var buffer: array<Byte>
    var length: nat

    ghost predicate Valid()
      reads this
    {
      length <= buffer.Length
    }

    function Bytes(): (bytes: seq<Byte>)
      requires Valid()
      reads this, buffer
      ensures |bytes| == length
    {
      buffer[..length]
    }

    /** Marshalling never reuses an array. */
    constructor (data: seq<Byte>, spare: nat)
      ensures Valid() && fresh(buffer) && Bytes() == data && buffer.Length == |data| + spare
    {
      buffer := new Byte[|data| + spare](i => if 0 <= i < |data| then data[i] else 0);
      length := |data|;
      new;
      assert buffer[..length] == data;
    }

    /** `append((*m)[0:0], data...)`. */
    method UnmarshalJSON(data: seq<Byte>)
      requires Valid()
      modifies this, buffer
      ensures Valid() && Bytes() == data
      ensures if |data| <= old(buffer.Length) then buffer == old(buffer) else fresh(buffer)
      ensures |data| <= old(buffer.Length) ==> buffer[|data|..] == old(buffer[|data|..])
      ensures |data| > old(buffer.Length) ==> old(buffer)[..] == old(buffer[..])
    {
      if |data| <= buffer.Length {
        for i := 0 to |data|
          invariant buffer == old(buffer) && buffer[..i] == data[..i]
          invariant buffer[|data|..] == old(buffer[|data|..])
        {
          buffer[i] := data[i];
        }
        length := |data|;
      } else {
        buffer := new Byte[|data|](i requires 0 <= i < |data| => data[i]);
        length := |data|;
      }
      assert buffer[..length] == data;
    }

    method DeepCopyInto(out: RawMessage)
      requires Valid() && out != this
      modifies out
      ensures out.Valid() && out.buffer == buffer && out.Bytes() == Bytes()
    {
      out.buffer, out.length := buffer, length;
    }
  }

  /** What a slice of the old bytes shows once `data` is written over the front of its array. */
  function Overwritten(bytes: seq<Byte>, data: seq<Byte>): (r: seq<Byte>)
    ensures |r| == |bytes|
  {
    if |data| >= |bytes| then data[..|bytes|] else data + bytes[|data|..]
  }

  /** Nothing shows exactly when one of the two texts starts with the other. */
  lemma {:induction false} OverwrittenSame(bytes: seq<Byte>, data: seq<Byte>)
    ensures Overwritten(bytes, data) == bytes <==> data <= bytes || bytes <= data
  {
    if |data| < |bytes| {
      assert Overwritten(bytes, data)[..|data|] == data;
      assert bytes == bytes[..|data|] + bytes[|data|..];
    }
  }

  /**
   * A copy survives a later decode into the original if and only if the array is too small for the
   * new text, or one text starts with the other; otherwise it shows the front of the new one.
   */
  method CopyThenUnmarshal(a: RawMessage, out: RawMessage, data: seq<Byte>)
    requires a.Valid() && a != out
    modifies a, out, a.buffer
    ensures a.Valid() && out.Valid() && a.Bytes() == data
    ensures out.Bytes() ==
      if |data| <= old(a.buffer.Length) then Overwritten(old(a.Bytes()), data) else old(a.Bytes())
    ensures out.Bytes() == old(a.Bytes()) <==>
      |data| > old(a.buffer.Length) || data <= old(a.Bytes()) || old(a.Bytes()) <= data
  {
    a.DeepCopyInto(out);
    ghost var before := a.Bytes();
    a.UnmarshalJSON(data);
    OverwrittenSame(before, data);
    ghost var shared := out.buffer;
    if |data| <= shared.Length {
      assert a.buffer == shared && shared[..|data|] == data;
      assert shared[|data|..] == old(a.buffer[|data|..]);
      assert |data| < |before| ==> shared[..|before|] == data + shared[|data|..][..|before| - |data|];
      assert |data| < |before| ==> old(a.buffer[|data|..])[..|before| - |data|] == before[|data|..];
      assert |data| >= |before| ==> shared[..|before|] == shared[..|data|][..|before|];
    } else {
      assert shared[..][..|before|] == old(a.buffer[..])[..|before|];
    }
  }
}
