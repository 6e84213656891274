/** Growing and shrinking byte buffers, and the errors of the wire protocol. */
module Wire {
  import opened Bytes

  /** The texts of `ProtocolError::Decode`. */
  datatype Fault = EmptyInputEvent | TruncatedMouse | TruncatedKey | TruncatedScroll | UnknownPixelFormat(value: byte)

  datatype ProtocolError =
    | InvalidFrame(need: nat, got: nat)
    | UnknownFrameKind(kind: byte)
    | UnknownInputEvent(value: byte)
    | PayloadTooLarge(size: nat, max: nat)
    | DecodeFault(fault: Fault)

  /** A decoding attempt: its outcome and the bytes it leaves in the buffer. */
  datatype Decoded<+T> = Decoded(outcome: Result<T, ProtocolError>, rest: seq<byte>)

  /** The big-endian unsigned field of four bytes at offset `i`. */
  function Field(s: seq<byte>, i: nat): u32
    requires i + 4 <= |s|
  {
    FourBytes(0, s[i..i + 4]);
    Value(s[i..i + 4])
  }

  lemma FieldOf(s: seq<byte>, i: nat, n: u32)
    requires i + 4 <= |s| && s[i..i + 4] == BigEndian(n, 4)
    ensures Field(s, i) == n
  {
    FourBytes(n, s[i..i + 4]);
  }

  lemma FieldBytes(s: seq<byte>, i: nat)
    requires i + 4 <= |s|
    ensures BigEndian(Field(s, i), 4) == s[i..i + 4]
  {
    FourBytes(0, s[i..i + 4]);
  }

  /** The write side: bytes are appended. */
  class BytesMut {
    var data: seq<byte>

    constructor ()
      ensures data == []
    {
      data := [];
    }

    method PutU8(n: byte)
      modifies this
      ensures data == old(data) + [n]
    {
      data := data + [n];
    }

    method PutU16(n: nat)
      requires n < 0x1_0000
      modifies this
      ensures data == old(data) + BigEndian(n, 2)
    {
      data := data + BigEndian(n, 2);
    }

    method PutU32(n: u32)
      modifies this
      ensures data == old(data) + BigEndian(n, 4)
    {
      data := data + BigEndian(n, 4);
    }

    method PutI32(x: i32)
      modifies this
      ensures data == old(data) + BigEndian(Pattern(x), 4)
    {
      data := data + BigEndian(Pattern(x), 4);
    }
  }

  /** The read side: bytes are taken from the front. */
  class Cursor {
    var data: seq<byte>

    constructor (s: seq<byte>)
      ensures data == s
    {
      data := s;
    }

    function Remaining(): nat
      reads this
    {
      |data|
    }

    method GetU8() returns (n: byte)
      requires |data| >= 1
      modifies this
      ensures n == old(data)[0] && data == old(data)[1..]
    {
      n, data := data[0], data[1..];
    }

    method GetU16() returns (n: nat)
      requires |data| >= 2
      modifies this
      ensures n == Value(old(data)[..2]) && data == old(data)[2..]
    {
      n, data := Value(data[..2]), data[2..];
    }

    method GetU32() returns (n: u32)
      requires |data| >= 4
      modifies this
      ensures n == Field(old(data), 0) && data == old(data)[4..]
    {
      n, data := Field(data, 0), data[4..];
    }

    method GetI32() returns (x: i32)
      requires |data| >= 4
      modifies this
      ensures x == Wrap32(Field(old(data), 0)) && data == old(data)[4..]
    {
      x, data := Wrap32(Field(data, 0)), data[4..];
    }
  }
}
