/** The 24-byte header in front of every video frame. */
module FrameHeaders {
  import opened Bytes
  import opened Wire

  const FRAME_HEADER_SIZE: nat := 24
  const MAX_PAYLOAD: u32 := 64 * 1024 * 1024

  datatype FrameKind = Full | Delta | Cursor

  datatype PixelFormat = Bgra8 | Rgba8 | Rgb8 | Nv12

  datatype FrameHeader = FrameHeader(
    kind: FrameKind, displayId: u32, sequence: u32, width: u32, height: u32, pixelFormat: PixelFormat, payloadLen: u32)

  function KindTag(k: FrameKind): byte {
    match k
    case Full => 0
    case Delta => 1
    case Cursor => 2
  }

  function KindFromTag(v: byte): Result<FrameKind, ProtocolError> {
    if v == 0 then Ok(Full) else if v == 1 then Ok(Delta) else if v == 2 then Ok(Cursor)
    else Err(UnknownFrameKind(v))
  }

  function FormatTag(f: PixelFormat): byte {
    match f
    case Bgra8 => 0
    case Rgba8 => 1
    case Rgb8 => 2
    case Nv12 => 3
  }

  function FormatFromTag(v: byte): Result<PixelFormat, ProtocolError> {
    if v == 0 then Ok(Bgra8) else if v == 1 then Ok(Rgba8) else if v == 2 then Ok(Rgb8) else if v == 3 then Ok(Nv12)
    else Err(DecodeFault(UnknownPixelFormat(v)))
  }

  /** The wire image of a header, reserved bytes zero. */
  function Image(h: FrameHeader): (s: seq<byte>)
    ensures |s| == FRAME_HEADER_SIZE
  {
    [KindTag(h.kind)] + BigEndian(h.displayId, 4) + BigEndian(h.sequence, 4) + BigEndian(h.width, 4)
    + BigEndian(h.height, 4) + [FormatTag(h.pixelFormat)] + [0, 0] + BigEndian(h.payloadLen, 4)
  }

  /** The header that the first 24 bytes denote, field by field. */
  function Denoted(s: seq<byte>): FrameHeader
    requires |s| >= FRAME_HEADER_SIZE && s[0] <= 2 && s[17] <= 3
  {
    FrameHeader(KindFromTag(s[0]).value, Field(s, 1), Field(s, 5), Field(s, 9), Field(s, 13),
                FormatFromTag(s[17]).value, Field(s, 20))
  }

  /** What decoding `s` gives; a refused header leaves the cursor behind the byte that gave it away. */
  function Parse(s: seq<byte>): Decoded<FrameHeader> {
    if |s| < FRAME_HEADER_SIZE then Decoded(Err(InvalidFrame(FRAME_HEADER_SIZE, |s|)), s)
    else if s[0] > 2 then Decoded(Err(UnknownFrameKind(s[0])), s[1..])
    else if s[17] > 3 then Decoded(Err(DecodeFault(UnknownPixelFormat(s[17]))), s[18..])
    else if Field(s, 20) > MAX_PAYLOAD then Decoded(Err(PayloadTooLarge(Field(s, 20), MAX_PAYLOAD)), s[24..])
    else Decoded(Ok(Denoted(s)), s[24..])
  }

  lemma ReservedBytes()
    ensures BigEndian(0, 2) == [0, 0]
  {
    assert BigEndian(0, 1) == [0];
  }

  method Encode(h: FrameHeader, dst: BytesMut)
    modifies dst
    ensures dst.data == old(dst.data) + Image(h)
  {
    ReservedBytes();
    hide BigEndian;
    dst.PutU8(KindTag(h.kind));
    dst.PutU32(h.displayId);
    dst.PutU32(h.sequence);
    dst.PutU32(h.width);
    dst.PutU32(h.height);
    dst.PutU8(FormatTag(h.pixelFormat));
    dst.PutU16(0);
    dst.PutU32(h.payloadLen);
  }

  /** Reading past a tag and four fields, one after the other. */
  lemma Skipped(s: seq<byte>, t: seq<byte>)
    requires |s| >= FRAME_HEADER_SIZE && t == s[1..][4..][4..][4..][4..]
    ensures t == s[17..]
    ensures Field(s[1..], 0) == Field(s, 1)
    ensures Field(s[1..][4..], 0) == Field(s, 5)
    ensures Field(s[1..][4..][4..], 0) == Field(s, 9)
    ensures Field(s[1..][4..][4..][4..], 0) == Field(s, 13)
  {
    assert s[1..][0..4] == s[1..5];
    assert s[1..][4..][0..4] == s[5..9];
    assert s[1..][4..][4..][0..4] == s[9..13];
    assert s[1..][4..][4..][4..][0..4] == s[13..17];
  }

  method Decode(src: Wire.Cursor) returns (r: Result<FrameHeader, ProtocolError>)
    modifies src
    ensures Decoded(r, src.data) == Parse(old(src.data))
  {
    ghost var s := src.data;
    if src.Remaining() < FRAME_HEADER_SIZE {
      return Err(InvalidFrame(FRAME_HEADER_SIZE, src.Remaining()));
    }
    var tag := src.GetU8();
    var kind := KindFromTag(tag);
    if kind.Err? {
      return Err(kind.error);
    }
    var displayId := src.GetU32();
    var sequence := src.GetU32();
    var width := src.GetU32();
    var height := src.GetU32();
    Skipped(s, src.data);
    var formatTag := src.GetU8();
    var format := FormatFromTag(formatTag);
    if format.Err? {
      return Err(format.error);
    }
    var _ := src.GetU16();
    assert src.data == s[20..];
    var payloadLen := src.GetU32();
    assert src.data == s[24..];
    assert s[20..][0..4] == s[20..24];
    if payloadLen > MAX_PAYLOAD {
      return Err(PayloadTooLarge(payloadLen, MAX_PAYLOAD));
    }
    return Ok(FrameHeader(kind.value, displayId, sequence, width, height, format.value, payloadLen));
  }

  lemma ImageFields(h: FrameHeader, rest: seq<byte>)
    ensures var s := Image(h) + rest;
            && s[0] == (match h.kind case Full => 0 case Delta => 1 case Cursor => 2)
            && s[17] == (match h.pixelFormat case Bgra8 => 0 case Rgba8 => 1 case Rgb8 => 2 case Nv12 => 3)
            && s[18] == 0 && s[19] == 0
            && Field(s, 1) == h.displayId && Field(s, 5) == h.sequence
            && Field(s, 9) == h.width && Field(s, 13) == h.height && Field(s, 20) == h.payloadLen
            && s[24..] == rest
  {
    hide BigEndian, Field;
    var s := Image(h) + rest;
    assert s[1..5] == BigEndian(h.displayId, 4);
    assert s[5..9] == BigEndian(h.sequence, 4);
    assert s[9..13] == BigEndian(h.width, 4);
    assert s[13..17] == BigEndian(h.height, 4);
    assert s[20..24] == BigEndian(h.payloadLen, 4);
    FieldOf(s, 1, h.displayId);
    FieldOf(s, 5, h.sequence);
    FieldOf(s, 9, h.width);
    FieldOf(s, 13, h.height);
    FieldOf(s, 20, h.payloadLen);
  }

  /** Main result: decoding inverts encoding whatever follows, exactly for payloads of at most 64 MiB. */
  lemma RoundTrip(h: FrameHeader, rest: seq<byte>)
    ensures Parse(Image(h) + rest) ==
            Decoded(if h.payloadLen <= 67_108_864 then Ok(h)
                    else Err(PayloadTooLarge(h.payloadLen, 67_108_864)), rest)
  {
    hide BigEndian, Field, Image;
    ImageFields(h, rest);
  }

  /** A cut header is refused whole: nothing of it is consumed. */
  lemma CutIsInvalid(h: FrameHeader, k: nat)
    requires k < 24
    ensures Parse(Image(h)[..k]) == Decoded(Err(InvalidFrame(24, k)), Image(h)[..k])
  {
    hide Image;
  }

  /**
   * An unknown kind, or else an unknown pixel format, is refused with its byte, and whatever the payload length; the
   * cursor stops behind that byte.
   */
  lemma UnknownTags(h: FrameHeader, rest: seq<byte>, kind: byte, format: byte)
    ensures var s := (Image(h) + rest)[0 := kind][17 := format];
            && (kind > 2 ==> Parse(s) == Decoded(Err(UnknownFrameKind(kind)), s[1..]))
            && (kind <= 2 && format > 3 ==> Parse(s) == Decoded(Err(DecodeFault(UnknownPixelFormat(format))), s[18..]))
  {
    hide Image, Field;
  }

  /** The bytes of a header, reserved ones zeroed. */
  function Cleaned(s: seq<byte>): seq<byte>
    requires |s| >= FRAME_HEADER_SIZE
  {
    s[..18] + [0, 0] + s[20..24]
  }

  lemma Pieces(s: seq<byte>)
    requires |s| >= 18
    ensures s[..18] == s[..1] + s[1..5] + s[5..9] + s[9..13] + s[13..17] + s[17..18]
  {
    assert s[..5] == s[..1] + s[1..5];
    assert s[..9] == s[..5] + s[5..9];
    assert s[..13] == s[..9] + s[9..13];
    assert s[..17] == s[..13] + s[13..17];
    assert s[..18] == s[..17] + s[17..18];
  }

  /** Conversely, an accepted header re-encodes to its own 24 bytes with the reserved ones zeroed. */
  lemma NormalForm(s: seq<byte>)
    requires Parse(s).outcome.Ok?
    ensures Image(Parse(s).outcome.value) == Cleaned(s)
    ensures Parse(s).rest == s[24..]
  {
    hide BigEndian, Field;
    FieldBytes(s, 1);
    FieldBytes(s, 5);
    FieldBytes(s, 9);
    FieldBytes(s, 13);
    FieldBytes(s, 20);
    var h := Parse(s).outcome.value;
    assert [KindTag(h.kind)] == s[..1] && [FormatTag(h.pixelFormat)] == s[17..18];
    Pieces(s);
  }

  /** Main result: up to the reserved bytes, exactly the images of headers for at most 64 MiB are accepted. */
  lemma AcceptsOnlyImages(s: seq<byte>)
    ensures Parse(s).outcome.Ok? <==>
            |s| >= FRAME_HEADER_SIZE && exists h :: Image(h) == Cleaned(s) && h.payloadLen <= MAX_PAYLOAD
  {
    hide BigEndian, Field, Image;
    if Parse(s).outcome.Ok? {
      NormalForm(s);
    }
    if |s| >= FRAME_HEADER_SIZE {
      forall h | Image(h) == Cleaned(s) && h.payloadLen <= MAX_PAYLOAD ensures Parse(s).outcome.Ok? {
        var t := Cleaned(s);
        ImageFields(h, []);
        assert t + [] == t;
        assert t[20..24] == s[20..24];
        FieldBytes(s, 20);
        FieldOf(t, 20, Field(s, 20));
      }
    }
  }

  /** So decoding, encoding and decoding again changes nothing. */
  lemma Stable(s: seq<byte>)
    requires Parse(s).outcome.Ok?
    ensures Parse(Image(Parse(s).outcome.value) + Parse(s).rest) == Parse(s)
  {
    RoundTrip(Parse(s).outcome.value, Parse(s).rest);
  }
}
