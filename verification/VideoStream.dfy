/** The whole video path: delta encoding, framing, one byte string, and back. */
module VideoStream {
  import opened Bytes
  import opened Wire
  import opened Delta
  import FrameHeaders

  /** One captured frame: whether both sides reset before it, its header, and its pixels. */
  datatype Shot = Shot(reset: bool, header: FrameHeaders.FrameHeader, frame: Frame)

  datatype StreamError = BadHeader(error: ProtocolError) | ShortPayload(need: nat, got: nat)

  /** The length of the frame fits the header field. */
  predicate Framable(shot: Shot) {
    |shot.frame| < U32_SPAN
  }

  /** The receiver will take a payload of this length. */
  predicate Sendable(shot: Shot) {
    |shot.frame| <= FrameHeaders.MAX_PAYLOAD
  }

  function ReferenceFor(ref: Reference, reset: bool): Reference {
    if reset then None else ref
  }

  function SentHeader(shot: Shot): FrameHeaders.FrameHeader
    requires Framable(shot)
  {
    shot.header.(payloadLen := |shot.frame|)
  }

  /** The bytes of one frame on the wire. */
  function SentBytes(ref: Reference, shot: Shot): seq<byte>
    requires Framable(shot)
  {
    FrameHeaders.Image(SentHeader(shot)) + Xor(shot.frame, Base(ReferenceFor(ref, shot.reset), |shot.frame|))
  }

  function Sent(ref: Reference, shots: seq<Shot>): seq<byte>
    requires forall k :: 0 <= k < |shots| ==> Framable(shots[k])
    decreases |shots|
  {
    if shots == [] then [] else SentBytes(ref, shots[0]) + Sent(Some(shots[0].frame), shots[1..])
  }

  /** One frame off the wire: its header, its pixels and the bytes behind it. */
  function ReceivedOne(ref: Reference, reset: bool, s: seq<byte>)
    : Result<(FrameHeaders.FrameHeader, Frame, seq<byte>), StreamError>
  {
    var p := FrameHeaders.Parse(s);
    match p.outcome
    case Err(e) => Err(BadHeader(e))
    case Ok(h) =>
      if |p.rest| < h.payloadLen then Err(ShortPayload(h.payloadLen, |p.rest|))
      else
        Ok((h, Xor(p.rest[..h.payloadLen], Base(ReferenceFor(ref, reset), h.payloadLen)), p.rest[h.payloadLen..]))
  }

  /** As many frames as there are reset flags, and what is left over. */
  function Received(ref: Reference, resets: seq<bool>, s: seq<byte>)
    : Result<(seq<(FrameHeaders.FrameHeader, Frame)>, seq<byte>), StreamError>
    decreases |resets|
  {
    if resets == [] then Ok(([], s))
    else
      match ReceivedOne(ref, resets[0], s)
      case Err(e) => Err(e)
      case Ok((h, f, rest)) =>
        match Received(Some(f), resets[1..], rest)
        case Err(e) => Err(e)
        case Ok((more, left)) => Ok(([(h, f)] + more, left))
  }

  method SendFrame(enc: DeltaCodec, shot: Shot, dst: BytesMut)
    requires Framable(shot)
    modifies enc, dst
    ensures dst.data == old(dst.data) + SentBytes(old(enc.prevFrame), shot)
    ensures enc.prevFrame == Some(shot.frame)
  {
    if shot.reset {
      enc.Reset();
    }
    var packet := enc.Encode(shot.frame);
    FrameHeaders.Encode(shot.header.(payloadLen := |packet|), dst);
    dst.data := dst.data + packet;
  }

  method ReceiveFrame(dec: DeltaCodec, reset: bool, src: Cursor)
      returns (r: Result<(FrameHeaders.FrameHeader, Frame), StreamError>)
    modifies dec, src
    ensures match ReceivedOne(old(dec.prevFrame), reset, old(src.data))
            case Ok((h, f, rest)) => r == Ok((h, f)) && src.data == rest && dec.prevFrame == Some(f)
            case Err(e) =>
              && r == Err(e) && src.data == FrameHeaders.Parse(old(src.data)).rest
              && dec.prevFrame == ReferenceFor(old(dec.prevFrame), reset)
  {
    if reset {
      dec.Reset();
    }
    var header := FrameHeaders.Decode(src);
    match header {
      case Err(e) =>
        return Err(BadHeader(e));
      case Ok(h) =>
        if src.Remaining() < h.payloadLen {
          return Err(ShortPayload(h.payloadLen, src.Remaining()));
        }
        var packet := src.data[..h.payloadLen];
        src.data := src.data[h.payloadLen..];
        var frame := dec.Decode(packet);
        return Ok((h, frame));
    }
  }

  // ---------- what is on the wire ----------

  /** Both sides combine with a reference of the length of the frame, unless they have just been reset. */
  predicate Combines(ref: Reference, reset: bool, n: nat) {
    !reset && ref.Some? && |ref.value| == n
  }

  lemma BaseByte(ref: Reference, reset: bool, n: nat, i: nat, a: byte)
    requires i < n
    ensures XorByte(a, Base(ReferenceFor(ref, reset), n)[i]) ==
            if Combines(ref, reset, n) then XorByte(a, ref.value[i]) else a
  {
    XorByteLaws(a, 0, 0);
    hide XorByte;
  }

  /** After a reset, or for a new frame size, the packet behind the header is the frame itself; else the delta. */
  lemma PacketOnWire(ref: Reference, shot: Shot)
    requires Framable(shot)
    ensures var s, f := SentBytes(ref, shot), shot.frame;
            && |s| == 24 + |f|
            && forall i :: 0 <= i < |f| ==>
                 s[24 + i] == if Combines(ref, shot.reset, |f|) then XorByte(f[i], ref.value[i]) else f[i]
  {
    hide FrameHeaders.Image, Base, ReferenceFor, XorByte;
    var s, f := SentBytes(ref, shot), shot.frame;
    forall i | 0 <= i < |f|
      ensures s[24 + i] == if Combines(ref, shot.reset, |f|) then XorByte(f[i], ref.value[i]) else f[i]
    {
      BaseByte(ref, shot.reset, |f|, i, f[i]);
    }
  }

  /** And the frame that a receiver makes of a packet is the packet itself, or the packet combined in the same way. */
  lemma FrameOffWire(ref: Reference, reset: bool, s: seq<byte>)
    requires ReceivedOne(ref, reset, s).Ok?
    ensures var (h, f, rest) := ReceivedOne(ref, reset, s).value;
            && |f| == h.payloadLen && |s| >= 24 + |f| && rest == s[24 + |f|..]
            && forall i :: 0 <= i < |f| ==>
                 f[i] == if Combines(ref, reset, |f|) then XorByte(s[24 + i], ref.value[i]) else s[24 + i]
  {
    var (h, f, rest) := ReceivedOne(ref, reset, s).value;
    assert FrameHeaders.Parse(s).rest == s[24..];
    hide FrameHeaders.Parse, Base, ReferenceFor, XorByte;
    forall i | 0 <= i < |f|
      ensures f[i] == if Combines(ref, reset, |f|) then XorByte(s[24 + i], ref.value[i]) else s[24 + i]
    {
      BaseByte(ref, reset, |f|, i, s[24 + i]);
    }
  }

  /** Every field as it was set, except that the payload length is that of the frame. */
  function ArrivingHeader(shot: Shot): FrameHeaders.FrameHeader
    requires Framable(shot)
  {
    var h := shot.header;
    FrameHeaders.FrameHeader(h.kind, h.displayId, h.sequence, h.width, h.height, h.pixelFormat, |shot.frame|)
  }

  /** One frame survives the wire; a frame over 64 MiB is refused at its header. */
  lemma OneFrame(ref: Reference, shot: Shot, rest: seq<byte>)
    requires Framable(shot)
    ensures ReceivedOne(ref, shot.reset, SentBytes(ref, shot) + rest) ==
            if |shot.frame| <= 67_108_864 then Ok((ArrivingHeader(shot), shot.frame, rest))
            else Err(BadHeader(PayloadTooLarge(|shot.frame|, 67_108_864)))
  {
    hide FrameHeaders.Image, FrameHeaders.Parse;
    var h, b := SentHeader(shot), Base(ReferenceFor(ref, shot.reset), |shot.frame|);
    var packet := Xor(shot.frame, b);
    assert SentBytes(ref, shot) + rest == FrameHeaders.Image(h) + (packet + rest);
    FrameHeaders.RoundTrip(h, packet + rest);
    XorCancel(b, shot.frame);
  }

  /** A frame cut short behind its header is refused with what it needs and what is there. */
  lemma CutFrame(ref: Reference, shot: Shot, k: nat)
    requires Framable(shot) && |shot.frame| <= 67_108_864 && k < |shot.frame|
    ensures ReceivedOne(ref, shot.reset, SentBytes(ref, shot)[..24 + k]) == Err(ShortPayload(|shot.frame|, k))
  {
    hide FrameHeaders.Image, FrameHeaders.Parse, Base, ReferenceFor, Xor;
    var h, s := SentHeader(shot), SentBytes(ref, shot);
    assert s[..24 + k] == FrameHeaders.Image(h) + s[24..24 + k];
    FrameHeaders.RoundTrip(h, s[24..24 + k]);
  }

  function Resets(shots: seq<Shot>): seq<bool> {
    if shots == [] then [] else [shots[0].reset] + Resets(shots[1..])
  }

  function Delivered(shots: seq<Shot>): seq<(FrameHeaders.FrameHeader, Frame)>
    requires forall k :: 0 <= k < |shots| ==> Framable(shots[k])
  {
    if shots == [] then [] else [(ArrivingHeader(shots[0]), shots[0].frame)] + Delivered(shots[1..])
  }

  lemma FirstReceived(ref: Reference, resets: seq<bool>, s: seq<byte>, h: FrameHeaders.FrameHeader, f: Frame,
                      tail: seq<byte>, more: seq<(FrameHeaders.FrameHeader, Frame)>, left: seq<byte>)
    requires resets != [] && ReceivedOne(ref, resets[0], s) == Ok((h, f, tail))
    requires Received(Some(f), resets[1..], tail) == Ok((more, left))
    ensures Received(ref, resets, s) == Ok(([(h, f)] + more, left))
  {
    hide ReceivedOne;
  }

  /**
   * Main result: whatever the frame sizes and wherever both sides reset, the concatenated stream decodes to exactly
   * the frames that were sent, with their headers, and nothing of what follows is touched.
   */
  lemma {:induction false} StreamRoundTrip(ref: Reference, shots: seq<Shot>, rest: seq<byte>)
    requires forall k :: 0 <= k < |shots| ==> Framable(shots[k]) && Sendable(shots[k])
    ensures Received(ref, Resets(shots), Sent(ref, shots) + rest) == Ok((Delivered(shots), rest))
    decreases |shots|
  {
    if shots == [] {
      assert Sent(ref, shots) + rest == rest;
    } else {
      hide SentBytes, ArrivingHeader, ReceivedOne, Received;
      var shot, more := shots[0], shots[1..];
      var tail := Sent(Some(shot.frame), more) + rest;
      assert Sent(ref, shots) + rest == SentBytes(ref, shot) + tail;
      assert Resets(shots)[1..] == Resets(more);
      OneFrame(ref, shot, tail);
      StreamRoundTrip(Some(shot.frame), more, rest);
      FirstReceived(ref, Resets(shots), Sent(ref, shots) + rest, ArrivingHeader(shot), shot.frame, tail,
                    Delivered(more), rest);
    }
  }
}
