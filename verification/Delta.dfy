/** The exclusive-or delta codec, and what happens to a pair of codecs whose packets or resets get lost. */
module Delta {
  import opened Bytes

  type Frame = seq<byte>

  /** The reference frame of one codec. */
  type Reference = Option<Frame>

  /** Byte by byte, over the common length. */
  function Xor(a: Frame, b: Frame): (x: Frame)
    requires |a| == |b|
    ensures |x| == |a|
  {
    seq(|a|, i requires 0 <= i < |a| => XorByte(a[i], b[i]))
  }

  function Zeros(n: nat): (z: Frame)
    ensures |z| == n
  {
    seq(n, _ => 0)
  }

  /** What a codec combines a frame of length `n` with: its reference if the length fits, and nothing otherwise. */
  function Base(ref: Reference, n: nat): (b: Frame)
    ensures |b| == n
  {
    if ref.Some? && |ref.value| == n then ref.value else Zeros(n)
  }

  // ---------- algebra of frames ----------

  lemma XorZeros(a: Frame)
    ensures Xor(a, Zeros(|a|)) == a
  {
    forall i | 0 <= i < |a| ensures Xor(a, Zeros(|a|))[i] == a[i] {
      XorByteLaws(a[i], 0, 0);
    }
  }

  lemma XorCommute(a: Frame, b: Frame)
    requires |a| == |b|
    ensures Xor(a, b) == Xor(b, a)
  {
    forall i | 0 <= i < |a| ensures Xor(a, b)[i] == Xor(b, a)[i] {
      XorByteLaws(a[i], b[i], 0);
    }
  }

  lemma XorAssociate(a: Frame, b: Frame, c: Frame)
    requires |a| == |b| == |c|
    ensures Xor(Xor(a, b), c) == Xor(a, Xor(b, c))
  {
    forall i | 0 <= i < |a| ensures Xor(Xor(a, b), c)[i] == Xor(a, Xor(b, c))[i] {
      XorByteLaws(a[i], b[i], c[i]);
    }
  }

  lemma XorZeroIffEqual(a: Frame, b: Frame)
    requires |a| == |b|
    ensures Xor(a, b) == Zeros(|a|) <==> a == b
  {
    forall i | 0 <= i < |a| ensures Xor(a, b)[i] == 0 <==> a[i] == b[i] {
      XorByteLaws(a[i], b[i], 0);
    }
    if Xor(a, b) == Zeros(|a|) {
      forall i | 0 <= i < |a| ensures a[i] == b[i] {
        assert Xor(a, b)[i] == 0;
      }
    }
  }

  /** Cancelling the same frame twice. */
  lemma XorCancel(a: Frame, b: Frame)
    requires |a| == |b|
    ensures Xor(a, Xor(a, b)) == b
    ensures Xor(Xor(b, a), a) == b
  {
    XorAssociate(a, a, b);
    XorZeroIffEqual(a, a);
    XorAssociate(b, a, a);
    XorZeros(b);
    XorCommute(Zeros(|a|), b);
  }

  // ---------- the object ----------

  class DeltaCodec {
    var prevFrame: Reference

    constructor ()
      ensures prevFrame == None
    {
      prevFrame := None;
    }

    method Reset()
      modifies this
      ensures prevFrame == None
    {
      prevFrame := None;
    }

    method Encode(raw: Frame) returns (packet: Frame)
      modifies this
      ensures packet == Xor(raw, Base(old(prevFrame), |raw|))
      ensures prevFrame == Some(raw)
    {
      XorZeros(raw);
      match prevFrame
      case None =>
        prevFrame := Some(raw);
        packet := raw;
      case Some(prev) =>
        if |prev| != |raw| {
          prevFrame := Some(raw);
          return raw;
        }
        packet := Xor(raw, prev);
        prevFrame := Some(raw);
    }

    method Decode(compressed: Frame) returns (frame: Frame)
      modifies this
      ensures frame == Xor(compressed, Base(old(prevFrame), |compressed|))
      ensures prevFrame == Some(frame)
    {
      XorZeros(compressed);
      match prevFrame
      case None =>
        frame := compressed;
        prevFrame := Some(frame);
      case Some(prev) =>
        if |prev| != |compressed| {
          frame := compressed;
          prevFrame := Some(frame);
          return frame;
        }
        frame := Xor(compressed, prev);
        prevFrame := Some(frame);
    }
  }
}
