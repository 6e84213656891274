/** Pixel format conversion, and its independence from the delta codec. */
module Convert {
  import opened Bytes
  import opened Delta
  import opened DeltaLink

  datatype CodecError = BufferMismatch(expected: nat, actual: nat)

  /** Where the converted byte `i` of a four-byte pixel comes from. */
  function Source(i: nat): (j: nat)
    ensures j / 4 == i / 4
    ensures j % 4 == if i % 4 == 0 then 2 else if i % 4 == 2 then 0 else i % 4
  {
    if i % 4 == 0 then i + 2 else if i % 4 == 2 then i - 2 else i
  }

  /** The pixels of `s` with blue and red exchanged. */
  function Swapped(s: Frame): (r: Frame)
    requires |s| % 4 == 0
    ensures |r| == |s|
  {
    seq(|s|, i requires 0 <= i < |s| => s[Source(i)])
  }

  /** Where the four bytes of pixel `p` come from. */
  lemma SourceOfPixel(p: nat)
    ensures Source(4 * p) == 4 * p + 2 && Source(4 * p + 1) == 4 * p + 1
    ensures Source(4 * p + 2) == 4 * p && Source(4 * p + 3) == 4 * p + 3
  {
  }

  /** Blue and red of every pixel are exchanged, green and alpha stay. */
  lemma PixelSwapped(s: Frame, p: nat)
    requires |s| % 4 == 0 && p < |s| / 4
    ensures Swapped(s)[4 * p] == s[4 * p + 2] && Swapped(s)[4 * p + 2] == s[4 * p]
    ensures Swapped(s)[4 * p + 1] == s[4 * p + 1] && Swapped(s)[4 * p + 3] == s[4 * p + 3]
  {
    hide Source;
    SourceOfPixel(p);
  }

  lemma SourceInside(i: nat, pixels: nat)
    requires i < 4 * pixels
    ensures Source(i) < 4 * pixels
  {
  }

  /** Pixels `0` to `p - 1` of `now` are those of `was` with blue and red exchanged, the others are the same. */
  predicate SwappedUpTo(was: Frame, now: Frame, p: nat)
    requires |now| == |was| && 4 * p <= |was|
  {
    && now[..4 * p] == Swapped(was[..4 * p])
    && now[4 * p..] == was[4 * p..]
  }

  lemma SwappedAt(s: Frame, p: nat, i: nat)
    requires i < 4 * p <= |s|
    ensures Source(i) < 4 * p && Swapped(s[..4 * p])[i] == s[Source(i)]
  {
    SourceInside(i, p);
  }

  lemma NextPixel(was: Frame, now: Frame, next: Frame, p: nat)
    requires |now| == |was| && 4 * p + 4 <= |was| && SwappedUpTo(was, now, p)
    requires next == now[4 * p := now[4 * p + 2]][4 * p + 2 := now[4 * p]]
    ensures SwappedUpTo(was, next, p + 1)
  {
    hide Source, Swapped;
    SourceOfPixel(p);
    var done := 4 * (p + 1);
    assert forall i :: 4 * p <= i < |was| ==> now[i] == now[4 * p..][i - 4 * p] == was[i];
    forall i | 0 <= i < done ensures next[..done][i] == Swapped(was[..done])[i] {
      SwappedAt(was, p + 1, i);
      if i < 4 * p {
        SwappedAt(was, p, i);
        assert next[i] == now[..4 * p][i];
      } else {
        assert i == 4 * p || i == 4 * p + 1 || i == 4 * p + 2 || i == 4 * p + 3;
      }
    }
    assert next[..done] == Swapped(was[..done]);
    assert next[done..] == was[done..];
  }

  method BgraToRgba(buf: array<byte>) returns (r: Result<(), CodecError>)
    modifies buf
    ensures buf.Length % 4 == 0 ==> r == Ok(()) && buf[..] == Swapped(old(buf[..]))
    ensures buf.Length % 4 != 0 ==>
              r == Err(BufferMismatch(buf.Length / 4 * 4, buf.Length)) && buf[..] == old(buf[..])
  {
    if buf.Length % 4 != 0 {
      return Err(BufferMismatch(buf.Length / 4 * 4, buf.Length));
    }
    ghost var was := buf[..];
    var pixel := 0;
    while pixel < buf.Length / 4
      invariant 0 <= pixel <= buf.Length / 4
      invariant SwappedUpTo(was, buf[..], pixel)
    {
      hide SwappedUpTo;
      var base := 4 * pixel;
      ghost var now := buf[..];
      buf[base], buf[base + 2] := buf[base + 2], buf[base];
      NextPixel(was, now, buf[..], pixel);
      pixel := pixel + 1;
    }
    assert was[..4 * pixel] == was && buf[..][..4 * pixel] == buf[..];
    return Ok(());
  }

  /** All the color bytes of `s`, without the alpha bytes. */
  function WithoutAlpha(s: Frame): (r: Frame)
    requires |s| % 4 == 0
    ensures |r| == |s| / 4 * 3
  {
    seq(|s| / 4 * 3, i requires 0 <= i < |s| / 4 * 3 => s[4 * (i / 3) + i % 3])
  }

  method RgbaToRgb(rgba: Frame) returns (r: Result<Frame, CodecError>)
    ensures |rgba| % 4 != 0 ==> r == Err(BufferMismatch(|rgba| / 4 * 4, |rgba|))
    ensures |rgba| % 4 == 0 ==> r == Ok(WithoutAlpha(rgba))
  {
    if |rgba| % 4 != 0 {
      return Err(BufferMismatch(|rgba| / 4 * 4, |rgba|));
    }
    var rgb: Frame := [];
    var pixel := 0;
    while pixel < |rgba| / 4
      invariant 0 <= pixel <= |rgba| / 4
      invariant rgb == WithoutAlpha(rgba[..4 * pixel])
    {
      var base := 4 * pixel;
      rgb := rgb + rgba[base..base + 3];
      assert rgb == WithoutAlpha(rgba[..base + 4]);
      pixel := pixel + 1;
    }
    assert rgba[..4 * pixel] == rgba;
    return Ok(rgb);
  }

  /** Byte `c` of pixel `p` survives for every color channel. */
  lemma ColorKept(s: Frame, p: nat, c: nat)
    requires |s| % 4 == 0 && p < |s| / 4 && c < 3
    ensures 3 * p + c < |WithoutAlpha(s)| && WithoutAlpha(s)[3 * p + c] == s[4 * p + c]
  {
    var i := 3 * p + c;
    assert i / 3 == p && i % 3 == c;
  }

  lemma SwapTwice(s: Frame)
    requires |s| % 4 == 0
    ensures Swapped(Swapped(s)) == s
  {
    forall i | 0 <= i < |s| ensures Swapped(Swapped(s))[i] == s[i] {
      assert Source(Source(i)) == i;
    }
  }

  lemma SwapXor(a: Frame, b: Frame)
    requires |a| == |b| && |a| % 4 == 0
    ensures Swapped(Xor(a, b)) == Xor(Swapped(a), Swapped(b))
  {
  }

  function SwappedReference(r: Reference): Reference
    requires r.Some? ==> |r.value| % 4 == 0
  {
    match r
    case None => None
    case Some(f) => Some(Swapped(f))
  }

  predicate Whole(r: Reference) {
    r.Some? ==> |r.value| % 4 == 0
  }

  predicate WholePixels(e: Event) {
    e.Deliver? || e.Lose? ==> |e.frame| % 4 == 0
  }

  function SwappedEvent(e: Event): Event
    requires WholePixels(e)
  {
    match e
    case Deliver(f) => Deliver(Swapped(f))
    case Lose(f) => Lose(Swapped(f))
    case ResetEncoder => ResetEncoder
    case ResetDecoder => ResetDecoder
  }

  predicate WholeEvents(events: seq<Event>) {
    forall k :: 0 <= k < |events| ==> WholePixels(events[k])
  }

  function SwappedEvents(events: seq<Event>): (r: seq<Event>)
    requires WholeEvents(events)
    ensures |r| == |events|
  {
    seq(|events|, k requires 0 <= k < |events| => SwappedEvent(events[k]))
  }

  predicate WholeLink(l: Link) {
    Whole(l.enc) && Whole(l.dec)
  }

  function SwappedLink(l: Link): Link
    requires WholeLink(l)
  {
    Link(SwappedReference(l.enc), SwappedReference(l.dec))
  }

  lemma SwapBase(r: Reference, n: nat)
    requires Whole(r) && n % 4 == 0
    ensures Base(SwappedReference(r), n) == Swapped(Base(r, n))
  {
  }

  /** Converting a frame first gives the converted packet, and the receiver recovers the converted frame. */
  lemma SwapPacket(l: Link, f: Frame)
    requires WholeLink(l) && |f| % 4 == 0
    ensures Packet(SwappedLink(l), Swapped(f)) == Swapped(Packet(l, f))
    ensures Received(SwappedLink(l), Swapped(f)) == Swapped(Received(l, f))
  {
    SwapBase(l.enc, |f|);
    SwapBase(l.dec, |f|);
    SwapXor(f, Base(l.enc, |f|));
    SwapXor(Packet(l, f), Base(l.dec, |f|));
  }

  predicate WholeFrames(frames: seq<Frame>) {
    forall k :: 0 <= k < |frames| ==> |frames[k]| % 4 == 0
  }

  function SwappedFrames(frames: seq<Frame>): (r: seq<Frame>)
    requires WholeFrames(frames)
    ensures |r| == |frames|
  {
    seq(|frames|, k requires 0 <= k < |frames| => Swapped(frames[k]))
  }

  /** One more event of a run, converted or not. */
  lemma SwapStep(l: Link, e: Event)
    requires WholeLink(l) && WholePixels(e)
    ensures WholeLink(Step(l, e))
    ensures Step(SwappedLink(l), SwappedEvent(e)) == SwappedLink(Step(l, e))
  {
    hide Swapped, Base, Xor;
    if e.Deliver? {
      SwapPacket(l, e.frame);
    }
  }

  lemma {:induction false} SwapRun(l: Link, events: seq<Event>)
    requires WholeLink(l) && WholeEvents(events)
    ensures WholeLink(Run(l, events))
    ensures Run(SwappedLink(l), SwappedEvents(events)) == SwappedLink(Run(l, events))
  {
    if events == [] {
    } else {
      var front, e := events[..|events| - 1], events[|events| - 1];
      SwapRun(l, front);
      SwapStep(Run(l, front), e);
      assert SwappedEvents(events)[..|events| - 1] == SwappedEvents(front);
      hide Step, SwappedLink, SwappedEvent, WholeLink;
    }
  }

  lemma SwapOne(l: Link, e: Event)
    requires WholeLink(l) && WholePixels(e)
    ensures WholeFrames(Sent(l, e)) && WholeFrames(Shown(l, e))
    ensures Sent(SwappedLink(l), SwappedEvent(e)) == SwappedFrames(Sent(l, e))
    ensures Shown(SwappedLink(l), SwappedEvent(e)) == SwappedFrames(Shown(l, e))
  {
    hide Swapped, SwappedLink, WholeLink, Packet, Received;
    if e.Deliver? || e.Lose? {
      SwapPacket(l, e.frame);
    }
  }

  lemma SwappedFramesConcat(a: seq<Frame>, b: seq<Frame>)
    requires WholeFrames(a) && WholeFrames(b)
    ensures WholeFrames(a + b) && SwappedFrames(a + b) == SwappedFrames(a) + SwappedFrames(b)
  {
    hide Swapped;
  }

  lemma SwappedLast(events: seq<Event>)
    requires WholeEvents(events) && events != []
    ensures WholeEvents(events[..|events| - 1]) && WholePixels(events[|events| - 1])
    ensures SwappedEvents(events)[..|events| - 1] == SwappedEvents(events[..|events| - 1])
    ensures SwappedEvents(events)[|events| - 1] == SwappedEvent(events[|events| - 1])
  {
    hide Swapped;
  }

  /**
   * Main result: on any run, with losses and resets, converting the frames before they enter the link gives the
   * converted packets on the wire, the converted frames at the other end and the converted references on both sides.
   */
  lemma {:induction false} SwapCommutesWithRun(l: Link, events: seq<Event>)
    requires WholeLink(l) && WholeEvents(events)
    ensures WholeFrames(Packets(l, events)) && WholeFrames(Outputs(l, events)) && WholeLink(Run(l, events))
    ensures var m, converted := SwappedLink(l), SwappedEvents(events);
            && Packets(m, converted) == SwappedFrames(Packets(l, events))
            && Outputs(m, converted) == SwappedFrames(Outputs(l, events))
            && Run(m, converted) == SwappedLink(Run(l, events))
  {
    SwapRun(l, events);
    if events == [] {
    } else {
      hide Run, SwappedLink, SwappedEvent, SwappedEvents, SwappedFrames, WholeLink, WholeEvents, WholeFrames,
        WholePixels, Sent, Shown;
      var front, e := events[..|events| - 1], events[|events| - 1];
      SwappedLast(events);
      SwapCommutesWithRun(l, front);
      SwapRun(l, front);
      SwapOne(Run(l, front), e);
      SwappedFramesConcat(Packets(l, front), Sent(Run(l, front), e));
      SwappedFramesConcat(Outputs(l, front), Shown(Run(l, front), e));
    }
  }

  /** Dropping alpha commutes with the exclusive or as well. */
  lemma WithoutAlphaXor(a: Frame, b: Frame)
    requires |a| == |b| && |a| % 4 == 0
    ensures WithoutAlpha(Xor(a, b)) == Xor(WithoutAlpha(a), WithoutAlpha(b))
  {
  }
}
