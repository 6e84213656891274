/** An encoder and a decoder that share nothing but the packets that arrive. */
module DeltaLink {
  import opened Bytes
  import opened Delta

  /** The references of the sending and of the receiving codec. */
  datatype Link = Link(enc: Reference, dec: Reference)

  datatype Event = Deliver(frame: Frame) | Lose(frame: Frame) | ResetEncoder | ResetDecoder

  /** The packet for `f`: what `DeltaCodec.Encode` returns. */
  function Packet(l: Link, f: Frame): (p: Frame)
    ensures |p| == |f|
  {
    Xor(f, Base(l.enc, |f|))
  }

  /** What the receiver makes of the packet for `f`: what `DeltaCodec.Decode` returns. */
  function Received(l: Link, f: Frame): (g: Frame)
    ensures |g| == |f|
  {
    Xor(Packet(l, f), Base(l.dec, |f|))
  }

  function Step(l: Link, e: Event): Link {
    match e
    case Deliver(f) => Link(Some(f), Some(Received(l, f)))
    case Lose(f) => l.(enc := Some(f))
    case ResetEncoder => l.(enc := None)
    case ResetDecoder => l.(dec := None)
  }

  function Run(l: Link, events: seq<Event>): Link {
    if events == [] then l else Step(Run(l, events[..|events| - 1]), events[|events| - 1])
  }

  /** The packet that an event puts on the wire, if any. */
  function Sent(l: Link, e: Event): seq<Frame> {
    if e.Deliver? || e.Lose? then [Packet(l, e.frame)] else []
  }

  /** The frame that an event brings to the other end, if any. */
  function Shown(l: Link, e: Event): seq<Frame> {
    if e.Deliver? then [Received(l, e.frame)] else []
  }

  /** The packets that a run sends, arriving or not. */
  function Packets(l: Link, events: seq<Event>): seq<Frame> {
    if events == [] then []
    else
      var front, e := events[..|events| - 1], events[|events| - 1];
      Packets(l, front) + Sent(Run(l, front), e)
  }

  /** The frames that a run reconstructs. */
  function Outputs(l: Link, events: seq<Event>): seq<Frame> {
    if events == [] then []
    else
      var front, e := events[..|events| - 1], events[|events| - 1];
      Outputs(l, front) + Shown(Run(l, front), e)
  }

  /** One frame through two codec objects is one `Deliver` step of the link between them. */
  method Transmit(enc: DeltaCodec, dec: DeltaCodec, frame: Frame) returns (got: Frame)
    requires enc != dec
    modifies enc, dec
    ensures got == Received(Link(old(enc.prevFrame), old(dec.prevFrame)), frame)
    ensures Link(enc.prevFrame, dec.prevFrame) ==
            Step(Link(old(enc.prevFrame), old(dec.prevFrame)), Deliver(frame))
  {
    var packet := enc.Encode(frame);
    got := dec.Decode(packet);
  }

  /** How the two sides disagree about frames of length `n`. */
  function Mask(l: Link, n: nat): (m: Frame)
    ensures |m| == n
  {
    Xor(Base(l.enc, n), Base(l.dec, n))
  }

  predicate Clean(l: Link, n: nat) {
    Mask(l, n) == Zeros(n)
  }

  ghost predicate InSync(l: Link) {
    forall n: nat :: Clean(l, n)
  }

  /** A delivered frame arrives as itself xor the mask, keeps the mask of its length and clears every other mask. */
  lemma DeliverLaw(l: Link, f: Frame)
    ensures Received(l, f) == Xor(f, Mask(l, |f|))
    ensures Mask(Step(l, Deliver(f)), |f|) == Mask(l, |f|)
    ensures forall n: nat :: n != |f| ==> Clean(Step(l, Deliver(f)), n)
  {
    var b, m := Base(l.enc, |f|), Mask(l, |f|);
    XorAssociate(f, b, Base(l.dec, |f|));
    assert Received(l, f) == Xor(f, m);
    XorCancel(f, m);
    forall n: nat | n != |f| ensures Clean(Step(l, Deliver(f)), n) {
      XorZeros(Zeros(n));
    }
  }

  /** A lost packet is folded into the mask of its length; at every other length only the decoder remembers. */
  lemma LoseLaw(l: Link, f: Frame)
    ensures Mask(Step(l, Lose(f)), |f|) == Xor(Mask(l, |f|), Packet(l, f))
    ensures forall n: nat :: n != |f| ==> Mask(Step(l, Lose(f)), n) == Base(l.dec, n)
  {
    var b, d := Base(l.enc, |f|), Base(l.dec, |f|);
    calc {
      Xor(Xor(b, d), Xor(f, b));
      { XorCommute(b, d); XorCommute(f, b); }
      Xor(Xor(d, b), Xor(b, f));
      { XorAssociate(d, b, Xor(b, f)); }
      Xor(d, Xor(b, Xor(b, f)));
      { XorCancel(b, f); }
      Xor(d, f);
      { XorCommute(d, f); }
      Xor(f, d);
    }
    forall n: nat | n != |f| ensures Mask(Step(l, Lose(f)), n) == Base(l.dec, n) {
      XorZeros(Base(l.dec, n));
      XorCommute(Zeros(n), Base(l.dec, n));
    }
  }

  /** A reset of one side alone turns the other side's reference into the mask. */
  lemma ResetLaw(l: Link, n: nat)
    ensures Mask(Step(l, ResetEncoder), n) == Base(l.dec, n)
    ensures Mask(Step(l, ResetDecoder), n) == Base(l.enc, n)
    ensures Clean(Step(Step(l, ResetEncoder), ResetDecoder), n)
  {
    XorZeros(Base(l.dec, n));
    XorCommute(Zeros(n), Base(l.dec, n));
    XorZeros(Base(l.enc, n));
    XorZeros(Zeros(n));
  }

  lemma ReceivedIffClean(l: Link, f: Frame)
    ensures Received(l, f) == f <==> Clean(l, |f|)
  {
    var m := Mask(l, |f|);
    DeliverLaw(l, f);
    XorZeros(f);
    XorCancel(f, m);
    XorCancel(f, Zeros(|f|));
  }

  // ---------- healing ----------

  /** One delivery puts the two sides back in step for good exactly when that delivery itself arrives unchanged. */
  lemma SyncAfterDelivery(l: Link, f: Frame)
    ensures InSync(Step(l, Deliver(f))) <==> Received(l, f) == f
  {
    DeliverLaw(l, f);
    ReceivedIffClean(l, f);
    if Clean(l, |f|) {
      forall n: nat ensures Clean(Step(l, Deliver(f)), n) {}
    }
    assert Clean(Step(l, Deliver(f)), |f|) <==> Clean(l, |f|);
  }

  /** A frame of a length that neither side remembers always arrives, and heals every earlier disagreement. */
  lemma NewLengthHeals(l: Link, f: Frame)
    requires l.enc.Some? ==> |l.enc.value| != |f|
    requires l.dec.Some? ==> |l.dec.value| != |f|
    ensures Received(l, f) == f && InSync(Step(l, Deliver(f)))
  {
    XorZeros(Zeros(|f|));
    ReceivedIffClean(l, f);
    SyncAfterDelivery(l, f);
  }

  // ---------- what the mask is made of ----------

  /** What an event lets only one side learn or forget about frames of length `n`. */
  function OneSided(l: Link, e: Event, n: nat): (x: Frame)
    ensures |x| == n
  {
    match e
    case Deliver(f) => Zeros(n)
    case Lose(f) => if |f| == n then Packet(l, f) else Base(l.enc, n)
    case ResetEncoder => Base(l.enc, n)
    case ResetDecoder => Base(l.dec, n)
  }

  /** A delivered frame of another length makes both sides forget every frame of length `n`. */
  predicate Clears(e: Event, n: nat) {
    e.Deliver? && |e.frame| != n
  }

  /** The exclusive or of everything one-sided since the last clearing delivery, or since the start. */
  function Residue(l: Link, events: seq<Event>, n: nat): (x: Frame)
    ensures |x| == n
  {
    if events == [] then Mask(l, n)
    else
      var front, e := events[..|events| - 1], events[|events| - 1];
      if Clears(e, n) then Zeros(n) else Xor(Residue(l, front, n), OneSided(Run(l, front), e, n))
  }

  lemma ForgottenEncoder(b: Frame, d: Frame)
    requires |b| == |d|
    ensures Xor(Xor(b, d), b) == d && Xor(Xor(b, d), d) == b
  {
    XorCommute(b, d);
    XorCancel(b, d);
    XorCancel(d, b);
  }

  /** One step of the mask of length `n`. */
  lemma MaskStep(l: Link, e: Event, n: nat)
    ensures Mask(Step(l, e), n) == if Clears(e, n) then Zeros(n) else Xor(Mask(l, n), OneSided(l, e, n))
  {
    hide Received, Packet;
    ForgottenEncoder(Base(l.enc, n), Base(l.dec, n));
    XorZeros(Mask(l, n));
    match e
    case Deliver(f) => DeliverLaw(l, f);
    case Lose(f) => LoseLaw(l, f);
    case ResetEncoder => ResetLaw(l, n);
    case ResetDecoder => ResetLaw(l, n);
  }

  /**
   * Main result, conservation: over any run of deliveries, losses and resets, with frames of any lengths, the mask is
   * the exclusive or of everything that only one side learned or forgot since the last delivery of another length.
   */
  lemma {:induction false} MaskIsResidue(l: Link, events: seq<Event>, n: nat)
    ensures Mask(Run(l, events), n) == Residue(l, events, n)
  {
    if events == [] {
    } else {
      hide Step, Mask, OneSided;
      var front, e := events[..|events| - 1], events[|events| - 1];
      MaskIsResidue(l, front, n);
      MaskStep(Run(l, front), e, n);
    }
  }

  lemma {:induction false} RunSplit(l: Link, a: seq<Event>, b: seq<Event>)
    ensures Run(l, a + b) == Run(Run(l, a), b)
  {
    if b == [] {
      assert a + b == a;
    } else {
      hide Step;
      RunSplit(l, a, b[..|b| - 1]);
      assert (a + b)[..|a + b| - 1] == a + b[..|b| - 1];
    }
  }

  /** The exclusive or of everything one-sided in a run. */
  function OneSidedSum(l: Link, events: seq<Event>, n: nat): (x: Frame)
    ensures |x| == n
  {
    if events == [] then Zeros(n)
    else
      var front, e := events[..|events| - 1], events[|events| - 1];
      Xor(OneSidedSum(l, front, n), OneSided(Run(l, front), e, n))
  }

  lemma {:induction false} ResidueFromClean(l: Link, events: seq<Event>, n: nat)
    requires Clean(l, n) && forall k :: 0 <= k < |events| ==> !Clears(events[k], n)
    ensures Residue(l, events, n) == OneSidedSum(l, events, n)
  {
    if events == [] {
    } else {
      hide Mask, OneSided, Run;
      ResidueFromClean(l, events[..|events| - 1], n);
    }
  }

  /**
   * Main result, since the last common keyframe: after a delivery that arrived unchanged, and with no clearing delivery
   * since, the mask is the sum of all that was one-sided since then, so the next frame arrives exactly when that
   * cancels.
   */
  lemma MaskSinceKeyframe(l: Link, key: Frame, events: seq<Event>, f: Frame)
    requires Received(l, key) == key
    requires forall k :: 0 <= k < |events| ==> !Clears(events[k], |f|)
    ensures var m, all := Step(l, Deliver(key)), Run(l, [Deliver(key)] + events);
            && Mask(all, |f|) == OneSidedSum(m, events, |f|)
            && Received(all, f) == Xor(f, OneSidedSum(m, events, |f|))
            && (Received(all, f) == f <==> OneSidedSum(m, events, |f|) == Zeros(|f|))
  {
    var m, all := Step(l, Deliver(key)), Run(l, [Deliver(key)] + events);
    assert Run(l, [Deliver(key)]) == m by {
      assert [Deliver(key)][..0] == [];
    }
    RunSplit(l, [Deliver(key)], events);
    SyncAfterDelivery(l, key);
    assert Clean(m, |f|);
    hide InSync, Step, Received, Mask, OneSidedSum;
    MaskIsResidue(m, events, |f|);
    ResidueFromClean(m, events, |f|);
    DeliverLaw(all, f);
    ReceivedIffClean(all, f);
  }

  // ---------- runs that arrive ----------

  /** Every delivery of a run arrives unchanged. */
  predicate AllCorrect(l: Link, events: seq<Event>) {
    forall k :: 0 <= k < |events| && events[k].Deliver? ==>
      Received(Run(l, events[..k]), events[k].frame) == events[k].frame
  }

  /** Over any run, all deliveries are right exactly when everything one-sided has cancelled by each of them. */
  lemma CorrectIffCancelled(l: Link, events: seq<Event>)
    ensures AllCorrect(l, events) <==>
            forall k :: 0 <= k < |events| && events[k].Deliver? ==>
              Residue(l, events[..k], |events[k].frame|) == Zeros(|events[k].frame|)
  {
    forall k | 0 <= k < |events| && events[k].Deliver?
      ensures Received(Run(l, events[..k]), events[k].frame) == events[k].frame
              <==> Residue(l, events[..k], |events[k].frame|) == Zeros(|events[k].frame|)
    {
      ReceivedIffClean(Run(l, events[..k]), events[k].frame);
      MaskIsResidue(l, events[..k], |events[k].frame|);
    }
    hide Run, Received, Residue;
  }

  lemma InSyncReceives(l: Link, f: Frame)
    requires InSync(l)
    ensures Received(l, f) == f
  {
    assert Clean(l, |f|);
    ReceivedIffClean(l, f);
  }

  lemma {:induction false} LosslessInSync(l: Link, events: seq<Event>)
    requires InSync(l)
    requires forall k :: 0 <= k < |events| ==> events[k].Deliver?
    ensures InSync(Run(l, events))
  {
    if events == [] {
    } else {
      hide InSync, Received, Step;
      var front, e := events[..|events| - 1], events[|events| - 1];
      LosslessInSync(l, front);
      InSyncReceives(Run(l, front), e.frame);
      SyncAfterDelivery(Run(l, front), e.frame);
    }
  }

  /** In step, and then nothing lost and nothing reset: every frame of the run arrives, and the sides stay in step. */
  lemma LosslessRun(l: Link, events: seq<Event>)
    requires InSync(l)
    requires forall k :: 0 <= k < |events| ==> events[k].Deliver?
    ensures AllCorrect(l, events) && InSync(Run(l, events))
  {
    hide InSync, Received, Step;
    forall k | 0 <= k < |events|
      ensures Received(Run(l, events[..k]), events[k].frame) == events[k].frame
    {
      LosslessInSync(l, events[..k]);
      InSyncReceives(Run(l, events[..k]), events[k].frame);
    }
    LosslessInSync(l, events);
  }

  // ---------- a stream of one frame size with losses ----------

  /** Only frames of length `n`, delivered or lost. */
  predicate Uniform(events: seq<Event>, n: nat) {
    forall k :: 0 <= k < |events| ==> (events[k].Deliver? || events[k].Lose?) && |events[k].frame| == n
  }

  /** The exclusive or of all the packets that a run loses. */
  function LostPackets(l: Link, events: seq<Event>, n: nat): (x: Frame)
    requires Uniform(events, n)
    ensures |x| == n
  {
    if events == [] then Zeros(n)
    else
      var front, e := events[..|events| - 1], events[|events| - 1];
      var x := LostPackets(l, front, n);
      if e.Lose? then Xor(x, Packet(Run(l, front), e.frame)) else x
  }

  /** On a stream of one frame size the mask is exactly the old mask xor all the packets lost. */
  lemma {:induction false} MaskConservation(l: Link, events: seq<Event>, n: nat)
    requires Uniform(events, n)
    ensures Mask(Run(l, events), n) == Xor(Mask(l, n), LostPackets(l, events, n))
  {
    if events == [] {
      XorZeros(Mask(l, n));
    } else {
      var front, e := events[..|events| - 1], events[|events| - 1];
      MaskConservation(l, front, n);
      var m := Run(l, front);
      if e.Lose? {
        LoseLaw(m, e.frame);
        XorAssociate(Mask(l, n), LostPackets(l, front, n), Packet(m, e.frame));
      } else {
        DeliverLaw(m, e.frame);
      }
    }
  }

  /** The encoder's reference after a nonempty stream is its last frame, delivered or not. */
  lemma EncoderFollows(l: Link, events: seq<Event>, n: nat)
    requires Uniform(events, n) && events != []
    ensures Run(l, events).enc == Some(events[|events| - 1].frame)
  {
  }

  lemma {:induction false} DecoderWaits(l: Link, events: seq<Event>)
    requires forall k :: 0 <= k < |events| ==> events[k].Lose?
    ensures Run(l, events).dec == l.dec
  {
    if events == [] {
    } else {
      DecoderWaits(l, events[..|events| - 1]);
    }
  }

  lemma {:induction false} NothingLost(l: Link, events: seq<Event>, n: nat)
    requires Uniform(events, n) && forall k :: 0 <= k < |events| ==> events[k].Deliver?
    ensures LostPackets(l, events, n) == Zeros(n)
  {
    if events == [] {
    } else {
      NothingLost(l, events[..|events| - 1], n);
    }
  }

  /**
   * A burst of losses heals by itself exactly when the last lost frame shows the picture from before the burst;
   * otherwise every later frame of that size arrives wrong, by the same amount, until something else intervenes.
   */
  lemma {:induction false} BurstLoss(before: Frame, burst: seq<Event>, after: seq<Event>, f: Frame)
    requires Uniform(burst, |before|) && burst != [] && forall k :: 0 <= k < |burst| ==> burst[k].Lose?
    requires Uniform(after, |before|) && forall k :: 0 <= k < |after| ==> after[k].Deliver?
    requires |f| == |before|
    ensures var l := Link(Some(before), Some(before));
            var last := burst[|burst| - 1].frame;
            && Received(Run(Run(l, burst), after), f) == Xor(f, Xor(last, before))
            && (Received(Run(Run(l, burst), after), f) == f <==> last == before)
  {
    var l, n := Link(Some(before), Some(before)), |before|;
    var last := burst[|burst| - 1].frame;
    EncoderFollows(l, burst, n);
    DecoderWaits(l, burst);
    var m := Run(l, burst);
    assert Mask(m, n) == Xor(last, before);
    MaskConservation(m, after, n);
    NothingLost(m, after, n);
    XorZeros(Mask(m, n));
    DeliverLaw(Run(m, after), f);
    ReceivedIffClean(Run(m, after), f);
    XorZeroIffEqual(last, before);
  }

  /** A link that goes wrong: one of three one-byte pictures is lost, and the third is shown with the wrong value. */
  lemma LossShows()
    ensures Received(Run(Link(Some([1]), Some([1])), [Lose([2])]), [3]) != [3]
  {
    var burst := [Lose([2])];
    BurstLoss([1], burst, [], [3]);
    assert Run(Run(Link(Some([1]), Some([1])), burst), []) == Run(Link(Some([1]), Some([1])), burst);
  }
}
