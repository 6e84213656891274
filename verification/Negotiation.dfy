/** The handshake that agrees on the displays of a session. */
module Negotiation {
  import opened Bytes
  import opened Displays

  datatype DisplayInfo = DisplayInfo(id: u32, name: string, resolution: Resolution, refreshHz: u32, isVirtual: bool)

  datatype SessionOffer = SessionOffer(
    hostName: string, displays: seq<DisplayInfo>, layout: seq<DisplayEntry>, maxFps: u32, supportsVirtual: bool)

  datatype NegotiateDisplay = NegotiateDisplay(displayId: Option<u32>, resolution: Resolution, refreshHz: u32)

  datatype State =
    | AwaitingOffer
    | OfferReceived(offer: SessionOffer)
    | DisplaysSelected(selections: seq<NegotiateDisplay>)
    | Accepted
    | Rejected(reason: string)

  datatype SessionError = UnexpectedOffer | NoOffer | NothingToAccept

  datatype Call =
    | Offer(offer: SessionOffer)
    | Select(selections: seq<NegotiateDisplay>)
    | Accept
    | Reject(reason: string)

  /** Which call moves the handshake on from a state; rejection always does. */
  predicate Succeeds(s: State, c: Call) {
    match c
    case Offer(_) => s.AwaitingOffer?
    case Select(_) => s.OfferReceived?
    case Accept => s.DisplaysSelected?
    case Reject(_) => true
  }

  function Next(s: State, c: Call): State {
    if !Succeeds(s, c) then s
    else
      match c
      case Offer(offer) => OfferReceived(offer)
      case Select(selections) => DisplaysSelected(selections)
      case Accept => Accepted
      case Reject(reason) => Rejected(reason)
  }

  class Negotiator {
    var state: State

    constructor ()
      ensures state == AwaitingOffer
    {
      state := AwaitingOffer;
    }

    method ReceiveOffer(offer: SessionOffer) returns (r: Result<(), SessionError>)
      modifies this
      ensures state == Next(old(state), Offer(offer))
      ensures r == if Succeeds(old(state), Offer(offer)) then Ok(()) else Err(UnexpectedOffer)
    {
      if state != AwaitingOffer {
        return Err(UnexpectedOffer);
      }
      state := OfferReceived(offer);
      return Ok(());
    }

    method SelectDisplays(selections: seq<NegotiateDisplay>) returns (r: Result<(), SessionError>)
      modifies this
      ensures state == Next(old(state), Select(selections))
      ensures r == if Succeeds(old(state), Select(selections)) then Ok(()) else Err(NoOffer)
    {
      match state
      case OfferReceived(_) =>
        state := DisplaysSelected(selections);
        return Ok(());
      case _ =>
        return Err(NoOffer);
    }

    method AcceptSelection() returns (r: Result<seq<NegotiateDisplay>, SessionError>)
      modifies this
      ensures state == Next(old(state), Accept)
      ensures r == if Succeeds(old(state), Accept) then Ok(old(state).selections) else Err(NothingToAccept)
    {
      var taken := state;
      state := Accepted;
      match taken
      case DisplaysSelected(selections) =>
        return Ok(selections);
      case other =>
        state := other;
        return Err(NothingToAccept);
    }

    method RejectSession(reason: string)
      modifies this
      ensures state == Next(old(state), Reject(reason))
    {
      state := Rejected(reason);
    }
  }

  // ---------- every sequence of calls ----------

  function Run(calls: seq<Call>): State {
    if calls == [] then AwaitingOffer else Next(Run(calls[..|calls| - 1]), calls[|calls| - 1])
  }

  /** The calls other than rejections that succeeded, in order. */
  function Progress(calls: seq<Call>): seq<Call> {
    if calls == [] then []
    else
      var front, c := calls[..|calls| - 1], calls[|calls| - 1];
      if !c.Reject? && Succeeds(Run(front), c) then Progress(front) + [c] else Progress(front)
  }

  predicate HasReject(calls: seq<Call>) {
    exists k :: 0 <= k < |calls| && calls[k].Reject?
  }

  /** What an accept call at the end of a run returns. */
  function AcceptedList(calls: seq<Call>): Option<seq<NegotiateDisplay>> {
    if Succeeds(Run(calls), Accept) then Some(Run(calls).selections) else None
  }

  /** The calls are an offer, a selection and an acceptance, or fewer of these. */
  predicate InOrder(p: seq<Call>) {
    && |p| <= 3
    && (|p| > 0 ==> p[0].Offer?)
    && (|p| > 1 ==> p[1].Select?)
    && (|p| > 2 ==> p[2].Accept?)
  }

  /** The state that the progress alone leads to. */
  function StateAfter(p: seq<Call>): State
    requires InOrder(p)
  {
    if |p| == 0 then AwaitingOffer
    else if |p| == 1 then OfferReceived(p[0].offer)
    else if |p| == 2 then DisplaysSelected(p[1].selections)
    else Accepted
  }

  /** One more call, seen from the progress so far. */
  lemma Advance(p: seq<Call>, c: Call)
    requires InOrder(p)
    ensures !c.Reject? && Succeeds(StateAfter(p), c) ==>
              InOrder(p + [c]) && Next(StateAfter(p), c) == StateAfter(p + [c])
    ensures !c.Reject? && !Succeeds(StateAfter(p), c) ==> Next(StateAfter(p), c) == StateAfter(p)
    ensures Succeeds(StateAfter(p), Accept) <==> |p| == 2
  {
  }

  lemma RejectSeen(front: seq<Call>, c: Call)
    ensures HasReject(front + [c]) <==> HasReject(front) || c.Reject?
  {
    var calls := front + [c];
    assert calls[|front|] == c;
    if HasReject(front) {
      var k :| 0 <= k < |front| && front[k].Reject?;
      assert calls[k] == front[k];
    }
  }

  lemma {:induction false} ProgressInOrder(calls: seq<Call>)
    ensures InOrder(Progress(calls))
    ensures if HasReject(calls) then Run(calls).Rejected? else Run(calls) == StateAfter(Progress(calls))
  {
    if calls == [] {
    } else {
      var front, c := calls[..|calls| - 1], calls[|calls| - 1];
      assert calls == front + [c];
      ProgressInOrder(front);
      RejectSeen(front, c);
      Advance(Progress(front), c);
      hide InOrder, StateAfter, HasReject;
    }
  }

  /** Call `k` is the last rejection. */
  predicate LastReject(calls: seq<Call>, k: nat) {
    && k < |calls| && calls[k].Reject?
    && forall j :: k < j < |calls| ==> !calls[j].Reject?
  }

  lemma {:induction false} LastReason(calls: seq<Call>)
    requires HasReject(calls)
    ensures exists k: nat :: LastReject(calls, k) && Run(calls) == Rejected(calls[k].reason)
  {
    var n := |calls| - 1;
    var front, c := calls[..n], calls[n];
    if c.Reject? {
      assert LastReject(calls, n);
    } else {
      assert calls == front + [c];
      RejectSeen(front, c);
      LastReason(front);
      var k: nat :| LastReject(front, k) && Run(front) == Rejected(front[k].reason);
      assert LastReject(calls, k);
    }
    hide Progress;
  }

  /**
   * Main result: in every sequence of calls the successful ones are, in this order and at most once each, an offer, a
   * selection and an acceptance; without a rejection they determine the state, and with one it is final, for the
   * reason last given; and an acceptance returns the list of the one selection.
   */
  lemma {:induction false} HandshakeInOrder(calls: seq<Call>)
    ensures var p := Progress(calls);
            && InOrder(p)
            && (if !HasReject(calls) then Run(calls) == StateAfter(p)
                else exists k: nat :: LastReject(calls, k) && Run(calls) == Rejected(calls[k].reason))
            && AcceptedList(calls) ==
               (if !HasReject(calls) && |p| == 2 then Some(p[1].selections) else None)
  {
    ProgressInOrder(calls);
    if HasReject(calls) {
      LastReason(calls);
    }
    hide Run, Progress, HasReject, LastReject;
  }

  /** Calls `i`, `j` and `k` are the first offer, the first selection after it and the first acceptance after that. */
  predicate Milestones(calls: seq<Call>, i: nat, j: nat, k: nat) {
    && (i < |calls| ==> calls[i].Offer?) && (forall m :: 0 <= m < i && m < |calls| ==> !calls[m].Offer?)
    && (j < |calls| ==> calls[j].Select?) && (forall m :: i < m < j && m < |calls| ==> !calls[m].Select?)
    && (k < |calls| ==> calls[k].Accept?) && (forall m :: j < m < k && m < |calls| ==> !calls[m].Accept?)
    && i < j < k
  }

  /**
   * Main result: without a rejection the state depends only on where the first offer comes, the first selection after
   * it and the first acceptance after that; nothing else has any effect. An index past the end stands for none.
   */
  lemma {:induction false} StateByCalls(calls: seq<Call>, i: nat, j: nat, k: nat)
    requires !HasReject(calls) && Milestones(calls, i, j, k)
    ensures Run(calls) ==
            if i >= |calls| then AwaitingOffer
            else if j >= |calls| then OfferReceived(calls[i].offer)
            else if k >= |calls| then DisplaysSelected(calls[j].selections)
            else Accepted
  {
    if calls == [] {
    } else {
      var n := |calls| - 1;
      var front, c := calls[..n], calls[n];
      assert calls == front + [c];
      RejectSeen(front, c);
      assert forall m :: 0 <= m < n ==> front[m] == calls[m];
      StateByCalls(front, i, j, k);
      hide HasReject;
    }
  }
}
