/** The shutdown broadcast: a watch channel, its controllers and its signals. */
module Shutdown {

  /**
   * What the watch channel of the async runtime keeps. A send with no live receiver stores nothing; a receiver counts
   * a value as new when its version differs from the one the receiver has seen; the channel closes with its last
   * controller.
   */
  datatype Channel = Channel(value: bool, version: nat, receivers: nat, controllers: nat)

  const OPENED: Channel := Channel(false, 0, 1, 1)

  function Triggered(c: Channel): Channel {
    if c.receivers == 0 then c else c.(value := true, version := c.version + 1)
  }

  /** Where a `wait` call is: about to read the value, about to await a change, or returned. */
  datatype Phase = Checking | Awaiting | Returned

  datatype Waiter = Waiter(seen: nat, phase: Phase)

  predicate Blocked(c: Channel, w: Waiter) {
    w.phase == Awaiting && w.seen == c.version && c.controllers > 0
  }

  /** One atomic step of `wait`; a blocked waiter stays where it is. */
  function WaitStep(c: Channel, w: Waiter): Waiter {
    match w.phase
    case Checking => w.(phase := if c.value then Returned else Awaiting)
    case Awaiting =>
      if w.seen != c.version then Waiter(c.version, Checking)
      else if c.controllers == 0 then w.(phase := Returned)
      else w
    case Returned => w
  }

  /** Four steps are enough for a waiter that nobody disturbs to return or to block. */
  function Settled(c: Channel, w: Waiter): Waiter {
    WaitStep(c, WaitStep(c, WaitStep(c, WaitStep(c, w))))
  }

  // ---------- uses of the channel ----------

  datatype Op = Trigger | Subscribe | CloneSignal | DropSignal | CloneController | DropController

  /** Only a live controller can trigger or subscribe; only what is alive can be cloned or dropped. */
  function Apply(c: Channel, op: Op): Channel {
    match op
    case Trigger => if c.controllers > 0 then Triggered(c) else c
    case Subscribe => if c.controllers > 0 then c.(receivers := c.receivers + 1) else c
    case CloneSignal => if c.receivers > 0 then c.(receivers := c.receivers + 1) else c
    case DropSignal => if c.receivers > 0 then c.(receivers := c.receivers - 1) else c
    case CloneController => if c.controllers > 0 then c.(controllers := c.controllers + 1) else c
    case DropController => if c.controllers > 0 then c.(controllers := c.controllers - 1) else c
  }

  // ---------- the objects ----------

  class Watch {
    var value: bool
    var version: nat
    var receivers: nat
    var controllers: nat

    ghost function View(): Channel
      reads this
    {
      Channel(value, version, receivers, controllers)
    }

    constructor ()
      ensures View() == OPENED
    {
      value, version, receivers, controllers := false, 0, 1, 1;
    }

    method Send(v: bool) returns (delivered: bool)
      modifies this
      ensures delivered <==> old(receivers) > 0
      ensures View() ==
              if delivered then old(View()).(value := v, version := old(version) + 1) else old(View())
    {
      if receivers == 0 {
        return false;
      }
      value, version := v, version + 1;
      return true;
    }
  }

  class ShutdownSignal {
    const rx: Watch
    var seen: nat

    constructor (rx: Watch, seen: nat)
      ensures this.rx == rx && this.seen == seen
    {
      this.rx, this.seen := rx, seen;
    }

    /** The copy has seen what the original has seen, however old. */
    method Clone() returns (copy: ShutdownSignal)
      modifies rx
      ensures fresh(copy) && copy.rx == rx && copy.seen == seen
      ensures rx.View() == old(rx.View()).(receivers := old(rx.receivers) + 1)
      ensures old(rx.receivers) > 0 ==> rx.View() == Apply(old(rx.View()), CloneSignal)
    {
      rx.receivers := rx.receivers + 1;
      copy := new ShutdownSignal(rx, seen);
    }

    predicate IsShutdown()
      reads this, rx
    {
      rx.value
    }

    /** One undisturbed poll of `wait`: takes its steps until it returns or blocks. */
    method PollWait() returns (ready: bool)
      modifies this
      ensures ready <==> rx.value || rx.controllers == 0
      ensures !ready ==> Blocked(rx.View(), Waiter(seen, Awaiting))
      ensures Waiter(seen, if ready then Returned else Awaiting) ==
              Settled(rx.View(), Waiter(old(seen), Checking))
    {
      while !rx.value
        invariant Settled(rx.View(), Waiter(seen, Checking)) == Settled(rx.View(), Waiter(old(seen), Checking))
        decreases if seen == rx.version then 0 else 1
      {
        if seen != rx.version {
          seen := rx.version;
        } else {
          return rx.controllers == 0;
        }
      }
      return true;
    }
  }

  class ShutdownController {
    const tx: Watch

    constructor (tx: Watch)
      ensures this.tx == tx
    {
      this.tx := tx;
    }

    static method New() returns (controller: ShutdownController, signal: ShutdownSignal)
      ensures fresh(controller.tx) && signal.rx == controller.tx
      ensures controller.tx.View() == OPENED
      ensures signal.seen == 0
    {
      var tx := new Watch();
      controller := new ShutdownController(tx);
      signal := new ShutdownSignal(tx, 0);
    }

    method Trigger()
      modifies tx
      ensures tx.View() == Triggered(old(tx.View()))
      ensures old(tx.controllers) > 0 ==> tx.View() == Apply(old(tx.View()), Op.Trigger)
    {
      var _ := tx.Send(true);
    }

    method Signal() returns (signal: ShutdownSignal)
      modifies tx
      ensures fresh(signal) && signal.rx == tx && signal.seen == tx.version
      ensures tx.View() == old(tx.View()).(receivers := old(tx.receivers) + 1)
      ensures old(tx.controllers) > 0 ==> tx.View() == Apply(old(tx.View()), Subscribe)
    {
      tx.receivers := tx.receivers + 1;
      signal := new ShutdownSignal(tx, tx.version);
    }
  }

  // ---------- runs of the channel ----------

  function RunOps(ops: seq<Op>): Channel {
    if ops == [] then OPENED else Apply(RunOps(ops[..|ops| - 1]), ops[|ops| - 1])
  }

  function Number(ops: seq<Op>, op: Op): int {
    if ops == [] then 0 else Number(ops[..|ops| - 1], op) + if ops[|ops| - 1] == op then 1 else 0
  }

  /** The signals alive after a run: the first one, those made since, less those dropped. */
  function Signals(ops: seq<Op>): int {
    1 + Number(ops, Subscribe) + Number(ops, CloneSignal) - Number(ops, DropSignal)
  }

  /** The controllers alive after a run. */
  function Controllers(ops: seq<Op>): int {
    1 + Number(ops, CloneController) - Number(ops, DropController)
  }

  /** A handle that the operation needs is alive. */
  predicate HandleFor(before: seq<Op>, op: Op) {
    if op == CloneSignal || op == DropSignal then Signals(before) > 0 else Controllers(before) > 0
  }

  /** Every operation is done with a handle that is alive. */
  predicate Owned(ops: seq<Op>) {
    forall k :: 0 <= k < |ops| ==> HandleFor(ops[..k], ops[k])
  }

  lemma OwnedFront(ops: seq<Op>)
    requires Owned(ops) && ops != []
    ensures Owned(ops[..|ops| - 1]) && HandleFor(ops[..|ops| - 1], ops[|ops| - 1])
  {
    hide HandleFor;
    var front := ops[..|ops| - 1];
    forall k | 0 <= k < |front| ensures HandleFor(front[..k], front[k]) {
      assert front[..k] == ops[..k];
    }
  }

  /** Main result: when every operation is done with a live handle, the channel counts exactly the live handles. */
  lemma {:induction false} HandlesCounted(ops: seq<Op>)
    requires Owned(ops)
    ensures RunOps(ops).receivers == Signals(ops) && RunOps(ops).controllers == Controllers(ops)
  {
    if ops == [] {
    } else {
      OwnedFront(ops);
      hide Owned;
      HandlesCounted(ops[..|ops| - 1]);
    }
  }

  /** Operation `k` was a trigger that some signal was there to hear. */
  predicate Heard(ops: seq<Op>, k: nat) {
    k < |ops| && ops[k] == Trigger && RunOps(ops[..k]).controllers > 0 && RunOps(ops[..k]).receivers > 0
  }

  /** Main result: shutdown is visible, to old and to new signals alike, exactly when some trigger had a listener. */
  lemma {:induction false} ShutdownIffHeard(ops: seq<Op>)
    ensures RunOps(ops).value <==> exists k: nat :: Heard(ops, k)
  {
    if ops == [] {
    } else {
      var n := |ops| - 1;
      var front := ops[..n];
      ShutdownIffHeard(front);
      forall k: nat | k < n ensures Heard(ops, k) <==> Heard(front, k) {
        assert ops[..k] == front[..k];
      }
      if RunOps(front).value {
        var k: nat :| Heard(front, k);
        assert Heard(ops, k);
      }
      assert Heard(ops, n) <==> ops[n] == Trigger && RunOps(front).controllers > 0 && RunOps(front).receivers > 0;
    }
  }

  lemma OwnedPrefix(ops: seq<Op>, k: nat)
    requires Owned(ops) && k <= |ops|
    ensures Owned(ops[..k])
  {
    hide HandleFor;
    forall j | 0 <= j < k ensures HandleFor(ops[..k][..j], ops[..k][j]) {
      assert ops[..k][..j] == ops[..j];
    }
  }

  /** With live handles: exactly when some trigger came while a signal was alive. */
  lemma ShutdownByHandles(ops: seq<Op>)
    requires Owned(ops)
    ensures RunOps(ops).value <==> exists k: nat :: k < |ops| && ops[k] == Trigger && Signals(ops[..k]) > 0
  {
    ShutdownIffHeard(ops);
    forall k: nat | k < |ops|
      ensures Heard(ops, k) <==> ops[k] == Trigger && Signals(ops[..k]) > 0
    {
      OwnedPrefix(ops, k);
      HandlesCounted(ops[..k]);
      assert HandleFor(ops[..k], ops[k]);
      hide RunOps, Signals, Controllers, Owned;
    }
    hide Owned, RunOps, Signals;
  }

  /** A trigger after the only signal is gone is lost: a signal made afterwards sees nothing. */
  lemma TriggerLost()
    ensures !RunOps([DropSignal, Trigger, Subscribe]).value
  {
    forall k: nat ensures !Heard([DropSignal, Trigger, Subscribe], k) {
      if k == 1 {
        assert [DropSignal, Trigger, Subscribe][..1] == [DropSignal];
        assert [DropSignal][..0] == [];
      }
    }
    ShutdownIffHeard([DropSignal, Trigger, Subscribe]);
  }

  // ---------- one waiter among concurrent operations ----------

  /** A use of the channel, a poll of the waiter, or a `wait` that is dropped and called anew. */
  datatype Event = Use(op: Op) | Poll | Restart

  /** A waiter and its channel, interleaved in any order. */
  datatype Watched = Watched(channel: Channel, waiter: Waiter)

  function Step(s: Watched, e: Event): Watched {
    match e
    case Use(op) => s.(channel := Apply(s.channel, op))
    case Poll => s.(waiter := WaitStep(s.channel, s.waiter))
    case Restart => s.(waiter := s.waiter.(phase := Checking))
  }

  function Run(s: Watched, events: seq<Event>): Watched {
    if events == [] then s else Step(Run(s, events[..|events| - 1]), events[|events| - 1])
  }

  /** A waiter that awaits a change it has already seen has not been passed by a shutdown. */
  predicate Alert(c: Channel, w: Waiter) {
    && w.seen <= c.version
    && (w.phase == Awaiting && w.seen == c.version ==> !c.value)
  }

  /** Steps a waiter still needs once shutdown is visible. */
  function Rank(w: Waiter): nat {
    match w.phase
    case Returned => 0
    case Checking => 1
    case Awaiting => 2
  }

  lemma AlertStep(s: Watched, e: Event)
    requires Alert(s.channel, s.waiter)
    ensures Alert(Step(s, e).channel, Step(s, e).waiter)
    ensures s.channel.value ==> Step(s, e).channel.value
    ensures s.channel.value && e == Poll && s.waiter.phase != Returned ==>
              Rank(Step(s, e).waiter) < Rank(s.waiter)
    ensures e.Use? ==> Step(s, e).waiter == s.waiter
    ensures e == Restart ==> Rank(Step(s, e).waiter) == 1
  {
  }

  /** The polls since `wait` was last called. */
  function Polls(events: seq<Event>): nat {
    if events == [] || events[|events| - 1] == Restart then 0
    else Polls(events[..|events| - 1]) + if events[|events| - 1] == Poll then 1 else 0
  }

  lemma {:induction false} RunAlert(s: Watched, events: seq<Event>)
    requires Alert(s.channel, s.waiter)
    ensures Alert(Run(s, events).channel, Run(s, events).waiter)
    ensures s.channel.value ==> Run(s, events).channel.value
    ensures var w := Run(s, events).waiter;
            s.channel.value ==> w.phase == Returned || Rank(w) + Polls(events) <= 2
  {
    if events == [] {
    } else {
      RunAlert(s, events[..|events| - 1]);
      AlertStep(Run(s, events[..|events| - 1]), events[|events| - 1]);
    }
  }

  /**
   * Main result: no wakeup is lost. However the channel is used before and after, a signal that has seen any version,
   * as a subscriber or as a clone of an older signal, is never blocked in `wait` while shutdown is visible, and its
   * `wait`, called anew any number of times, returns within two of its own steps.
   */
  lemma NoLostWakeup(c: Channel, seen: nat, before: seq<Event>, after: seq<Event>)
    requires seen <= c.version
    ensures var s := Run(Watched(c, Waiter(seen, Checking)), before);
            && (s.channel.value ==> !Blocked(s.channel, s.waiter))
            && (s.channel.value && Polls(after) >= 2 ==> Run(s, after).waiter.phase == Returned)
  {
    var s := Run(Watched(c, Waiter(seen, Checking)), before);
    RunAlert(Watched(c, Waiter(seen, Checking)), before);
    RunAlert(s, after);
  }

  /** Nor is there a false alarm: `wait` has returned only if shutdown is visible or every controller is gone. */
  lemma {:induction false} NoFalseAlarm(c: Channel, seen: nat, events: seq<Event>)
    ensures var s := Run(Watched(c, Waiter(seen, Checking)), events);
            s.waiter.phase == Returned ==> s.channel.value || s.channel.controllers == 0
  {
    if events == [] {
    } else {
      NoFalseAlarm(c, seen, events[..|events| - 1]);
    }
  }
}
