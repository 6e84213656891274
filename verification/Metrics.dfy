/** The counters of the server. */
module Metrics {
  import opened Bytes

  /** Frames and bytes in both directions. */
  datatype Throughput = Throughput(framesSent: u64, framesReceived: u64, bytesSent: u64, bytesReceived: u64)

  /** The values of the three connection counters. */
  datatype Counters = Counters(active: u64, total: u64, errors: u64)

  const ZERO: Counters := Counters(0, 0, 0)

  function FrameSent(t: Throughput, bytes: u64): Throughput {
    t.(framesSent := Wrap64(t.framesSent + 1), bytesSent := Wrap64(t.bytesSent + bytes))
  }

  function FrameReceived(t: Throughput, bytes: u64): Throughput {
    t.(framesReceived := Wrap64(t.framesReceived + 1), bytesReceived := Wrap64(t.bytesReceived + bytes))
  }

  /** The atomic steps of the counters; each wraps at 64 bits. */
  function ActiveUp(c: Counters): Counters {
    c.(active := Wrap64(c.active + 1))
  }

  function TotalUp(c: Counters): Counters {
    c.(total := Wrap64(c.total + 1))
  }

  function ActiveDown(c: Counters): Counters {
    c.(active := Wrap64(c.active + U64_SPAN - 1))
  }

  function ErrorsUp(c: Counters): Counters {
    c.(errors := Wrap64(c.errors + 1))
  }

  datatype Snapshot = Snapshot(uptimeSecs: u64, throughput: Throughput, counters: Counters)

  class AtomicU64 {
    var value: u64

    constructor ()
      ensures value == 0
    {
      value := 0;
    }

    method FetchAdd(n: u64) returns (before: u64)
      modifies this
      ensures before == old(value) && value == Wrap64(old(value) + n)
    {
      before, value := value, Wrap64(value + n);
    }

    method FetchSub(n: u64) returns (before: u64)
      modifies this
      ensures before == old(value) && value == Wrap64(old(value) + U64_SPAN - n)
    {
      before, value := value, Wrap64(value + U64_SPAN - n);
    }

    method Load() returns (n: u64)
      ensures n == value
    {
      n := value;
    }
  }

  class MetricsInner {
    const framesSent: AtomicU64
    const framesReceived: AtomicU64
    const bytesSent: AtomicU64
    const bytesReceived: AtomicU64
    const activeConnections: AtomicU64
    const totalConnections: AtomicU64
    const errors: AtomicU64

    /** No two counters are the same object. */
    ghost predicate Valid() {
      && framesSent !in {framesReceived, bytesSent, bytesReceived, activeConnections, totalConnections, errors}
      && framesReceived !in {bytesSent, bytesReceived, activeConnections, totalConnections, errors}
      && bytesSent !in {bytesReceived, activeConnections, totalConnections, errors}
      && bytesReceived !in {activeConnections, totalConnections, errors}
      && activeConnections !in {totalConnections, errors}
      && totalConnections != errors
    }

    ghost function View(): Counters
      reads activeConnections, totalConnections, errors
    {
      Counters(activeConnections.value, totalConnections.value, errors.value)
    }

    ghost function Frames(): Throughput
      reads framesSent, framesReceived, bytesSent, bytesReceived
    {
      Throughput(framesSent.value, framesReceived.value, bytesSent.value, bytesReceived.value)
    }

    constructor ()
      ensures Valid() && View() == ZERO && Frames() == Throughput(0, 0, 0, 0)
      ensures fresh({framesSent, framesReceived, bytesSent, bytesReceived, activeConnections, totalConnections, errors})
    {
      framesSent := new AtomicU64();
      framesReceived := new AtomicU64();
      bytesSent := new AtomicU64();
      bytesReceived := new AtomicU64();
      activeConnections := new AtomicU64();
      totalConnections := new AtomicU64();
      errors := new AtomicU64();
    }

    method RecordFrameSent(bytes: u64)
      requires Valid()
      modifies framesSent, bytesSent
      ensures Frames() == FrameSent(old(Frames()), bytes) && View() == old(View())
    {
      var _ := framesSent.FetchAdd(1);
      var _ := bytesSent.FetchAdd(bytes);
    }

    method RecordFrameReceived(bytes: u64)
      requires Valid()
      modifies framesReceived, bytesReceived
      ensures Frames() == FrameReceived(old(Frames()), bytes) && View() == old(View())
    {
      var _ := framesReceived.FetchAdd(1);
      var _ := bytesReceived.FetchAdd(bytes);
    }

    method ConnectionOpened()
      requires Valid()
      modifies activeConnections, totalConnections
      ensures View() == TotalUp(ActiveUp(old(View()))) && Frames() == old(Frames())
    {
      var _ := activeConnections.FetchAdd(1);
      var _ := totalConnections.FetchAdd(1);
    }

    method ConnectionClosed()
      requires Valid()
      modifies activeConnections
      ensures View() == ActiveDown(old(View())) && Frames() == old(Frames())
    {
      var _ := activeConnections.FetchSub(1);
    }

    method RecordError()
      requires Valid()
      modifies errors
      ensures View() == ErrorsUp(old(View())) && Frames() == old(Frames())
    {
      var _ := errors.FetchAdd(1);
    }

    /** The seven loads, undisturbed; the time since the start is a parameter. */
    method TakeSnapshot(uptimeSecs: u64) returns (s: Snapshot)
      requires Valid()
      ensures s == Snapshot(uptimeSecs, Frames(), View())
    {
      var sent := framesSent.Load();
      var received := framesReceived.Load();
      var sentBytes := bytesSent.Load();
      var receivedBytes := bytesReceived.Load();
      var active := activeConnections.Load();
      var total := totalConnections.Load();
      var errs := errors.Load();
      s := Snapshot(uptimeSecs, Throughput(sent, received, sentBytes, receivedBytes), Counters(active, total, errs));
    }
  }

  // ---------- the throughput of a run ----------

  /** One frame that went out or came in. */
  datatype Transfer = Transfer(sent: bool, bytes: u64)

  function Transferred(t: Throughput, x: Transfer): Throughput {
    if x.sent then FrameSent(t, x.bytes) else FrameReceived(t, x.bytes)
  }

  function AfterTransfers(run: seq<Transfer>): Throughput {
    if run == [] then Throughput(0, 0, 0, 0)
    else Transferred(AfterTransfers(run[..|run| - 1]), run[|run| - 1])
  }

  /** The frames of a run in one direction. */
  function FramesOf(run: seq<Transfer>, sent: bool): nat {
    if run == [] then 0 else (if run[0].sent == sent then 1 else 0) + FramesOf(run[1..], sent)
  }

  /** The bytes of a run in one direction. */
  function BytesOf(run: seq<Transfer>, sent: bool): nat {
    if run == [] then 0 else (if run[0].sent == sent then run[0].bytes else 0) + BytesOf(run[1..], sent)
  }

  lemma {:induction false} OneMoreTransfer(run: seq<Transfer>, x: Transfer, sent: bool)
    ensures FramesOf(run + [x], sent) == FramesOf(run, sent) + if x.sent == sent then 1 else 0
    ensures BytesOf(run + [x], sent) == BytesOf(run, sent) + if x.sent == sent then x.bytes else 0
  {
    if run == [] {
      assert run + [x] == [x] && [x][1..] == [];
    } else {
      OneMoreTransfer(run[1..], x, sent);
      assert (run + [x])[1..] == run[1..] + [x];
    }
  }

  lemma WrapsOnce(n: nat, more: nat)
    ensures Wrap64(n % U64_SPAN + more) == (n + more) % U64_SPAN
  {
  }

  predicate Sums(t: Throughput, run: seq<Transfer>) {
    && t.framesSent == FramesOf(run, true) % U64_SPAN
    && t.framesReceived == FramesOf(run, false) % U64_SPAN
    && t.bytesSent == BytesOf(run, true) % U64_SPAN
    && t.bytesReceived == BytesOf(run, false) % U64_SPAN
  }

  lemma TransferSums(t: Throughput, run: seq<Transfer>, x: Transfer)
    requires Sums(t, run)
    ensures Sums(Transferred(t, x), run + [x])
  {
    hide Wrap64, FramesOf, BytesOf;
    OneMoreTransfer(run, x, true);
    OneMoreTransfer(run, x, false);
    WrapsOnce(FramesOf(run, x.sent), 1);
    WrapsOnce(BytesOf(run, x.sent), x.bytes);
  }

  /** Main result: after any run each of the four counters is its own sum over the run, modulo 2^64. */
  lemma {:induction false} ThroughputOfRun(run: seq<Transfer>)
    ensures Sums(AfterTransfers(run), run)
  {
    if run == [] {
    } else {
      hide Transferred, Sums;
      var front, x := run[..|run| - 1], run[|run| - 1];
      assert run == front + [x];
      ThroughputOfRun(front);
      TransferSums(AfterTransfers(front), front, x);
    }
  }
}
