/** The adaptive bitrate controller: a sliding window of frame sizes feeding a debounced quality regulator. */
module Bitrate {
  import opened Bytes

  const WINDOW_MS: u64 := 2000

  datatype Sample = Sample(timestamp: u64, size: u64)

  /** Quality and the two debounce counters. */
  datatype Regulator = Regulator(quality: nat, over: nat, under: nat)

  datatype Controller = Controller(target: u64, reg: Regulator, window: seq<Sample>)

  datatype Event = Record(sample: Sample) | SetTarget(target: u64)

  function Fresh(target: u64): Controller {
    Controller(target, Regulator(80, 0, 0), [])
  }

  function Cutoff(now: u64): nat {
    SaturatingSub(now, WINDOW_MS)
  }

  /** Drops samples from the front until the front is recent enough. */
  function Evict(w: seq<Sample>, cutoff: nat): (r: seq<Sample>)
    ensures |r| <= |w| && r == w[|w| - |r|..]
    ensures r != [] ==> r[0].timestamp >= cutoff
  {
    if w != [] && w[0].timestamp < cutoff then Evict(w[1..], cutoff) else w
  }

  function Push(w: seq<Sample>, f: Sample): seq<Sample> {
    Evict(w + [f], Cutoff(f.timestamp))
  }

  function Sum(w: seq<Sample>): nat {
    if w == [] then 0 else Sum(w[..|w| - 1]) + w[|w| - 1].size
  }

  /** Milliseconds between the first and the last sample, at least one. */
  function Duration(w: seq<Sample>): (d: nat)
    requires w != []
    ensures d >= 1
  {
    var span := SaturatingSub(w[|w| - 1].timestamp, w[0].timestamp);
    if span < 1 then 1 else span
  }

  /** `bytes * 8 * 1000`, where the sum of the bytes and both products wrap at 64 bits. */
  function MilliBits(bytes: nat): u64 {
    Wrap64(Wrap64(Wrap64(bytes) * 8) * 1000)
  }

  /** Bits per second over the window. */
  function Measured(w: seq<Sample>): u64 {
    if |w| < 2 then 0 else MilliBits(Sum(w)) / Duration(w)
  }

  function UnderThreshold(target: u64): nat {
    Wrap64(target * 3) / 4
  }

  function SkipThreshold(target: u64): nat {
    Wrap64(target * 3) / 2
  }

  /** A frame should be skipped to stay in budget. */
  predicate Skips(c: Controller) {
    Measured(c.window) > SkipThreshold(c.target)
  }

  datatype Verdict = Over | Under | Within

  function Judge(target: u64, measured: nat): Verdict {
    if measured > target then Over
    else if measured < UnderThreshold(target) then Under
    else Within
  }

  function Max(a: int, b: int): int { if a < b then b else a }

  function Min(a: int, b: int): int { if a < b then a else b }

  /** One debounced quality decision. */
  function Decide(r: Regulator, v: Verdict): Regulator {
    match v
    case Over =>
      if r.over + 1 >= 3 then Regulator(Max(SaturatingSub(r.quality, 5), 10), 0, 0)
      else Regulator(r.quality, r.over + 1, 0)
    case Under =>
      if r.under + 1 >= 5 then Regulator(Min(r.quality + 5, 100), 0, 0)
      else Regulator(r.quality, 0, r.under + 1)
    case Within => Regulator(r.quality, 0, 0)
  }

  function Step(c: Controller, e: Event): Controller {
    match e
    case SetTarget(t) => c.(target := t)
    case Record(f) =>
      var w := Push(c.window, f);
      Controller(c.target, Decide(c.reg, Judge(c.target, Measured(w))), w)
  }

  function Run(c: Controller, events: seq<Event>): Controller {
    if events == [] then c else Step(Run(c, events[..|events| - 1]), events[|events| - 1])
  }

  /** The samples that a run records, in order. */
  function Recorded(events: seq<Event>): seq<Sample> {
    if events == [] then []
    else
      var before := Recorded(events[..|events| - 1]);
      match events[|events| - 1]
      case Record(f) => before + [f]
      case SetTarget(_) => before
  }

  // ---------- the object ----------

  class BitrateController {
    var targetBps: u64
    var quality: nat
    var window: seq<Sample>
    const windowMs: u64 := WINDOW_MS
    var overBudgetCount: nat
    var underBudgetCount: nat

    ghost function View(): Controller
      reads this
    {
      Controller(targetBps, Regulator(quality, overBudgetCount, underBudgetCount), window)
    }

    constructor (target: u64)
      ensures View() == Fresh(target)
    {
      targetBps, quality, window := target, 80, [];
      overBudgetCount, underBudgetCount := 0, 0;
    }

    method RecordFrame(timestampMs: u64, sizeBytes: u64)
      modifies this
      ensures View() == Step(old(View()), Record(Sample(timestampMs, sizeBytes)))
    {
      window := window + [Sample(timestampMs, sizeBytes)];
      var cutoff := SaturatingSub(timestampMs, windowMs);
      while |window| > 0 && window[0].timestamp < cutoff
        invariant Evict(window, cutoff) == Push(old(window), Sample(timestampMs, sizeBytes))
        invariant unchanged(this`targetBps, this`quality, this`overBudgetCount, this`underBudgetCount)
        decreases |window|
      {
        window := window[1..];
      }
      AdjustQuality();
    }

    function MeasuredBps(): (bps: u64)
      reads this
      ensures bps == Measured(window)
    {
      if |window| < 2 then 0
      else
        var durationMs := Max(SaturatingSub(window[|window| - 1].timestamp, window[0].timestamp), 1);
        MilliBits(Sum(window)) / durationMs
    }

    method SetTargetBps(target: u64)
      modifies this
      ensures View() == Step(old(View()), SetTarget(target))
      ensures targetBps == target && window == old(window) && quality == old(quality)
      ensures overBudgetCount == old(overBudgetCount) && underBudgetCount == old(underBudgetCount)
    {
      targetBps := target;
    }

    predicate ShouldSkipFrame()
      reads this
      ensures ShouldSkipFrame() <==> Skips(View())
      ensures targetBps * 3 < U64_SPAN ==> (ShouldSkipFrame() <==> 2 * MeasuredBps() > 3 * targetBps)
    {
      MeasuredBps() > Wrap64(targetBps * 3) / 2
    }

    method AdjustQuality()
      modifies this
      ensures View() ==
              old(View()).(reg := Decide(old(View()).reg, Judge(targetBps, Measured(old(window)))))
      ensures targetBps * 3 < U64_SPAN && MeasuredBps() <= targetBps && 4 * (MeasuredBps() + 1) > 3 * targetBps ==>
                quality == old(quality) && overBudgetCount == 0 && underBudgetCount == 0
    {
      var measured := MeasuredBps();
      if measured > targetBps {
        overBudgetCount, underBudgetCount := overBudgetCount + 1, 0;
        if overBudgetCount >= 3 {
          quality, overBudgetCount := Max(SaturatingSub(quality, 5), 10), 0;
        }
      } else if measured < Wrap64(targetBps * 3) / 4 {
        underBudgetCount, overBudgetCount := underBudgetCount + 1, 0;
        if underBudgetCount >= 5 {
          quality, underBudgetCount := Min(quality + 5, 100), 0;
        }
      } else {
        overBudgetCount, underBudgetCount := 0, 0;
      }
    }
  }
}
