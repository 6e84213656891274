/** What the regulator keeps over every run, and how fast it may move. */
module BitrateControl {
  import opened Bytes
  import opened Bitrate

  predicate Sound(r: Regulator) {
    && 10 <= r.quality <= 100 && r.quality % 5 == 0
    && r.over < 3 && r.under < 5
    && (r.over == 0 || r.under == 0)
  }

  lemma OneDecision(c: Controller, e: Event)
    requires Sound(c.reg)
    ensures var r, r' := c.reg, Step(c, e).reg;
            && Sound(r')
            && 3 * (if r'.quality < r.quality then 1 else 0) + r'.over <= (if e.Record? then 1 else 0) + r.over
            && 5 * (if r'.quality > r.quality then 1 else 0) + r'.under <= (if e.Record? then 1 else 0) + r.under
            && (r'.quality == r.quality || r'.quality == r.quality - 5 || r'.quality == r.quality + 5)
  {
    match e
    case SetTarget(_) =>
    case Record(f) =>
      var v := Judge(c.target, Measured(Push(c.window, f)));
      assert Step(c, e).reg == Decide(c.reg, v);
  }

  /** Quality, counters and their exclusion survive every frame and every change of target. */
  lemma {:induction false} AlwaysSound(target: u64, events: seq<Event>)
    ensures Sound(Run(Fresh(target), events).reg)
  {
    if events == [] {
    } else {
      var front := events[..|events| - 1];
      AlwaysSound(target, front);
      OneDecision(Run(Fresh(target), front), events[|events| - 1]);
    }
  }

  /** Event `k` sets the target, and no later event does. */
  predicate LastTarget(events: seq<Event>, k: nat) {
    && k < |events| && events[k].SetTarget?
    && forall j :: k < j < |events| ==> !events[j].SetTarget?
  }

  lemma StepTarget(c: Controller, e: Event)
    ensures Step(c, e).target == match e case SetTarget(t) => t case Record(_) => c.target
  {
    hide Push, Measured, Judge, Decide;
  }

  /** The target is the one last set. */
  lemma {:induction false} TargetIsLatest(target: u64, events: seq<Event>, k: nat)
    requires LastTarget(events, k)
    ensures Run(Fresh(target), events).target == events[k].target
  {
    hide Step;
    var n := |events| - 1;
    StepTarget(Run(Fresh(target), events[..n]), events[n]);
    if k < n {
      assert forall j :: 0 <= j < n ==> events[..n][j] == events[j];
      TargetIsLatest(target, events[..n], k);
    }
  }

  /** Without one, it is the first. */
  lemma {:induction false} TargetStays(target: u64, events: seq<Event>)
    requires forall k :: 0 <= k < |events| ==> !events[k].SetTarget?
    ensures Run(Fresh(target), events).target == target
  {
    if events == [] {
    } else {
      hide Step;
      var n := |events| - 1;
      StepTarget(Run(Fresh(target), events[..n]), events[n]);
      TargetStays(target, events[..n]);
    }
  }

  // ---------- rate limit ----------

  function Frames(events: seq<Event>): nat {
    |Recorded(events)|
  }

  /** The number of events of a run that lowered the quality. */
  function Drops(c: Controller, events: seq<Event>): nat {
    if events == [] then 0
    else
      var front := events[..|events| - 1];
      Drops(c, front) + if Run(c, events).reg.quality < Run(c, front).reg.quality then 1 else 0
  }

  /** The number of events of a run that raised the quality. */
  function Rises(c: Controller, events: seq<Event>): nat {
    if events == [] then 0
    else
      var front := events[..|events| - 1];
      Rises(c, front) + if Run(c, events).reg.quality > Run(c, front).reg.quality then 1 else 0
  }

  lemma {:induction false} RateLimitCounting(c: Controller, events: seq<Event>)
    requires Sound(c.reg)
    ensures var r := Run(c, events).reg;
            && Sound(r)
            && 3 * Drops(c, events) + r.over <= Frames(events) + c.reg.over
            && 5 * Rises(c, events) + r.under <= Frames(events) + c.reg.under
  {
    if events == [] {
    } else {
      var front, e := events[..|events| - 1], events[|events| - 1];
      hide Step;
      RateLimitCounting(c, front);
      OneDecision(Run(c, front), e);
    }
  }

  /** Any stretch of any run lowers the quality at most once in three frames and raises it at most once in five. */
  lemma {:induction false} RateLimit(target: u64, before: seq<Event>, stretch: seq<Event>)
    ensures var c := Run(Fresh(target), before);
            && 3 * Drops(c, stretch) <= Frames(stretch) + c.reg.over
            && 5 * Rises(c, stretch) <= Frames(stretch) + c.reg.under
            && c.reg.over <= 2 && c.reg.under <= 4
  {
    hide Step;
    AlwaysSound(target, before);
    RateLimitCounting(Run(Fresh(target), before), stretch);
  }

  /** Quality only moves by whole steps, so a stretch moves it by no more than its frames allow. */
  lemma {:induction false} QualityIsStepCount(c: Controller, events: seq<Event>)
    requires Sound(c.reg)
    ensures Run(c, events).reg.quality == c.reg.quality + 5 * Rises(c, events) - 5 * Drops(c, events)
  {
    if events == [] {
    } else {
      var front, e := events[..|events| - 1], events[|events| - 1];
      hide Step;
      QualityIsStepCount(c, front);
      RateLimitCounting(c, front);
      OneDecision(Run(c, front), e);
    }
  }

  // ---------- debouncing ----------

  function VerdictOn(c: Controller, f: Sample): Verdict {
    Judge(c.target, Measured(Push(c.window, f)))
  }

  /** The verdicts that a run passes on its frames, in order. */
  function Verdicts(c: Controller, events: seq<Event>): seq<Verdict> {
    if events == [] then []
    else
      var front, e := events[..|events| - 1], events[|events| - 1];
      if e.Record? then Verdicts(c, front) + [VerdictOn(Run(c, front), e.sample)] else Verdicts(c, front)
  }

  /** How many verdicts at the end are all `v`. */
  function Streak(vs: seq<Verdict>, v: Verdict): nat {
    if vs == [] || vs[|vs| - 1] != v then 0 else Streak(vs[..|vs| - 1], v) + 1
  }

  /** The quality that verdicts lead to: down after every third `Over` of a streak, up after every fifth `Under`. */
  function QualityAfter(vs: seq<Verdict>): int {
    if vs == [] then 80
    else
      var before := QualityAfter(vs[..|vs| - 1]);
      if vs[|vs| - 1] == Over && Streak(vs, Over) % 3 == 0 then Max(before - 5, 10)
      else if vs[|vs| - 1] == Under && Streak(vs, Under) % 5 == 0 then Min(before + 5, 100)
      else before
  }

  predicate Follows(r: Regulator, vs: seq<Verdict>) {
    r.over == Streak(vs, Over) % 3 && r.under == Streak(vs, Under) % 5 && r.quality == QualityAfter(vs)
  }

  lemma EveryThird(n: nat)
    ensures (n + 1) % 3 == if n % 3 == 2 then 0 else n % 3 + 1
  {
  }

  lemma EveryFifth(n: nat)
    ensures (n + 1) % 5 == if n % 5 == 4 then 0 else n % 5 + 1
  {
  }

  lemma OneVerdict(r: Regulator, vs: seq<Verdict>, v: Verdict)
    requires Sound(r) && Follows(r, vs)
    ensures Follows(Decide(r, v), vs + [v])
  {
    assert (vs + [v])[..|vs|] == vs;
    EveryThird(Streak(vs, v));
    EveryFifth(Streak(vs, v));
  }

  /** Main result: after any run the counters are the current streaks and the quality is what the streaks call for. */
  lemma {:induction false} RegulatorFollowsStreaks(target: u64, events: seq<Event>)
    ensures Follows(Run(Fresh(target), events).reg, Verdicts(Fresh(target), events))
  {
    if events == [] {
    } else {
      var front, e := events[..|events| - 1], events[|events| - 1];
      var c := Run(Fresh(target), front);
      RegulatorFollowsStreaks(target, front);
      AlwaysSound(target, front);
      if e.Record? {
        OneVerdict(c.reg, Verdicts(Fresh(target), front), VerdictOn(c, e.sample));
      }
      hide Follows, Sound, Push, Measured, Judge, Decide;
    }
  }

  // ---------- skip advice ----------

  /** The measured rate is over budget. */
  predicate OverBudget(c: Controller) {
    Judge(c.target, Measured(c.window)) == Over
  }

  /** Two frames a millisecond apart that are measured at most eight kilobits below the target. */
  function JustWithin(target: u64): (events: seq<Event>)
    ensures |events| == 2
  {
    [Record(Sample(0, 0)), Record(Sample(1, target / 8000))]
  }

  lemma RunTwo(c: Controller, d: Event, e: Event)
    ensures Run(c, [d, e]) == Step(Step(c, d), e)
  {
    hide Step;
    assert [d, e][..1] == [d];
    assert Run(c, [d]) == Step(c, d) by {
      assert [d][..0] == [];
    }
  }

  lemma NothingEvicted(w: seq<Sample>, f: Sample)
    requires (w + [f])[0].timestamp >= Cutoff(f.timestamp)
    ensures Push(w, f) == w + [f]
  {
  }

  /** Two frames of a fresh controller that are close enough are both in the window. */
  lemma TwoFrameWindow(target: u64, a: Sample, b: Sample)
    requires Cutoff(b.timestamp) <= a.timestamp
    ensures var c := Run(Fresh(target), [Record(a), Record(b)]); c.target == target && c.window == [a, b]
  {
    hide Push, Measured, Judge, Decide;
    RunTwo(Fresh(target), Record(a), Record(b));
    NothingEvicted([], a);
    assert [] + [a] == [a];
    NothingEvicted([a], b);
  }

  lemma MeasuredJustWithin(target: u64)
    ensures Measured([Sample(0, 0), Sample(1, target / 8000)]) == target - target % 8000
  {
    var w := [Sample(0, 0), Sample(1, target / 8000)];
    assert w[..1] == [Sample(0, 0)] && w[..1][..0] == [];
    assert Sum(w[..1]) == 0;
    assert Sum(w) == target / 8000;
    assert MilliBits(target / 8000) == target - target % 8000;
  }

  /** Once three times the target wraps, the skip threshold is at least eight kilobits below the target. */
  lemma WrappedThreshold(target: u64)
    requires target * 3 >= U64_SPAN
    ensures SkipThreshold(target) < target - 8000
  {
    if target * 3 < 2 * U64_SPAN {
      assert Wrap64(target * 3) == target * 3 - U64_SPAN;
    } else {
      assert Wrap64(target * 3) == target * 3 - 2 * U64_SPAN;
    }
  }

  /**
   * Main result: over all runs from a fresh controller, every advice to skip means over budget exactly when three
   * times the target fits 64 bits; beyond that two small frames suffice for wrong advice.
   */
  lemma SkipMeansOver(target: u64)
    ensures (forall events :: var c := Run(Fresh(target), events);
               c.target == target && Skips(c) ==> OverBudget(c)) <==> target * 3 < U64_SPAN
  {
    hide Run, Measured;
    if target * 3 < U64_SPAN {
      assert SkipThreshold(target) >= target;
    } else {
      WrappedThreshold(target);
      TwoFrameWindow(target, Sample(0, 0), Sample(1, target / 8000));
      MeasuredJustWithin(target);
      var c := Run(Fresh(target), JustWithin(target));
      assert Skips(c) && !OverBudget(c);
    }
  }
}
