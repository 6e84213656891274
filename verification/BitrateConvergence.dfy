/** The closed loop: bounds on frame sizes and gaps force the quality to its floor or ceiling. */
module BitrateConvergence {
  import opened Arithmetic
  import opened Bytes
  import opened Bitrate
  import opened BitrateWindow
  import opened BitrateControl

  /** Every stretch of at most two seconds of frames measures without overflow. */
  predicate Fits(frames: seq<Sample>) {
    forall i, j :: 0 <= i < j <= |frames| && frames[j - 1].timestamp - frames[i].timestamp <= WINDOW_MS
      ==> Sum(frames[i..j]) * 8000 < U64_SPAN
  }

  /** Frames of at least `size` bytes that follow each other within `gap` milliseconds. */
  predicate Heavy(frames: seq<Sample>, gap: nat, size: nat) {
    && (forall i :: 0 <= i < |frames| ==> frames[i].size >= size)
    && (forall i :: 0 < i < |frames| ==>
          frames[i - 1].timestamp <= frames[i].timestamp <= frames[i - 1].timestamp + gap)
  }

  /** Frames of at most `size` bytes that keep a distance of at least `gap` milliseconds. */
  predicate Light(frames: seq<Sample>, gap: nat, size: nat) {
    && (forall i :: 0 <= i < |frames| ==> frames[i].size <= size)
    && (forall i :: 0 < i < |frames| ==> frames[i - 1].timestamp + gap <= frames[i].timestamp)
  }

  function Records(frames: seq<Sample>): (events: seq<Event>)
    ensures |events| == |frames|
  {
    seq(|frames|, i requires 0 <= i < |frames| => Record(frames[i]))
  }

  /** Nothing in the window is recent enough to survive a frame at `now`. */
  predicate AgedOut(w: seq<Sample>, now: u64) {
    forall i :: 0 <= i < |w| ==> w[i].timestamp < Cutoff(now)
  }

  // ---------- bounds on one window ----------

  lemma {:induction false} HeavyBounds(w: seq<Sample>, gap: nat, size: nat)
    requires w != [] && Heavy(w, gap, size)
    ensures Sum(w) >= |w| * size
    ensures 0 <= w[|w| - 1].timestamp - w[0].timestamp <= (|w| - 1) * gap
  {
    var n := |w| - 1;
    assert w[n].size >= size;
    if n > 0 {
      assert w[n - 1].timestamp <= w[n].timestamp <= w[n - 1].timestamp + gap;
      HeavyBounds(w[..n], gap, size);
      NextMultiple(n, size);
      NextMultiple(n - 1, gap);
    } else {
      assert Sum(w[..n]) == 0;
    }
  }

  lemma {:induction false} LightBounds(w: seq<Sample>, gap: nat, size: nat)
    requires w != [] && Light(w, gap, size)
    ensures Sum(w) <= |w| * size
    ensures w[|w| - 1].timestamp - w[0].timestamp >= (|w| - 1) * gap
  {
    var n := |w| - 1;
    assert w[n].size <= size;
    if n > 0 {
      assert w[n - 1].timestamp + gap <= w[n].timestamp;
      LightBounds(w[..n], gap, size);
      NextMultiple(n, size);
      NextMultiple(n - 1, gap);
    } else {
      assert Sum(w[..n]) == 0;
    }
  }

  lemma FitsUnwrapped(n: nat)
    requires n < U64_SPAN
    ensures Wrap64(n) == n
  {
  }

  /** The three wrapping operations give the true product exactly when that fits 64 bits. */
  lemma MilliBitsExactly(bytes: nat)
    ensures MilliBits(bytes) == bytes * 8000 <==> bytes * 8000 < U64_SPAN
  {
    hide Wrap64;
    if bytes * 8000 < U64_SPAN {
      FitsUnwrapped(bytes);
      FitsUnwrapped(bytes * 8);
      FitsUnwrapped(bytes * 8 * 1000);
    }
  }

  lemma QuotientAbove(total: nat, d: nat, bound: nat)
    requires d > 0 && total >= bound * d
    ensures total / d >= bound
  {
    var q := total / d;
    assert total < (q + 1) * d;
    assert bound * d < (q + 1) * d;
  }

  lemma QuotientBelow(total: nat, d: nat, most: nat, e: nat)
    requires d > 0 && e > 0 && total * e <= most * d
    ensures total / d <= most / e
  {
    var q := total / d;
    assert (q * d) * e <= total * e by {
      assert q * d <= total;
    }
    assert (q * e) * d == (q * d) * e;
    assert q * e <= most;
    QuotientAbove(most, e, q);
  }

  lemma Exchange(a: nat, b: nat, c: nat)
    ensures a * (b * c) == b * (a * c)
  {
    assert a * (b * c) == (a * b) * c;
    assert b * (a * c) == (b * a) * c;
  }

  /** `n` frames of `p` milli-bits each, over at most `n` gaps, exceed the rate. */
  lemma EnoughBits(n: nat, p: nat, rate: nat, gap: nat, d: nat)
    requires p >= rate * gap && d <= n * gap
    ensures n * p >= rate * d
  {
    MulOrder(rate * gap, p, n);
    Exchange(n, rate, gap);
    MulOrder(d, n * gap, rate);
  }

  lemma BitsOfBytes(n: nat, bytes: nat, size: nat)
    requires bytes >= n * size
    ensures bytes * 8000 >= n * (size * 8000)
  {
  }

  lemma GapsCover(n: nat, gap: nat, d: nat)
    requires n >= 2 && gap >= 1 && (d == 1 || d <= (n - 1) * gap)
    ensures d <= n * gap
  {
    MulOrder(1, gap, n);
    assert n * gap == (n - 1) * gap + gap;
  }

  lemma HeavyQuotient(n: nat, bytes: nat, d: nat, target: nat, gap: nat, size: nat)
    requires n >= 2 && gap >= 1 && size * 8000 >= (target + 1) * gap
    requires bytes >= n * size && 1 <= d && (d == 1 || d <= (n - 1) * gap)
    ensures bytes * 8000 / d > target
  {
    var milliBits, rate := bytes * 8000, target + 1;
    GapsCover(n, gap, d);
    EnoughBits(n, size * 8000, rate, gap, d);
    BitsOfBytes(n, bytes, size);
    assert milliBits >= rate * d;
    QuotientAbove(milliBits, d, rate);
  }

  lemma Regroup(m: nat, p: nat, gap: nat)
    ensures gap * ((2 * m) * p) == (2 * p) * (m * gap)
  {
    Exchange(gap, m, p);
    Exchange(p, m, gap);
    assert (2 * m) * p == 2 * (m * p);
  }

  /** `n` frames of `p` milli-bits each, over at least `n - 1` gaps, stay below twice one frame per gap. */
  lemma FewBits(n: nat, total: nat, p: nat, gap: nat, d: nat)
    requires n >= 2 && total <= n * p && d >= (n - 1) * gap
    ensures total * gap <= (2 * p) * d
  {
    MulOrder(n, 2 * (n - 1), p);
    MulOrder(total, (2 * (n - 1)) * p, gap);
    Regroup(n - 1, p, gap);
    MulOrder((n - 1) * gap, d, 2 * p);
  }

  lemma LightQuotient(n: nat, bytes: nat, d: nat, gap: nat, size: nat)
    requires n >= 2 && gap >= 1
    requires bytes <= n * size && d >= (n - 1) * gap && d >= 1
    ensures bytes * 8000 / d <= 2 * size * 8000 / gap
  {
    var total, p := bytes * 8000, size * 8000;
    assert total <= n * p by {
      MulOrder(bytes, n * size, 8000);
      assert n * p == 8000 * (n * size);
    }
    FewBits(n, total, p, gap, d);
    QuotientBelow(total, d, 2 * p, gap);
  }

  lemma {:induction false} HeavyIsOver(w: seq<Sample>, target: u64, gap: nat, size: nat)
    requires |w| >= 2 && Heavy(w, gap, size) && Sum(w) * 8000 < U64_SPAN
    requires gap >= 1 && size * 8000 >= (target + 1) * gap
    ensures Judge(target, Measured(w)) == Over
  {
    HeavyBounds(w, gap, size);
    MilliBitsExactly(Sum(w));
    HeavyQuotient(|w|, Sum(w), Duration(w), target, gap, size);
  }

  lemma JudgedUnder(target: u64, measured: nat)
    requires target * 3 < U64_SPAN && measured < target * 3 / 4
    ensures Judge(target, measured) == Under
  {
  }

  lemma {:induction false} LightIsUnder(w: seq<Sample>, target: u64, gap: nat, size: nat)
    requires w != [] && Light(w, gap, size) && Sum(w) * 8000 < U64_SPAN
    requires gap >= 1 && 2 * size * 8000 / gap < target * 3 / 4 && target * 3 < U64_SPAN
    ensures Judge(target, Measured(w)) == Under
  {
    if |w| >= 2 {
      LightBounds(w, gap, size);
      MilliBitsExactly(Sum(w));
      LightQuotient(|w|, Sum(w), Duration(w), gap, size);
    }
    JudgedUnder(target, Measured(w));
  }

  // ---------- the closed loop ----------

  function Play(c: Controller, frames: seq<Sample>): Controller {
    Run(c, Records(frames))
  }

  lemma PlayLast(c: Controller, frames: seq<Sample>)
    requires frames != []
    ensures Play(c, frames) == Step(Play(c, frames[..|frames| - 1]), Record(frames[|frames| - 1]))
  {
    assert Records(frames)[..|frames| - 1] == Records(frames[..|frames| - 1]);
  }

  lemma PlayWindow(c: Controller, frames: seq<Sample>)
    requires frames != []
    ensures Play(c, frames).window == Push(Play(c, frames[..|frames| - 1]).window, frames[|frames| - 1])
  {
    hide Push, Measured, Decide, Judge;
    PlayLast(c, frames);
  }

  lemma PlayNothing(c: Controller)
    ensures Play(c, []) == c
  {
  }

  lemma {:induction false} EvictAgedOut(w: seq<Sample>, f: Sample)
    requires AgedOut(w, f.timestamp)
    ensures Push(w, f) == [f]
  {
    if w == [] {
    } else {
      EvictAgedOut(w[1..], f);
      assert (w + [f])[1..] == w[1..] + [f];
    }
  }

  /** After a run that starts with nothing recent, the window holds frames of that run only. */
  lemma {:induction false} WindowOfPlay(c: Controller, frames: seq<Sample>)
    requires frames != [] && AgedOut(c.window, frames[0].timestamp)
    ensures RecentSuffix(Play(c, frames).window, frames)
  {
    hide Play, Push;
    var front, f := frames[..|frames| - 1], frames[|frames| - 1];
    PlayWindow(c, frames);
    if front == [] {
      PlayNothing(c);
      EvictAgedOut(c.window, f);
    } else {
      WindowOfPlay(c, front);
      PushSuffix(Play(c, front).window, front, f);
      assert frames == front + [f];
    }
  }

  lemma {:induction false} EvictKeepsTwo(w: seq<Sample>, cutoff: nat)
    requires |w| >= 2 && w[|w| - 2].timestamp >= cutoff && w[|w| - 1].timestamp >= cutoff
    ensures |Evict(w, cutoff)| >= 2
  {
    if w[0].timestamp < cutoff {
      EvictKeepsTwo(w[1..], cutoff);
    }
  }

  /** Close frames always leave at least two of them to measure. */
  lemma TwoInWindow(c: Controller, frames: seq<Sample>)
    requires |frames| >= 2 && AgedOut(c.window, frames[0].timestamp)
    requires frames[|frames| - 2].timestamp >= Cutoff(frames[|frames| - 1].timestamp)
    ensures |Play(c, frames).window| >= 2
  {
    var front, f := frames[..|frames| - 1], frames[|frames| - 1];
    PlayLast(c, frames);
    WindowOfPlay(c, front);
    EvictKeepsTwo(Play(c, front).window + [f], Cutoff(f.timestamp));
  }

  /** The window after a run of ordered frames is one of the stretches that `Fits` speaks about. */
  lemma WindowFits(w: seq<Sample>, frames: seq<Sample>)
    requires frames != [] && RecentSuffix(w, frames) && Fits(frames)
    ensures Sum(w) * 8000 < U64_SPAN
  {
    assert w == frames[|frames| - |w|..|frames|];
  }

  lemma {:induction false} TargetOfPlay(c: Controller, frames: seq<Sample>)
    ensures Play(c, frames).target == c.target
  {
    if frames == [] {
    } else {
      PlayLast(c, frames);
      TargetOfPlay(c, frames[..|frames| - 1]);
    }
  }

  /** The verdict on the newest frame of a run. */
  function LastVerdict(c: Controller, frames: seq<Sample>): Verdict {
    Judge(c.target, Measured(Play(c, frames).window))
  }

  lemma RegOfPlay(c: Controller, frames: seq<Sample>)
    requires frames != []
    ensures Play(c, frames).reg == Decide(Play(c, frames[..|frames| - 1]).reg, LastVerdict(c, frames))
  {
    PlayLast(c, frames);
    TargetOfPlay(c, frames[..|frames| - 1]);
  }

  lemma OverloadedFrame(c: Controller, frames: seq<Sample>, gap: nat, size: nat)
    requires |frames| >= 2 && AgedOut(c.window, frames[0].timestamp) && Heavy(frames, gap, size) && Fits(frames)
    requires 1 <= gap <= WINDOW_MS && size * 8000 >= (c.target + 1) * gap
    ensures LastVerdict(c, frames) == Over
  {
    hide Play, Measured, Judge;
    WindowOfPlay(c, frames);
    TwoInWindow(c, frames);
    var w := Play(c, frames).window;
    WindowFits(w, frames);
    HeavyIsOver(w, c.target, gap, size);
  }

  lemma UnderloadedFrame(c: Controller, frames: seq<Sample>, gap: nat, size: nat)
    requires frames != [] && AgedOut(c.window, frames[0].timestamp) && Light(frames, gap, size) && Fits(frames)
    requires gap >= 1 && 2 * size * 8000 / gap < c.target * 3 / 4 && c.target * 3 < U64_SPAN
    ensures LastVerdict(c, frames) == Under
  {
    WindowOfPlay(c, frames);
    var w := Play(c, frames).window;
    WindowFits(w, frames);
    LightIsUnder(w, c.target, gap, size);
  }

  /** The first frame after a pause is measured alone, hence as zero. */
  lemma FirstFrame(c: Controller, f: Sample)
    requires AgedOut(c.window, f.timestamp)
    ensures Play(c, [f]).reg == Decide(c.reg, Judge(c.target, 0))
    ensures Judge(c.target, 0) != Over
  {
    PlayLast(c, [f]);
    assert [f][..0] == [];
    EvictAgedOut(c.window, f);
  }

  lemma LoadPrefix(frames: seq<Sample>, n: nat, gap: nat, size: nat)
    requires n <= |frames| && Fits(frames)
    ensures Fits(frames[..n])
    ensures Heavy(frames, gap, size) ==> Heavy(frames[..n], gap, size)
    ensures Light(frames, gap, size) ==> Light(frames[..n], gap, size)
  {
    var front := frames[..n];
    forall i, j | 0 <= i < j <= |front| && front[j - 1].timestamp - front[i].timestamp <= WINDOW_MS
      ensures Sum(front[i..j]) * 8000 < U64_SPAN
    {
      assert front[i..j] == frames[i..j];
    }
  }

  /** Division and remainder by three, one further. */
  lemma NextDrop(n: nat)
    ensures n % 3 + 1 >= 3 ==> (n + 1) / 3 == n / 3 + 1 && (n + 1) % 3 == 0
    ensures n % 3 + 1 < 3 ==> (n + 1) / 3 == n / 3 && (n + 1) % 3 == n % 3 + 1
  {
  }

  /** Division and remainder by five, one further. */
  lemma NextRise(n: nat)
    ensures n % 5 + 1 >= 5 ==> (n + 1) / 5 == n / 5 + 1 && (n + 1) % 5 == 0
    ensures n % 5 + 1 < 5 ==> (n + 1) / 5 == n / 5 && (n + 1) % 5 == n % 5 + 1
  {
  }

  /** Every verdict after the first `m` frames is `v`. */
  predicate AllAfter(c: Controller, frames: seq<Sample>, m: nat, v: Verdict) {
    forall n :: m < n <= |frames| ==> LastVerdict(c, frames[..n]) == v
  }

  lemma AllAfterFront(c: Controller, frames: seq<Sample>, m: nat, v: Verdict)
    requires m < |frames| && AllAfter(c, frames, m, v)
    ensures AllAfter(c, frames[..|frames| - 1], m, v)
    ensures LastVerdict(c, frames) == v
  {
    hide LastVerdict;
    var front := frames[..|frames| - 1];
    assert frames[..|frames|] == frames;
    forall n | m < n <= |front| ensures LastVerdict(c, front[..n]) == v {
      assert front[..n] == frames[..n];
    }
  }

  /** What a streak of frames over budget does to the regulator. */
  predicate Lowered(r: Regulator, was: Regulator, frames: nat) {
    var n := was.over + frames;
    r.quality == Max(10, was.quality - 5 * (n / 3)) && r.over == n % 3 && (frames > 0 ==> r.under == 0)
  }

  /** What a streak of frames under budget does to the regulator. */
  predicate Raised(r: Regulator, was: Regulator, frames: nat) {
    var n := was.under + frames;
    r.quality == Min(100, was.quality + 5 * (n / 5)) && r.under == n % 5 && (frames > 0 ==> r.over == 0)
  }

  lemma {:induction false} OverStreak(c: Controller, frames: seq<Sample>, m: nat)
    requires m <= |frames| && Sound(Play(c, frames[..m]).reg) && AllAfter(c, frames, m, Over)
    ensures Lowered(Play(c, frames).reg, Play(c, frames[..m]).reg, |frames| - m)
  {
    hide Play, LastVerdict, AllAfter;
    if m == |frames| {
      assert frames[..m] == frames;
    } else {
      var front := frames[..|frames| - 1];
      assert front[..m] == frames[..m];
      AllAfterFront(c, frames, m, Over);
      OverStreak(c, front, m);
      RegOfPlay(c, frames);
      NextDrop(Play(c, frames[..m]).reg.over + |front| - m);
    }
  }

  lemma {:induction false} UnderStreak(c: Controller, frames: seq<Sample>, m: nat)
    requires m <= |frames| && Sound(Play(c, frames[..m]).reg) && AllAfter(c, frames, m, Under)
    ensures Raised(Play(c, frames).reg, Play(c, frames[..m]).reg, |frames| - m)
  {
    hide Play, LastVerdict, AllAfter;
    if m == |frames| {
      assert frames[..m] == frames;
    } else {
      var front := frames[..|frames| - 1];
      assert front[..m] == frames[..m];
      AllAfterFront(c, frames, m, Under);
      UnderStreak(c, front, m);
      RegOfPlay(c, frames);
      NextRise(Play(c, frames[..m]).reg.under + |front| - m);
    }
  }

  // ---------- after a pause ----------

  /**
   * Main result, going down: from any sound controller whose window has aged out, frames that are large and close
   * enough drive the quality down by one step per three frames after the first, to the floor and no further.
   */
  lemma {:induction false} SustainedOverload(c: Controller, frames: seq<Sample>, gap: nat, size: nat)
    requires frames != [] && Sound(c.reg) && AgedOut(c.window, frames[0].timestamp)
    requires Heavy(frames, gap, size) && Fits(frames)
    requires 1 <= gap <= WINDOW_MS && size * 8000 >= (c.target + 1) * gap
    ensures var first, r, n := Decide(c.reg, Judge(c.target, 0)), Play(c, frames).reg, |frames| - 1;
            && r.quality == Max(10, first.quality - 5 * (n / 3))
            && r.over == n % 3
            && (n > 0 ==> r.under == 0)
  {
    FirstFrame(c, frames[0]);
    assert frames[..1] == [frames[0]];
    assert Sound(Play(c, frames[..1]).reg);
    hide Play, LastVerdict, Light, Heavy, Fits, Judge, AgedOut;
    forall n | 1 < n <= |frames| ensures LastVerdict(c, frames[..n]) == Over {
      LoadPrefix(frames, n, gap, size);
      OverloadedFrame(c, frames[..n], gap, size);
    }
    OverStreak(c, frames, 1);
  }

  /**
   * Main result, going up: frames that are small and far enough apart raise the quality by one step per five frames,
   * to the ceiling and no further.
   */
  lemma {:induction false} SustainedUnderload(c: Controller, frames: seq<Sample>, gap: nat, size: nat)
    requires frames != [] && Sound(c.reg) && AgedOut(c.window, frames[0].timestamp)
    requires Light(frames, gap, size) && Fits(frames)
    requires gap >= 1 && 2 * size * 8000 / gap < c.target * 3 / 4 && c.target * 3 < U64_SPAN
    ensures var r, n := Play(c, frames).reg, |frames| + c.reg.under;
            && r.quality == Min(100, c.reg.quality + 5 * (n / 5))
            && r.under == n % 5 && r.over == 0
  {
    PlayNothing(c);
    assert frames[..0] == [];
    hide Play, LastVerdict, Light, Heavy, Fits, Judge, AgedOut;
    forall n | 0 < n <= |frames| ensures LastVerdict(c, frames[..n]) == Under {
      LoadPrefix(frames, n, gap, size);
      UnderloadedFrame(c, frames[..n], gap, size);
    }
    UnderStreak(c, frames, 0);
  }

  lemma FreshFirst(target: u64)
    ensures Sound(Fresh(target).reg)
    ensures Decide(Fresh(target).reg, Judge(target, 0)).quality == 80
  {
  }

  /** From a fresh controller: the exact descent, and the floor from the 43rd frame on. */
  lemma FloorReached(target: u64, frames: seq<Sample>, gap: nat, size: nat)
    requires frames != [] && Heavy(frames, gap, size) && Fits(frames)
    requires 1 <= gap <= WINDOW_MS && size * 8000 >= (target + 1) * gap
    ensures Play(Fresh(target), frames).reg.quality == Max(10, 80 - 5 * ((|frames| - 1) / 3))
    ensures Play(Fresh(target), frames).reg.quality == 10 <==> |frames| >= 43
  {
    FreshFirst(target);
    hide Play, Heavy, Fits, Judge, Decide;
    SustainedOverload(Fresh(target), frames, gap, size);
  }

  /** From a fresh controller: the exact climb, and the ceiling from the 20th frame on. */
  lemma CeilingReached(target: u64, frames: seq<Sample>, gap: nat, size: nat)
    requires frames != [] && Light(frames, gap, size) && Fits(frames)
    requires gap >= 1 && 2 * size * 8000 / gap < target * 3 / 4 && target * 3 < U64_SPAN
    ensures Play(Fresh(target), frames).reg.quality == Min(100, 80 + 5 * (|frames| / 5))
    ensures Play(Fresh(target), frames).reg.quality == 100 <==> |frames| >= 20
  {
    hide Play, Light, Fits, Judge, Decide;
    SustainedUnderload(Fresh(target), frames, gap, size);
  }

  // ---------- in mid-stream ----------

  lemma {:induction false} RunSplit(c: Controller, a: seq<Event>, b: seq<Event>)
    ensures Run(c, a + b) == Run(Run(c, a), b)
  {
    if b == [] {
      assert a + b == a;
    } else {
      hide Step;
      RunSplit(c, a, b[..|b| - 1]);
      assert (a + b)[..|a + b| - 1] == a + b[..|b| - 1];
    }
  }

  lemma {:induction false} RecordedSplit(before: seq<Event>, frames: seq<Sample>)
    ensures Recorded(before + Records(frames)) == Recorded(before) + frames
  {
    var all := before + Records(frames);
    if frames == [] {
      assert all == before;
    } else {
      var front := frames[..|frames| - 1];
      RecordedSplit(before, front);
      assert all[..|all| - 1] == before + Records(front);
    }
  }

  /** Whatever was recorded before, the window is a recent suffix of all that. */
  lemma WindowInHistory(target: u64, before: seq<Event>, frames: seq<Sample>)
    ensures RecentSuffix(Play(Run(Fresh(target), before), frames).window, Recorded(before) + frames)
  {
    RunSplit(Fresh(target), before, Records(frames));
    RecordedSplit(before, frames);
    SuffixOfHistory(target, before + Records(frames));
    hide Run, Recorded, Records;
  }

  lemma OlderFirst(h: seq<Sample>, frames: seq<Sample>, i: nat)
    requires frames != [] && i < |h| && Nondecreasing(h + frames)
    ensures h[i].timestamp <= frames[0].timestamp
  {
    var upTo := (h + frames)[..|h| + 1];
    OrderedEnds(upTo, i);
    assert upTo[i] == h[i] && upTo[|h|] == frames[0];
  }

  /** Once a run of frames spans more than two seconds, a recent suffix holds nothing older. */
  lemma OldGone(w: seq<Sample>, h: seq<Sample>, frames: seq<Sample>)
    requires frames != [] && Nondecreasing(h + frames) && RecentSuffix(w, h + frames)
    requires frames[|frames| - 1].timestamp - frames[0].timestamp > WINDOW_MS
    ensures RecentSuffix(w, frames)
  {
    if |w| > |frames| {
      OlderFirst(h, frames, |h| + |frames| - |w|);
    }
  }

  lemma TwoInHistory(target: u64, before: seq<Event>, frames: seq<Sample>)
    requires |frames| >= 2 && frames[|frames| - 2].timestamp >= Cutoff(frames[|frames| - 1].timestamp)
    ensures |Play(Run(Fresh(target), before), frames).window| >= 2
  {
    var c, front, f := Run(Fresh(target), before), frames[..|frames| - 1], frames[|frames| - 1];
    hide Run, Play, Measured, Decide, Judge;
    PlayWindow(c, frames);
    WindowInHistory(target, before, front);
    EvictKeepsTwo(Play(c, front).window + [f], Cutoff(f.timestamp));
  }

  lemma HeavyEnd(w: seq<Sample>, frames: seq<Sample>, gap: nat, size: nat)
    requires frames != [] && RecentSuffix(w, frames) && Heavy(frames, gap, size)
    ensures Heavy(w, gap, size)
  {
    var d := |frames| - |w|;
    assert forall i :: 0 <= i < |w| ==> w[i] == frames[d + i];
  }

  lemma LateOverload(target: u64, before: seq<Event>, frames: seq<Sample>, gap: nat, size: nat)
    requires frames != [] && Nondecreasing(Recorded(before) + frames) && Heavy(frames, gap, size) && Fits(frames)
    requires frames[|frames| - 1].timestamp - frames[0].timestamp > WINDOW_MS
    requires 1 <= gap <= WINDOW_MS && size * 8000 >= (Run(Fresh(target), before).target + 1) * gap
    ensures LastVerdict(Run(Fresh(target), before), frames) == Over
  {
    hide Run, Play, Measured, Judge, Recorded, Nondecreasing, RecentSuffix, Fits;
    var c := Run(Fresh(target), before);
    WindowInHistory(target, before, frames);
    var w := Play(c, frames).window;
    OldGone(w, Recorded(before), frames);
    TwoInHistory(target, before, frames);
    WindowFits(w, frames);
    HeavyEnd(w, frames, gap, size);
    HeavyIsOver(w, c.target, gap, size);
  }

  lemma LateUnderload(target: u64, before: seq<Event>, frames: seq<Sample>, gap: nat, size: nat)
    requires frames != [] && Nondecreasing(Recorded(before) + frames) && Light(frames, gap, size) && Fits(frames)
    requires frames[|frames| - 1].timestamp - frames[0].timestamp > WINDOW_MS
    requires var t := Run(Fresh(target), before).target;
             gap >= 1 && 2 * size * 8000 / gap < t * 3 / 4 && t * 3 < U64_SPAN
    ensures LastVerdict(Run(Fresh(target), before), frames) == Under
  {
    hide Run, Play, Measured, Judge, Recorded;
    var c := Run(Fresh(target), before);
    WindowInHistory(target, before, frames);
    var w := Play(c, frames).window;
    OldGone(w, Recorded(before), frames);
    WindowFits(w, frames);
    LightIsUnder(w, c.target, gap, size);
  }

  /** Frame `m` of a run of frames comes more than two seconds after its first one. */
  predicate TwoSecondsIn(frames: seq<Sample>, m: nat) {
    m < |frames| && frames[m].timestamp - frames[0].timestamp > WINDOW_MS
  }

  lemma TwoSecondsLater(h: seq<Sample>, frames: seq<Sample>, m: nat, n: nat)
    requires TwoSecondsIn(frames, m) && m < n <= |frames| && Nondecreasing(h + frames)
    ensures Nondecreasing(h + frames[..n])
    ensures frames[..n][n - 1].timestamp - frames[..n][0].timestamp > WINDOW_MS
  {
    var all, part := h + frames, h + frames[..n];
    assert forall i :: 0 <= i < |part| ==> part[i] == all[i];
    OrderedEnds(part, |h| + m);
  }

  lemma SoundAfter(target: u64, before: seq<Event>, frames: seq<Sample>)
    ensures Sound(Play(Run(Fresh(target), before), frames).reg)
  {
    hide Step, Sound;
    RunSplit(Fresh(target), before, Records(frames));
    AlwaysSound(target, before + Records(frames));
  }

  /**
   * Main result, load that rises in mid-stream: whatever happened before on an ordered clock, once large close frames
   * span more than two seconds every verdict is over budget, the quality falls by one step per three frames from where
   * it was, and it is at the floor from an exact number of further frames on.
   */
  lemma {:induction false} OverloadTakesOver(target: u64, before: seq<Event>, frames: seq<Sample>, m: nat, gap: nat,
                                             size: nat)
    requires Nondecreasing(Recorded(before) + frames) && TwoSecondsIn(frames, m)
    requires Heavy(frames, gap, size) && Fits(frames)
    requires 1 <= gap <= WINDOW_MS && size * 8000 >= (Run(Fresh(target), before).target + 1) * gap
    ensures var c := Run(Fresh(target), before);
            var was, r, further := Play(c, frames[..m]).reg, Play(c, frames).reg, |frames| - m;
            && AllAfter(c, frames, m, Over)
            && Lowered(r, was, further)
            && (r.quality == 10 <==> was.over + further >= 3 * ((was.quality - 10) / 5))
  {
    var c := Run(Fresh(target), before);
    hide Run, Play, LastVerdict, Light, Heavy, Fits, Recorded, Nondecreasing;
    forall n | m < n <= |frames| ensures LastVerdict(c, frames[..n]) == Over {
      LoadPrefix(frames, n, gap, size);
      TwoSecondsLater(Recorded(before), frames, m, n);
      LateOverload(target, before, frames[..n], gap, size);
    }
    SoundAfter(target, before, frames[..m]);
    OverStreak(c, frames, m);
  }

  /** Main result, load that falls in mid-stream: the same upwards, by one step per five frames. */
  lemma {:induction false} UnderloadTakesOver(target: u64, before: seq<Event>, frames: seq<Sample>, m: nat, gap: nat,
                                              size: nat)
    requires Nondecreasing(Recorded(before) + frames) && TwoSecondsIn(frames, m)
    requires Light(frames, gap, size) && Fits(frames)
    requires var t := Run(Fresh(target), before).target;
             gap >= 1 && 2 * size * 8000 / gap < t * 3 / 4 && t * 3 < U64_SPAN
    ensures var c := Run(Fresh(target), before);
            var was, r, further := Play(c, frames[..m]).reg, Play(c, frames).reg, |frames| - m;
            && AllAfter(c, frames, m, Under)
            && Raised(r, was, further)
            && (r.quality == 100 <==> was.under + further >= 5 * ((100 - was.quality) / 5))
  {
    var c := Run(Fresh(target), before);
    hide Run, Play, LastVerdict, Light, Heavy, Fits, Recorded, Nondecreasing;
    forall n | m < n <= |frames| ensures LastVerdict(c, frames[..n]) == Under {
      LoadPrefix(frames, n, gap, size);
      TwoSecondsLater(Recorded(before), frames, m, n);
      LateUnderload(target, before, frames[..n], gap, size);
    }
    SoundAfter(target, before, frames[..m]);
    UnderStreak(c, frames, m);
  }
}
