/** The closed loop in balance: frames that keep the rate between three quarters of the target and the target. */
module BitrateBand {
  import opened Arithmetic
  import opened Bytes
  import opened Bitrate
  import opened BitrateWindow
  import opened BitrateControl
  import opened BitrateConvergence
  import opened BitrateRate

  /** Frames of `small` to `large` bytes that follow each other after `narrow` to `wide` milliseconds. */
  predicate Steady(frames: seq<Sample>, narrow: nat, wide: nat, small: nat, large: nat) {
    Heavy(frames, wide, small) && Light(frames, narrow, large)
  }

  /**
   * Any `k` gaps and the frames at both ends of them stay at or below the target, and one frame per gap stays at or
   * above three quarters of it; `k` gaps fit into two seconds.
   */
  predicate InBand(target: u64, narrow: nat, wide: nat, small: nat, large: nat, k: nat) {
    && k >= 1 && narrow >= 1 && k * wide <= 2000
    && (k + 1) * (large * 8000) <= k * (target * narrow)
    && 3 * (target * wide) <= 4 * (small * 8000)
  }

  /** Thirty frames of 3800 bytes a second, about 0.92 megabits, are in the band of one megabit. */
  lemma BandExample()
    ensures InBand(1_000_000, 33, 33, 3800, 3800, 20)
  {
  }

  // ---------- one window ----------

  lemma StrictOrder(a: nat, b: nat, k: nat)
    requires a < b && k >= 1
    ensures a * k < b * k
  {
    assert b * k == a * k + (b - a) * k;
  }

  lemma CancelFactor(a: nat, b: nat, k: nat)
    requires k >= 1 && a * k <= b * k
    ensures a <= b
  {
    if b < a {
      StrictOrder(b, a, k);
    }
  }

  /** One frame more than gaps costs least when the gaps are many. */
  lemma FenceCount(gaps: nat, k: nat)
    requires gaps >= k
    ensures (gaps + 1) * k <= (k + 1) * gaps
  {
  }

  lemma FencePosts(gaps: nat, bits: nat, p: nat, k: nat)
    requires gaps >= k && bits <= (gaps + 1) * p
    ensures bits * k <= gaps * ((k + 1) * p)
  {
    MulOrder(bits, (gaps + 1) * p, k);
    FenceCount(gaps, k);
    MulOrder((gaps + 1) * k, (k + 1) * gaps, p);
    assert ((gaps + 1) * p) * k == ((gaps + 1) * k) * p;
    assert ((k + 1) * gaps) * p == gaps * ((k + 1) * p);
  }

  lemma GapsAtRate(gaps: nat, rate: nat, gap: nat, d: nat, k: nat)
    requires d >= gaps * gap
    ensures gaps * (k * (rate * gap)) <= (rate * d) * k
  {
    Exchange(gaps, k, rate * gap);
    Exchange(gaps, rate, gap);
    MulOrder(gaps * gap, d, rate);
    MulOrder(rate * (gaps * gap), rate * d, k);
  }

  /** `gaps + 1` frames of at most `p` milli-bits, over at least `gaps` gaps. */
  lemma AtMostRate(gaps: nat, bits: nat, p: nat, rate: nat, gap: nat, d: nat, k: nat)
    requires gaps >= k >= 1 && bits <= (gaps + 1) * p && d >= gaps * gap
    requires (k + 1) * p <= k * (rate * gap)
    ensures bits <= rate * d
  {
    FencePosts(gaps, bits, p, k);
    MulOrder((k + 1) * p, k * (rate * gap), gaps);
    GapsAtRate(gaps, rate, gap, d, k);
    CancelFactor(bits, rate * d, k);
  }

  /** `n` frames of at least `p` milli-bits, over at most `n` gaps. */
  lemma AtLeastThreeQuarters(n: nat, bits: nat, p: nat, rate: nat, gap: nat, d: nat)
    requires bits >= n * p && d <= n * gap && 3 * (rate * gap) <= 4 * p
    ensures bits >= (3 * rate / 4) * d
  {
    EnoughBits(n, 4 * p, 3 * rate, gap, d);
    assert n * (4 * p) == 4 * (n * p);
    var quarters := 3 * rate / 4;
    MulOrder(4 * quarters, 3 * rate, d);
    assert (4 * quarters) * d == 4 * (quarters * d);
  }

  lemma BitsAtMost(n: nat, bytes: nat, size: nat)
    requires bytes <= n * size
    ensures bytes * 8000 <= n * (size * 8000)
  {
  }

  lemma BandBits(n: nat, bytes: nat, d: nat, target: u64, narrow: nat, wide: nat, small: nat, large: nat, k: nat)
    requires n > k && d >= 1 && InBand(target, narrow, wide, small, large, k)
    requires n * small <= bytes <= n * large && (n - 1) * narrow <= d <= (n - 1) * wide
    ensures (3 * target / 4) * d <= bytes * 8000 < (target + 1) * d
  {
    BitsOfBytes(n, bytes, small);
    BitsAtMost(n, bytes, large);
    AtMostRate(n - 1, bytes * 8000, large * 8000, target, narrow, d, k);
    NextMultiple(n - 1, wide);
    AtLeastThreeQuarters(n, bytes * 8000, small * 8000, target, wide, d);
    NextMultiple(target, d);
  }

  lemma PositiveSpan(w: seq<Sample>)
    requires w != [] && w[|w| - 1].timestamp > w[0].timestamp
    ensures Milliseconds(w) == w[|w| - 1].timestamp - w[0].timestamp
  {
  }

  lemma SteadySpan(w: seq<Sample>, narrow: nat, wide: nat, small: nat, large: nat)
    requires |w| > 1 && Steady(w, narrow, wide, small, large) && narrow >= 1
    ensures |w| * small <= TotalBytes(w) <= |w| * large && Sum(w) == TotalBytes(w)
    ensures (|w| - 1) * narrow <= Milliseconds(w) <= (|w| - 1) * wide
  {
    hide Heavy, Light, Sum, TotalBytes, Milliseconds;
    HeavyBounds(w, wide, small);
    LightBounds(w, narrow, large);
    SumIsTotal(w);
    MulOrder(1, narrow, |w| - 1);
    PositiveSpan(w);
  }

  lemma WindowInBand(w: seq<Sample>, target: u64, narrow: nat, wide: nat, small: nat, large: nat, k: nat)
    requires |w| > k && Steady(w, narrow, wide, small, large) && InBand(target, narrow, wide, small, large, k)
    requires Sum(w) * 8000 < U64_SPAN && target * 3 < U64_SPAN
    ensures Judge(target, Measured(w)) == Within
  {
    SteadySpan(w, narrow, wide, small, large);
    JudgedWindow(target, w);
    BandBits(|w|, TotalBytes(w), Milliseconds(w), target, narrow, wide, small, large, k);
    hide *;
  }

  // ---------- the closed loop ----------

  lemma {:induction false} CloseFrames(frames: seq<Sample>, gap: nat, size: nat, back: nat)
    requires back < |frames| && Heavy(frames, gap, size)
    ensures frames[|frames| - 1].timestamp - frames[|frames| - 1 - back].timestamp <= back * gap
  {
    if back > 0 {
      CloseFrames(frames, gap, size, back - 1);
      NextMultiple(back - 1, gap);
    }
  }

  lemma LightEnd(w: seq<Sample>, frames: seq<Sample>, gap: nat, size: nat)
    requires frames != [] && RecentSuffix(w, frames) && Light(frames, gap, size)
    ensures Light(w, gap, size)
  {
    var d := |frames| - |w|;
    assert forall i :: 0 <= i < |w| ==> w[i] == frames[d + i];
  }

  lemma RecentStays(w: seq<Sample>, h: seq<Sample>, first: nat, k: nat)
    requires first <= |h| && w == h[first..] && k < |h|
    requires forall i :: 0 <= i < |h| ==> (h[i].timestamp + 2000 >= h[|h| - 1].timestamp <==> first <= i)
    requires h[|h| - 1 - k].timestamp + 2000 >= h[|h| - 1].timestamp
    ensures |w| > k
  {
  }

  /** Frames that are close enough stay in the window. */
  lemma ManyInWindow(target: u64, before: seq<Event>, frames: seq<Sample>, gap: nat, size: nat, k: nat)
    requires k < |frames| && Nondecreasing(Recorded(before) + frames) && Heavy(frames, gap, size)
    requires k * gap <= 2000
    ensures |Play(Run(Fresh(target), before), frames).window| > k
  {
    CloseFrames(frames, gap, size, k);
    hide Run, Recorded, Nondecreasing, Heavy;
    var h := Recorded(before) + frames;
    assert h[|h| - 1] == frames[|frames| - 1] && h[|h| - 1 - k] == frames[|frames| - 1 - k];
    RunSplit(Fresh(target), before, Records(frames));
    RecordedSplit(before, frames);
    var first := TwoSeconds(target, before + Records(frames));
    RecentStays(Play(Run(Fresh(target), before), frames).window, h, first, k);
  }

  lemma LateBalance(target: u64, before: seq<Event>, frames: seq<Sample>, narrow: nat, wide: nat, small: nat,
                    large: nat, k: nat)
    requires k < |frames| && Nondecreasing(Recorded(before) + frames) && Fits(frames)
    requires Steady(frames, narrow, wide, small, large)
    requires frames[|frames| - 1].timestamp - frames[0].timestamp > 2000
    requires var t := Run(Fresh(target), before).target;
             InBand(t, narrow, wide, small, large, k) && t * 3 < U64_SPAN
    ensures LastVerdict(Run(Fresh(target), before), frames) == Within
  {
    var c := Run(Fresh(target), before);
    ManyInWindow(target, before, frames, wide, small, k);
    hide Run, Play, Measured, Judge, Recorded, Nondecreasing, RecentSuffix, Fits, Heavy, Light, InBand;
    WindowInHistory(target, before, frames);
    var w := Play(c, frames).window;
    OldGone(w, Recorded(before), frames);
    WindowFits(w, frames);
    HeavyEnd(w, frames, wide, small);
    LightEnd(w, frames, narrow, large);
    WindowInBand(w, c.target, narrow, wide, small, large, k);
  }

  lemma LoadPrefixHeavy(frames: seq<Sample>, n: nat, gap: nat, size: nat)
    requires n <= |frames| && Heavy(frames, gap, size)
    ensures Heavy(frames[..n], gap, size)
  {
  }

  lemma ManyFrames(frames: seq<Sample>, m: nat, gap: nat, size: nat, k: nat)
    requires TwoSecondsIn(frames, m) && Heavy(frames, gap, size) && k * gap <= 2000
    ensures m > k
  {
    LoadPrefixHeavy(frames, m + 1, gap, size);
    CloseFrames(frames[..m + 1], gap, size, m);
    if m <= k {
      MulOrder(m, k, gap);
    }
  }

  lemma {:induction false} WithinStreak(c: Controller, frames: seq<Sample>, m: nat, n: nat)
    requires m <= n <= |frames| && AllAfter(c, frames, m, Within)
    ensures Play(c, frames[..n]).reg.quality == Play(c, frames[..m]).reg.quality
    ensures m < n ==> Play(c, frames[..n]).reg == Regulator(Play(c, frames[..m]).reg.quality, 0, 0)
  {
    if m == n {
    } else {
      WithinStreak(c, frames, m, n - 1);
      RegOfPlay(c, frames[..n]);
      assert frames[..n][..n - 1] == frames[..n - 1];
      hide Play, LastVerdict;
    }
  }

  lemma VerdictAfter(target: u64, before: seq<Event>, frames: seq<Sample>, m: nat, n: nat, narrow: nat, wide: nat,
                     small: nat, large: nat, k: nat)
    requires Nondecreasing(Recorded(before) + frames) && TwoSecondsIn(frames, m) && m < n <= |frames|
    requires Steady(frames, narrow, wide, small, large) && Fits(frames)
    requires var t := Run(Fresh(target), before).target;
             InBand(t, narrow, wide, small, large, k) && t * 3 < U64_SPAN
    ensures LastVerdict(Run(Fresh(target), before), frames[..n]) == Within
  {
    hide Run, Play, LastVerdict, Light, Heavy, Fits, Recorded, Nondecreasing;
    ManyFrames(frames, m, wide, small, k);
    hide InBand;
    LoadPrefix(frames, n, wide, small);
    LoadPrefix(frames, n, narrow, large);
    TwoSecondsLater(Recorded(before), frames, m, n);
    LateBalance(target, before, frames[..n], narrow, wide, small, large, k);
  }

  /**
   * Main result, load in balance: whatever happened before on an ordered clock, once frames whose sizes and gaps keep
   * the rate between three quarters of the target and the target span more than two seconds, the quality stays where
   * it is and both counters stay at zero.
   */
  lemma {:induction false} BandHolds(target: u64, before: seq<Event>, frames: seq<Sample>, m: nat, narrow: nat,
                                     wide: nat, small: nat, large: nat, k: nat)
    requires Nondecreasing(Recorded(before) + frames) && TwoSecondsIn(frames, m)
    requires Steady(frames, narrow, wide, small, large) && Fits(frames)
    requires var t := Run(Fresh(target), before).target;
             InBand(t, narrow, wide, small, large, k) && t * 3 < U64_SPAN
    ensures var c := Run(Fresh(target), before);
            forall n :: m < n <= |frames| ==>
              Play(c, frames[..n]).reg == Regulator(Play(c, frames[..m]).reg.quality, 0, 0)
  {
    assert m < |frames|;
    var c := Run(Fresh(target), before);
    hide Run, Play, LastVerdict, Steady, Fits, Recorded, Nondecreasing, InBand, TwoSecondsIn;
    forall n | m < n <= |frames| ensures LastVerdict(c, frames[..n]) == Within {
      VerdictAfter(target, before, frames, m, n, narrow, wide, small, large, k);
    }
    assert AllAfter(c, frames, m, Within);
    hide AllAfter;
    forall n | m < n <= |frames|
      ensures Play(c, frames[..n]).reg == Regulator(Play(c, frames[..m]).reg.quality, 0, 0)
    {
      WithinStreak(c, frames, m, n);
    }
  }
}
