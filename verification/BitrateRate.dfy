/** What the controller measures and how it judges, in terms of timestamps, bytes and the target alone. */
module BitrateRate {
  import opened Arithmetic
  import opened Bytes
  import opened Bitrate
  import opened BitrateWindow
  import opened BitrateControl

  // ---------- the measurement ----------

  /** The bytes of all samples, first to last. */
  function TotalBytes(w: seq<Sample>): nat {
    if w == [] then 0 else w[0].size + TotalBytes(w[1..])
  }

  lemma {:induction false} TotalWithLast(w: seq<Sample>, f: Sample)
    ensures TotalBytes(w + [f]) == TotalBytes(w) + f.size
  {
    if w == [] {
      assert (w + [f])[1..] == [];
    } else {
      TotalWithLast(w[1..], f);
      assert (w + [f])[1..] == w[1..] + [f];
    }
  }

  lemma {:induction false} SumIsTotal(w: seq<Sample>)
    ensures Sum(w) == TotalBytes(w)
  {
    if w == [] {
    } else {
      var front, last := w[..|w| - 1], w[|w| - 1];
      SumIsTotal(front);
      TotalWithLast(front, last);
      assert w == front + [last];
    }
  }

  /** From the first to the last sample, but at least one millisecond, and one if the clock ran backwards. */
  function Milliseconds(w: seq<Sample>): (d: nat)
    requires w != []
    ensures d >= 1
  {
    if w[|w| - 1].timestamp > w[0].timestamp then w[|w| - 1].timestamp - w[0].timestamp else 1
  }

  lemma Remainder64(q: int, r: int)
    requires 0 <= r < U64_SPAN
    ensures (q * U64_SPAN + r) % U64_SPAN == r
  {
  }

  lemma AddSpans(q: int, n: int)
    ensures (q * U64_SPAN + n) % U64_SPAN == n % U64_SPAN
  {
    var p, r := n / U64_SPAN, n % U64_SPAN;
    assert q * U64_SPAN + n == (q + p) * U64_SPAN + r;
    Remainder64(q + p, r);
  }

  lemma ScaleModulo(n: nat, k: nat)
    ensures ((n % U64_SPAN) * k) % U64_SPAN == (n * k) % U64_SPAN
  {
    var q, r := n / U64_SPAN, n % U64_SPAN;
    assert n * k == (q * k) * U64_SPAN + r * k by {
      assert n == q * U64_SPAN + r;
      assert (q * U64_SPAN + r) * k == (q * k) * U64_SPAN + r * k;
    }
    AddSpans(q * k, r * k);
  }

  /** Wrapping at every operation is wrapping once at the end. */
  lemma MilliBitsModulo(bytes: nat)
    ensures MilliBits(bytes) == (bytes * 8000) % U64_SPAN
  {
    ScaleModulo(bytes, 8);
    ScaleModulo(bytes * 8, 1000);
  }

  lemma QuotientBounds(n: nat, d: nat)
    requires d >= 1
    ensures (n / d) * d <= n < (n / d + 1) * d
  {
  }

  /**
   * Main result: the measured rate is the total of all bytes in the window, in milli-bits that wrap at 64 bits, over
   * the duration of the window, rounded down; for fewer than two frames it is zero.
   */
  lemma {:induction false} MeasuredExactly(w: seq<Sample>)
    ensures |w| < 2 ==> Measured(w) == 0
    ensures |w| >= 2 ==>
              var m, bits, d := Measured(w), (TotalBytes(w) * 8000) % U64_SPAN, Milliseconds(w);
              m * d <= bits < (m + 1) * d
  {
    SumIsTotal(w);
    MilliBitsModulo(Sum(w));
    if |w| >= 2 {
      QuotientBounds((TotalBytes(w) * 8000) % U64_SPAN, Milliseconds(w));
    }
    hide MilliBits, Sum, TotalBytes;
  }

  // ---------- the verdict ----------

  /** Over the target, at least one below three quarters of the (wrapped) target, or neither. */
  lemma VerdictByRate(target: u64, m: nat)
    ensures var tripled := (target * 3) % U64_SPAN;
            && (Judge(target, m) == Over <==> m > target)
            && (Judge(target, m) == Under <==> m <= target && 4 * (m + 1) <= tripled)
            && (Judge(target, m) == Within <==> m <= target && 4 * (m + 1) > tripled)
  {
  }

  /** A frame within budget leaves the quality alone and ends both streaks. */
  lemma WithinHolds(c: Controller, f: Sample)
    requires c.target * 3 < U64_SPAN
    ensures var c' := Step(c, Record(f));
            var m := Measured(c'.window);
            m <= c.target && 4 * (m + 1) > 3 * c.target ==> c'.reg == Regulator(c.reg.quality, 0, 0)
  {
    hide Measured, Push, Judge;
    VerdictByRate(c.target, Measured(Push(c.window, f)));
  }

  /** Skip advice is given exactly above half again the (wrapped) target. */
  lemma SkipsExactly(c: Controller)
    ensures Skips(c) <==> 2 * Measured(c.window) > (c.target * 3) % U64_SPAN
    ensures c.target * 3 < U64_SPAN ==> (Skips(c) <==> 2 * Measured(c.window) > 3 * c.target)
  {
    hide Measured;
  }

  /** Two frames a second apart, at 1.2 megabits per second with a target of one: over budget, but no skip advice. */
  lemma OverWithoutSkip()
    ensures var c := Run(Fresh(1_000_000), [Record(Sample(0, 0)), Record(Sample(1000, 150_000))]);
            Measured(c.window) == 1_200_000 && OverBudget(c) && !Skips(c)
  {
    var c := Run(Fresh(1_000_000), [Record(Sample(0, 0)), Record(Sample(1000, 150_000))]);
    var w := [Sample(0, 0), Sample(1000, 150_000)];
    hide Run, Measured;
    TwoFrameWindow(1_000_000, w[0], w[1]);
    assert TotalBytes(w) == 150_000 by {
      assert w == [w[0]] + [w[1]];
      TotalWithLast([w[0]], w[1]);
    }
    hide TotalBytes;
    MeasuredExactly(w);
    SkipsExactly(c);
    VerdictByRate(1_000_000, Measured(w));
  }

  // ---------- any frame of any ordered run ----------

  lemma OrderedFrom(h: seq<Sample>, i: nat, j: nat)
    requires Nondecreasing(h) && i <= j < |h|
    ensures h[i].timestamp <= h[j].timestamp
  {
    OrderedEnds(h[..j + 1], i);
  }

  lemma CutoffAt(now: u64, t: u64)
    ensures t >= Cutoff(now) <==> t + 2000 >= now
  {
  }

  /** On ordered samples, what is not too old is a tail. */
  lemma TailFrom(h: seq<Sample>, cutoff: nat) returns (k: nat)
    requires h != [] && Nondecreasing(h) && h[|h| - 1].timestamp >= cutoff
    ensures k <= |h| && Since(h, cutoff) == h[k..]
    ensures forall i :: 0 <= i < |h| ==> (h[i].timestamp >= cutoff <==> k <= i)
  {
    EvictIsSince(h, cutoff);
    EvictStops(h, cutoff);
    k := |h| - |Evict(h, cutoff)|;
    hide Evict, Since, Nondecreasing;
    forall i | 0 <= i < |h| ensures h[i].timestamp >= cutoff <==> k <= i {
      if k <= i {
        OrderedFrom(h, k, i);
      }
    }
  }

  lemma RecentFrom(h: seq<Sample>) returns (k: nat)
    requires Nondecreasing(h)
    ensures k <= |h| && Recent(h) == h[k..]
    ensures forall i :: 0 <= i < |h| ==> (h[i].timestamp + 2000 >= h[|h| - 1].timestamp <==> k <= i)
  {
    k := 0;
    if h == [] {
    } else {
      hide Since, Nondecreasing, Cutoff;
      var now := h[|h| - 1].timestamp;
      CutoffAt(now, now);
      k := TailFrom(h, Cutoff(now));
      forall i | 0 <= i < |h| ensures h[i].timestamp + 2000 >= now <==> k <= i {
        CutoffAt(now, h[i].timestamp);
      }
    }
  }

  /** The window in plain numbers: the end of the history, from the first frame of the last 2000 milliseconds on. */
  lemma TwoSeconds(target: u64, events: seq<Event>) returns (k: nat)
    requires Nondecreasing(Recorded(events))
    ensures k <= |Recorded(events)| && Run(Fresh(target), events).window == Recorded(events)[k..]
    ensures var h := Recorded(events);
            forall i :: 0 <= i < |h| ==> (h[i].timestamp + 2000 >= h[|h| - 1].timestamp <==> k <= i)
  {
    WindowIsRecent(target, events);
    hide Run, Recorded, Recent, Nondecreasing;
    k := RecentFrom(Recorded(events));
  }

  lemma BoundedQuotient(m: nat, bits: nat, d: nat, bound: nat)
    requires d >= 1 && m * d <= bits < (m + 1) * d
    ensures m >= bound <==> bits >= bound * d
  {
    if m >= bound {
      MulOrder(bound, m, d);
    } else {
      MulOrder(m + 1, bound, d);
    }
  }

  lemma SmallTripled(t: u64, m: nat)
    requires t * 3 < U64_SPAN
    ensures (t * 3) % U64_SPAN == 3 * t
    ensures 4 * (m + 1) <= 3 * t <==> m < 3 * t / 4
    ensures 3 * t / 4 <= t
  {
  }

  lemma JudgedQuotient(t: u64, m: nat, bits: nat, d: nat)
    requires t * 3 < U64_SPAN && d >= 1 && m * d <= bits < (m + 1) * d
    ensures Judge(t, m) == Over <==> bits >= (t + 1) * d
    ensures Judge(t, m) == Under <==> bits < (3 * t / 4) * d
  {
    SmallTripled(t, m);
    VerdictByRate(t, m);
    BoundedQuotient(m, bits, d, t + 1);
    BoundedQuotient(m, bits, d, 3 * t / 4);
    hide Judge;
  }

  /** The verdict on a window, by its bits and its duration. */
  lemma JudgedWindow(t: u64, w: seq<Sample>)
    requires w != [] && TotalBytes(w) * 8000 < U64_SPAN && t * 3 < U64_SPAN
    ensures var v, bits, d := Judge(t, Measured(w)), TotalBytes(w) * 8000, Milliseconds(w);
            && (|w| >= 2 ==> (v == Over <==> bits >= (t + 1) * d) && (v == Under <==> bits < (3 * t / 4) * d))
            && (|w| == 1 ==> v == if 3 * t >= 4 then Under else Within)
  {
    MeasuredExactly(w);
    hide Measured, TotalBytes, Milliseconds, Judge;
    if |w| >= 2 {
      var bits, d := TotalBytes(w) * 8000, Milliseconds(w);
      assert bits % U64_SPAN == bits;
      JudgedQuotient(t, Measured(w), bits, d);
    } else {
      SmallTripled(t, 0);
      VerdictByRate(t, 0);
    }
  }

  lemma WindowWith(target: u64, events: seq<Event>, f: Sample)
    requires Nondecreasing(Recorded(events) + [f])
    ensures Push(Run(Fresh(target), events).window, f) == Recent(Recorded(events) + [f]) != []
  {
    var w, h := Run(Fresh(target), events).window, Recorded(events);
    assert Nondecreasing(h) by {
      assert forall i :: 0 <= i < |h| ==> h[i] == (h + [f])[i];
    }
    WindowIsRecent(target, events);
    SuffixOfHistory(target, events);
    hide Run, Recorded, Recent, Push, Nondecreasing;
    PushRecent(h, f);
    PushSuffix(w, h, f);
  }

  /**
   * Main result: the verdict on any frame of any ordered run, from the samples of the last two seconds. With two or
   * more of them it compares their bits with the target and three quarters of it times their duration; a lone frame
   * counts as no load.
   */
  lemma {:induction false} JudgedByBytes(target: u64, events: seq<Event>, f: Sample)
    requires Nondecreasing(Recorded(events) + [f])
    requires TotalBytes(Recent(Recorded(events) + [f])) * 8000 < U64_SPAN
    requires Run(Fresh(target), events).target * 3 < U64_SPAN
    ensures var c, w := Run(Fresh(target), events), Recent(Recorded(events) + [f]);
            && w != []
            && var bits, t, d := TotalBytes(w) * 8000, c.target, Milliseconds(w);
            && (|w| >= 2 ==>
                  && (VerdictOn(c, f) == Over <==> bits >= (t + 1) * d)
                  && (VerdictOn(c, f) == Under <==> bits < (3 * t / 4) * d))
            && (|w| == 1 ==> VerdictOn(c, f) == if 3 * t >= 4 then Under else Within)
  {
    hide Run, Recorded, Recent, Measured, TotalBytes, Judge, Push, Nondecreasing, Milliseconds;
    WindowWith(target, events, f);
    JudgedWindow(Run(Fresh(target), events).target, Recent(Recorded(events) + [f]));
  }
}
