/** The eviction loop against a controller that keeps its whole history and filters it. */
module BitrateWindow {
  import opened Bytes
  import opened Bitrate

  predicate Nondecreasing(h: seq<Sample>) {
    forall i :: 0 < i < |h| ==> h[i - 1].timestamp <= h[i].timestamp
  }

  /** The samples of `h` that are not older than `cutoff`, in order. */
  function Since(h: seq<Sample>, cutoff: nat): seq<Sample> {
    if h == [] then []
    else
      var front, last := h[..|h| - 1], h[|h| - 1];
      if last.timestamp >= cutoff then Since(front, cutoff) + [last] else Since(front, cutoff)
  }

  /** The samples of the last two seconds before the newest one. */
  function Recent(h: seq<Sample>): seq<Sample> {
    if h == [] then [] else Since(h, Cutoff(h[|h| - 1].timestamp))
  }

  lemma {:induction false} OrderedEnds(h: seq<Sample>, i: nat)
    requires Nondecreasing(h) && i < |h|
    ensures h[0].timestamp <= h[i].timestamp <= h[|h| - 1].timestamp
    decreases |h|
  {
    if |h| == 1 {
    } else {
      if i < |h| - 1 {
        OrderedEnds(h[..|h| - 1], i);
      } else {
        OrderedEnds(h[..|h| - 1], i - 1);
      }
    }
  }

  lemma {:induction false} SinceAll(h: seq<Sample>, cutoff: nat)
    requires forall i :: 0 <= i < |h| ==> h[i].timestamp >= cutoff
    ensures Since(h, cutoff) == h
  {
    if h == [] {
    } else {
      SinceAll(h[..|h| - 1], cutoff);
    }
  }

  lemma {:induction false} SinceConcat(a: seq<Sample>, b: seq<Sample>, cutoff: nat)
    ensures Since(a + b, cutoff) == Since(a, cutoff) + Since(b, cutoff)
  {
    if b == [] {
      assert a + b == a;
    } else {
      SinceConcat(a, b[..|b| - 1], cutoff);
      assert (a + b)[..|a + b| - 1] == a + b[..|b| - 1];
    }
  }

  lemma {:induction false} SinceTwice(h: seq<Sample>, early: nat, late: nat)
    requires early <= late
    ensures Since(Since(h, early), late) == Since(h, late)
  {
    if h == [] {
    } else {
      var front, last := h[..|h| - 1], h[|h| - 1];
      SinceTwice(front, early, late);
      SinceConcat(Since(front, early), [last], late);
      assert Since([last], late) == if last.timestamp >= late then [last] else [] by {
        assert [last][..0] == [];
      }
    }
  }

  lemma SinceFirst(w: seq<Sample>, cutoff: nat)
    requires w != [] && w[0].timestamp < cutoff
    ensures Since(w, cutoff) == Since(w[1..], cutoff)
  {
    assert w == [w[0]] + w[1..];
    SinceConcat([w[0]], w[1..], cutoff);
    assert [w[0]][..0] == [];
  }

  /** On ordered samples, popping the stale front is the same as filtering. */
  lemma {:induction false} EvictIsSince(w: seq<Sample>, cutoff: nat)
    requires Nondecreasing(w)
    ensures Evict(w, cutoff) == Since(w, cutoff)
  {
    if w != [] && w[0].timestamp < cutoff {
      var rest := w[1..];
      assert Nondecreasing(rest) by {
        assert forall i :: 0 <= i < |rest| ==> rest[i] == w[i + 1];
      }
      EvictIsSince(rest, cutoff);
      SinceFirst(w, cutoff);
    } else {
      forall i | 0 <= i < |w| ensures w[i].timestamp >= cutoff {
        OrderedEnds(w, i);
      }
      SinceAll(w, cutoff);
    }
  }

  lemma {:induction false} SinceOrdered(h: seq<Sample>, cutoff: nat)
    requires Nondecreasing(h)
    ensures Nondecreasing(Since(h, cutoff))
    ensures forall f :: f in Since(h, cutoff) ==> f in h
  {
    if h == [] {
    } else {
      var front, last := h[..|h| - 1], h[|h| - 1];
      var s := Since(front, cutoff);
      SinceOrdered(front, cutoff);
      if s != [] {
        assert s[|s| - 1] in front;
        var k :| 0 <= k < |front| && front[k] == s[|s| - 1];
        OrderedEnds(h, k);
      }
    }
  }

  lemma PushRecent(h: seq<Sample>, f: Sample)
    requires Nondecreasing(h + [f])
    ensures Push(Recent(h), f) == Recent(h + [f])
  {
    var cutoff := Cutoff(f.timestamp);
    var g := h + [f];
    if h == [] {
      assert Recent(h) + [f] == g;
      EvictIsSince(g, cutoff);
    } else {
      var before := Cutoff(h[|h| - 1].timestamp);
      assert g[|h| - 1].timestamp <= g[|h|].timestamp;
      assert Since(g, before) == Since(h, before) + [f] by {
        assert g[..|g| - 1] == h;
      }
      SinceOrdered(g, before);
      EvictIsSince(Since(g, before), cutoff);
      SinceTwice(g, before, cutoff);
    }
  }

  /** Main result: after any run over ordered timestamps the deque is the two-second filter of everything recorded. */
  lemma {:induction false} WindowIsRecent(target: u64, events: seq<Event>)
    requires Nondecreasing(Recorded(events))
    ensures Run(Fresh(target), events).window == Recent(Recorded(events))
  {
    if events == [] {
    } else {
      var front, e := events[..|events| - 1], events[|events| - 1];
      var h, h' := Recorded(front), Recorded(events);
      assert Nondecreasing(h) by {
        assert forall i :: 0 <= i < |h| ==> h[i] == h'[i];
      }
      WindowIsRecent(target, front);
      if e.Record? {
        PushRecent(h, e.sample);
      }
    }
  }

  // ---------- the controller that keeps everything ----------

  datatype Archive = Archive(target: u64, reg: Regulator, history: seq<Sample>)

  function ArchiveStep(a: Archive, e: Event): Archive {
    match e
    case SetTarget(t) => a.(target := t)
    case Record(f) =>
      var h := a.history + [f];
      Archive(a.target, Decide(a.reg, Judge(a.target, Measured(Recent(h)))), h)
  }

  function ArchiveRun(a: Archive, events: seq<Event>): Archive {
    if events == [] then a else ArchiveStep(ArchiveRun(a, events[..|events| - 1]), events[|events| - 1])
  }

  predicate Agree(c: Controller, a: Archive) {
    c.target == a.target && c.reg == a.reg && c.window == Recent(a.history)
  }

  lemma AgreeStep(c: Controller, a: Archive, e: Event)
    requires Agree(c, a)
    requires e.Record? ==> Nondecreasing(a.history + [e.sample])
    ensures Agree(Step(c, e), ArchiveStep(a, e))
  {
    if e.Record? {
      PushRecent(a.history, e.sample);
    }
  }

  lemma {:induction false} ArchiveHistory(a: Archive, events: seq<Event>)
    ensures ArchiveRun(a, events).history == a.history + Recorded(events)
  {
    if events == [] {
    } else {
      ArchiveHistory(a, events[..|events| - 1]);
    }
  }

  /** Bounded memory loses nothing: window, counters and quality agree with the archive after every run. */
  lemma {:induction false} RefinesArchive(target: u64, events: seq<Event>)
    requires Nondecreasing(Recorded(events))
    ensures Agree(Run(Fresh(target), events), ArchiveRun(Archive(target, Fresh(target).reg, []), events))
  {
    if events == [] {
    } else {
      var front, e := events[..|events| - 1], events[|events| - 1];
      var h, h' := Recorded(front), Recorded(events);
      assert Nondecreasing(h) by {
        assert forall i :: 0 <= i < |h| ==> h[i] == h'[i];
      }
      RefinesArchive(target, front);
      var a := ArchiveRun(Archive(target, Fresh(target).reg, []), front);
      ArchiveHistory(Archive(target, Fresh(target).reg, []), front);
      assert a.history == h;
      AgreeStep(Run(Fresh(target), front), a, e);
    }
  }

  predicate RecentSuffix(w: seq<Sample>, h: seq<Sample>) {
    && |w| <= |h| && w == h[|h| - |w|..]
    && (h != [] ==> w != [])
    && (h != [] ==> w[|w| - 1] == h[|h| - 1])
    && (h != [] ==> w[0].timestamp >= Cutoff(h[|h| - 1].timestamp))
  }

  lemma {:induction false} EvictKeepsRecent(w: seq<Sample>, cutoff: nat)
    requires w != [] && w[|w| - 1].timestamp >= cutoff
    ensures Evict(w, cutoff) != []
  {
    if w[0].timestamp < cutoff {
      EvictKeepsRecent(w[1..], cutoff);
    }
  }

  lemma PushShape(w: seq<Sample>, f: Sample) returns (r: seq<Sample>)
    ensures r == Push(w, f)
    ensures 0 < |r| <= |w| + 1 && r == (w + [f])[|w| + 1 - |r|..]
    ensures r[0].timestamp >= Cutoff(f.timestamp)
  {
    r := Push(w, f);
    EvictKeepsRecent(w + [f], Cutoff(f.timestamp));
  }

  lemma ExtendSuffix(w: seq<Sample>, h: seq<Sample>, f: Sample, r: seq<Sample>)
    requires |w| <= |h| && w == h[|h| - |w|..]
    requires 0 < |r| <= |w| + 1 && r == (w + [f])[|w| + 1 - |r|..]
    requires r[0].timestamp >= Cutoff(f.timestamp)
    ensures RecentSuffix(r, h + [f])
  {
    var g := h + [f];
    assert w + [f] == g[|h| - |w|..];
  }

  lemma PushSuffix(w: seq<Sample>, h: seq<Sample>, f: Sample)
    requires RecentSuffix(w, h)
    ensures RecentSuffix(Push(w, f), h + [f])
  {
    var r := PushShape(w, f);
    ExtendSuffix(w, h, f, r);
  }

  lemma {:induction false} SuffixOfHistory(target: u64, events: seq<Event>)
    ensures RecentSuffix(Run(Fresh(target), events).window, Recorded(events))
  {
    if events == [] {
    } else {
      var front, e := events[..|events| - 1], events[|events| - 1];
      SuffixOfHistory(target, front);
      if e.Record? {
        PushSuffix(Run(Fresh(target), front).window, Recorded(front), e.sample);
      }
    }
  }

  // ---------- what is evicted when the clock may jump ----------

  /** Sample `i` is too old when frame `j` is recorded. */
  predicate Stale(h: seq<Sample>, i: nat, j: nat)
    requires i < |h| && j < |h|
  {
    h[i].timestamp < Cutoff(h[j].timestamp)
  }

  /** Sample `i` was too old for one of the first `n` frames, by when everything before it was gone. */
  predicate Evicted(h: seq<Sample>, i: nat, n: nat)
    requires i < |h| && n <= |h|
  {
    exists j :: i <= j < n && Stale(h, i, j) && (i > 0 ==> Evicted(h, i - 1, j + 1))
  }

  lemma {:induction false} EvictedPrefix(h: seq<Sample>, f: Sample, i: nat, n: nat)
    requires i < |h| && n <= |h|
    ensures Evicted(h + [f], i, n) <==> Evicted(h, i, n)
  {
    forall j | i <= j < n
      ensures Stale(h + [f], i, j) <==> Stale(h, i, j)
      ensures i > 0 ==> (Evicted(h + [f], i - 1, j + 1) <==> Evicted(h, i - 1, j + 1))
    {
      if i > 0 {
        EvictedPrefix(h, f, i - 1, j + 1);
      }
    }
  }

  lemma EvictedNext(h: seq<Sample>, i: nat, n: nat)
    requires i < |h| && n < |h|
    ensures Evicted(h, i, n + 1) <==>
            Evicted(h, i, n) || (i <= n && Stale(h, i, n) && (i > 0 ==> Evicted(h, i - 1, n + 1)))
  {
  }

  lemma {:induction false} EvictFront(w: seq<Sample>, cutoff: nat)
    ensures forall i :: 0 <= i < |w| - |Evict(w, cutoff)| ==> w[i].timestamp < cutoff
  {
    if w == [] || w[0].timestamp >= cutoff {
    } else {
      EvictFront(w[1..], cutoff);
      assert forall i :: 0 < i < |w| ==> w[i] == w[1..][i - 1];
    }
  }

  /** The window lacks exactly the evicted samples of the history. */
  predicate LacksEvicted(w: seq<Sample>, h: seq<Sample>) {
    && |w| <= |h| && w == h[|h| - |w|..]
    && forall i: nat :: i < |h| ==> (i < |h| - |w| <==> Evicted(h, i, |h|))
  }

  lemma NotYetEvicted(h: seq<Sample>, n: nat)
    requires n < |h|
    ensures !Evicted(h, n, n)
  {
  }

  /** Eviction stops at the first sample that is not too old. */
  lemma EvictStops(v: seq<Sample>, cutoff: nat)
    requires v != [] && v[|v| - 1].timestamp >= cutoff
    ensures var d := |v| - |Evict(v, cutoff)|;
            && 0 <= d < |v| && v[d].timestamp >= cutoff
            && forall i :: 0 <= i < d ==> v[i].timestamp < cutoff
  {
    EvictFront(v, cutoff);
    EvictKeepsRecent(v, cutoff);
  }

  /** A push drops samples that are too old for the new frame, up to the first one that is not. */
  lemma PushDrops(w: seq<Sample>, h: seq<Sample>, f: Sample)
    requires |w| <= |h| && w == h[|h| - |w|..]
    ensures var g, n, kept := h + [f], |h|, |h| + 1 - |Push(w, f)|;
            && n - |w| <= kept <= n
            && (forall i :: n - |w| <= i < kept ==> Stale(g, i, n))
            && !Stale(g, kept, n)
  {
    hide Evict;
    var v, g, gone := w + [f], h + [f], |h| - |w|;
    EvictStops(v, Cutoff(f.timestamp));
    assert v == g[gone..];
    assert forall i :: gone <= i < |g| ==> g[i] == v[i - gone];
    hide Cutoff;
  }

  lemma {:induction false} EvictedByPush(w: seq<Sample>, h: seq<Sample>, f: Sample, i: nat)
    requires LacksEvicted(w, h) && i <= |h|
    ensures i < |h| + 1 - |Push(w, f)| <==> Evicted(h + [f], i, |h| + 1)
  {
    hide Evicted, Push, Stale;
    var g, n := h + [f], |h|;
    PushDrops(w, h, f);
    EvictedNext(g, i, n);
    if i < n {
      EvictedPrefix(h, f, i, n);
    } else {
      NotYetEvicted(g, n);
    }
    if i > 0 {
      EvictedByPush(w, h, f, i - 1);
    }
  }

  lemma PushLacks(w: seq<Sample>, h: seq<Sample>, f: Sample)
    requires LacksEvicted(w, h)
    ensures LacksEvicted(Push(w, f), h + [f])
  {
    var g := h + [f];
    assert w + [f] == g[|h| - |w|..];
    forall i: nat | i < |g| ensures i < |g| - |Push(w, f)| <==> Evicted(g, i, |g|) {
      EvictedByPush(w, h, f, i);
    }
  }

  lemma {:induction false} EvictionExact(target: u64, events: seq<Event>)
    ensures LacksEvicted(Run(Fresh(target), events).window, Recorded(events))
  {
    if events == [] {
    } else {
      hide LacksEvicted;
      var front, e := events[..|events| - 1], events[|events| - 1];
      EvictionExact(target, front);
      if e.Record? {
        PushLacks(Run(Fresh(target), front).window, Recorded(front), e.sample);
      }
    }
  }

  /**
   * Main result, whatever the clock does: the window is a nonempty suffix of the history, ends in the newest frame and
   * has a recent enough front; and a sample is missing from it exactly if it was too old for some frame recorded
   * later, by when everything before it was gone as well.
   */
  lemma WindowIsSuffix(target: u64, events: seq<Event>)
    ensures RecentSuffix(Run(Fresh(target), events).window, Recorded(events))
    ensures LacksEvicted(Run(Fresh(target), events).window, Recorded(events))
  {
    SuffixOfHistory(target, events);
    EvictionExact(target, events);
  }
}
