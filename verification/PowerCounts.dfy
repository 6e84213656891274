/** Conservation of sleep reports, the list of sleepers, and the independence of tick schedules. */
module PowerCounts {
  import opened Bytes
  import opened Power
  import opened PowerHistory

  function Count(ids: seq<u32>, id: u32): nat {
    if ids == [] then 0 else (if ids[0] == id then 1 else 0) + Count(ids[1..], id)
  }

  lemma {:induction false} CountConcat(a: seq<u32>, b: seq<u32>, id: u32)
    ensures Count(a + b, id) == Count(a, id) + Count(b, id)
  {
    if a == [] {
      assert a + b == b;
    } else {
      CountConcat(a[1..], b, id);
      assert (a + b)[1..] == a[1..] + b;
    }
  }

  // ---------- conservation ----------

  /** How often a run's ticks reported a display. */
  function Reports(timeout: u64, events: seq<Event>, id: u32): nat {
    if events == [] then 0
    else
      var front, e := events[..|events| - 1], events[|events| - 1];
      Reports(timeout, front, id)
      + if e.Tick? then Count(Reported(Run(timeout, front), e.now, timeout), id) else 0
  }

  /** How often a run's touches and wakes found a display asleep. */
  function Rousings(timeout: u64, events: seq<Event>, id: u32): nat {
    if events == [] then 0
    else
      var front, e := events[..|events| - 1], events[|events| - 1];
      Rousings(timeout, front, id)
      + if (e.Touch? || e.Wake?) && e.id == id && StateOf(Run(timeout, front), id) == Some(Sleep) then 1 else 0
  }

  lemma CountCons(x: seq<u32>, ids: seq<u32>, id: u32)
    requires |x| <= 1
    ensures Count(x + ids, id) == (if x == [id] then 1 else 0) + Count(ids, id)
  {
    CountConcat(x, ids, id);
    if x != [] {
      assert x[1..] == [];
    }
  }

  lemma SleepersCons(e: Entry, t: Table, id: u32)
    ensures Count(Sleeping([e] + t), id) == (if e.state == Sleep && e.id == id then 1 else 0) + Count(Sleeping(t), id)
  {
    var first: seq<u32> := if e.state == Sleep then [e.id] else [];
    assert ([e] + t)[1..] == t;
    CountCons(first, Sleeping(t), id);
  }

  lemma {:induction false} SleepersRoused(t: Table, other: u32, now: u64, id: u32)
    ensures Count(Sleeping(Roused(t, other, now)), id) +
            (if other == id && StateOf(t, id) == Some(Sleep) then 1 else 0) == Count(Sleeping(t), id)
  {
    if t == [] {
    } else {
      assert t == [t[0]] + t[1..];
      SleepersCons(t[0], t[1..], id);
      if t[0].id == other {
        SleepersCons(Entry(other, Active, now), t[1..], id);
      } else {
        SleepersRoused(t[1..], other, now, id);
        SleepersCons(t[0], Roused(t[1..], other, now), id);
      }
    }
  }

  lemma {:induction false} SleepersTicked(t: Table, now: u64, timeout: u64, id: u32)
    ensures Count(Sleeping(Ticked(t, now, timeout)), id) ==
            Count(Sleeping(t), id) + Count(Reported(t, now, timeout), id)
  {
    if t == [] {
    } else {
      assert t == [t[0]] + t[1..];
      SleepersTicked(t[1..], now, timeout, id);
      SleepersCons(t[0], t[1..], id);
      SleepersCons(TickedEntry(t[0], now, timeout), Ticked(t[1..], now, timeout), id);
      CountCons(if Due(t[0], now, timeout) then [t[0].id] else [], Reported(t[1..], now, timeout), id);
    }
  }

  lemma {:induction false} SleepersAppended(t: Table, e: Entry)
    requires e.state != Sleep
    ensures Sleeping(t + [e]) == Sleeping(t)
  {
    if t == [] {
      assert [e][1..] == [];
    } else {
      SleepersAppended(t[1..], e);
      assert (t + [e])[1..] == t[1..] + [e];
    }
  }

  /** Main result: every report of a display is answered by a rousing, or the display is still on the sleeping list. */
  lemma {:induction false} ReportsConserved(timeout: u64, events: seq<Event>, id: u32)
    ensures Reports(timeout, events, id) ==
            Rousings(timeout, events, id) + Count(Sleeping(Run(timeout, events)), id)
  {
    if events == [] {
    } else {
      var front, e := events[..|events| - 1], events[|events| - 1];
      var t := Run(timeout, front);
      ReportsConserved(timeout, front, id);
      match e
      case Register(i, now) => SleepersAppended(t, Entry(i, Active, now));
      case Touch(i, now) => SleepersRoused(t, i, now, id);
      case Wake(i, now) => SleepersRoused(t, i, now, id);
      case Tick(now) => SleepersTicked(t, now, timeout, id);
    }
  }

  // ---------- the sleeping list ----------

  /** The sleeping list holds exactly the displays whose state is asleep, each once. */
  ghost predicate ListingAgrees(t: Table) {
    forall id: u32 :: Count(Sleeping(t), id) == if StateOf(t, id) == Some(Sleep) then 1 else 0
  }

  /** An earlier entry has the same id, so touches, wakes and lookups never reach this one. */
  predicate Shadowed(t: Table, j: nat) {
    j < |t| && exists i :: 0 <= i < j && t[i].id == t[j].id
  }

  lemma {:induction false} NoneListed(t: Table, id: u32)
    requires forall j :: 0 <= j < |t| && t[j].id == id ==> t[j].state != Sleep
    ensures Count(Sleeping(t), id) == 0
  {
    if t == [] {
    } else {
      NoneListed(t[1..], id);
      SleepersCons(t[0], t[1..], id);
      assert t == [t[0]] + t[1..];
    }
  }

  /** While no shadowed entry sleeps, a display is on the list once if its state is asleep and not at all otherwise. */
  lemma {:induction false} SleepersOf(t: Table, id: u32)
    requires forall j: nat :: Shadowed(t, j) ==> t[j].state != Sleep
    ensures Count(Sleeping(t), id) == if StateOf(t, id) == Some(Sleep) then 1 else 0
  {
    if t == [] {
    } else {
      var rest := t[1..];
      assert t == [t[0]] + rest;
      SleepersCons(t[0], rest, id);
      if t[0].id == id {
        forall j | 0 <= j < |rest| && rest[j].id == id ensures rest[j].state != Sleep {
          assert t[0].id == t[j + 1].id && Shadowed(t, j + 1);
        }
        NoneListed(rest, id);
      } else {
        forall j: nat | Shadowed(rest, j) ensures rest[j].state != Sleep {
          var i :| 0 <= i < j && rest[i].id == rest[j].id;
          assert t[i + 1].id == t[j + 1].id && Shadowed(t, j + 1);
        }
        SleepersOf(rest, id);
      }
    }
  }

  lemma {:induction false} SleeperCounted(t: Table, j: nat)
    requires j < |t| && t[j].state == Sleep
    ensures Count(Sleeping(t), t[j].id) > 0
  {
    assert t == [t[0]] + t[1..];
    SleepersCons(t[0], t[1..], t[j].id);
    if j == 0 {
    } else {
      SleeperCounted(t[1..], j - 1);
    }
  }

  /** A shadowed sleeper is one listing too many for its display. */
  lemma {:induction false} ShadowedShows(t: Table, j: nat)
    requires Shadowed(t, j) && t[j].state == Sleep
    ensures Count(Sleeping(t), t[j].id) > if StateOf(t, t[j].id) == Some(Sleep) then 1 else 0
  {
    var rest := t[1..];
    assert t == [t[0]] + rest;
    SleepersCons(t[0], rest, t[j].id);
    if t[0].id == t[j].id {
      SleeperCounted(rest, j - 1);
    } else {
      var i :| 0 <= i < j && t[i].id == t[j].id;
      assert rest[i - 1].id == rest[j - 1].id;
      ShadowedShows(rest, j - 1);
    }
  }

  predicate SameIds(t: Table, r: Table) {
    |r| == |t| && forall i :: 0 <= i < |t| ==> r[i].id == t[i].id
  }

  lemma {:induction false} IdsKept(t: Table, id: u32, now: u64, timeout: u64)
    ensures SameIds(t, Roused(t, id, now)) && SameIds(t, Ticked(t, now, timeout))
  {
    if t == [] {
    } else {
      IdsKept(t[1..], id, now, timeout);
    }
  }

  /** A call appends at most one entry and keeps the ids of the others, hence what is shadowed. */
  lemma ShadowsKept(timeout: u64, t: Table, e: Event)
    ensures var r := Step(timeout, t, e);
            && |r| == |t| + (if e.Register? then 1 else 0)
            && (forall i :: 0 <= i < |t| ==> r[i].id == t[i].id)
            && (forall j: nat :: j < |t| ==> (Shadowed(r, j) <==> Shadowed(t, j)))
  {
    match e
    case Register(_, _) =>
    case Touch(id, now) => IdsKept(t, id, now, timeout);
    case Wake(id, now) => IdsKept(t, id, now, timeout);
    case Tick(now) => IdsKept(t, 0, now, timeout);
  }

  lemma {:induction false} RousedElsewhere(t: Table, j: nat, id: u32, now: u64)
    requires j < |t| && (t[j].id == id ==> Shadowed(t, j))
    ensures Roused(t, id, now)[j] == t[j]
  {
    if t[0].id == id {
    } else if j == 0 {
    } else {
      if t[j].id == id {
        var i :| 0 <= i < j && t[i].id == id;
        assert t[1..][i - 1].id == t[1..][j - 1].id;
      }
      RousedElsewhere(t[1..], j - 1, id, now);
    }
  }

  lemma {:induction false} TickedAt(t: Table, j: nat, now: u64, timeout: u64)
    requires j < |t|
    ensures Ticked(t, now, timeout)[j] == TickedEntry(t[j], now, timeout)
  {
    if j == 0 {
    } else {
      TickedAt(t[1..], j - 1, now, timeout);
    }
  }

  lemma {:induction false} LookupInTable(t: Table, id: u32)
    ensures Lookup(t, id).Some? <==> exists i :: 0 <= i < |t| && t[i].id == id
  {
    if t == [] {
    } else {
      LookupInTable(t[1..], id);
      if exists i :: 0 <= i < |t| && t[i].id == id {
        var i :| 0 <= i < |t| && t[i].id == id;
        if i > 0 {
          assert t[1..][i - 1].id == id;
        }
      }
      if Lookup(t[1..], id).Some? {
        var i :| 0 <= i < |t[1..]| && t[1..][i].id == id;
        assert t[i + 1].id == id;
      }
    }
  }

  // ---------- repeated registrations ----------

  /** Call `k` registered a display that was registered already. */
  predicate IsRepeat(events: seq<Event>, k: nat) {
    k < |events| && events[k].Register? && Registered(events[..k], events[k].id)
  }

  lemma RepeatKept(events: seq<Event>, more: seq<Event>, k: nat)
    requires k < |events|
    ensures IsRepeat(events + more, k) <==> IsRepeat(events, k)
  {
    assert (events + more)[..k] == events[..k];
  }

  /** The entry that registration `k` appended: shadowed if it was a repeat. */
  lemma AppendedShadowed(timeout: u64, front: seq<Event>, e: Event)
    requires e.Register?
    ensures var t := Run(timeout, front);
            Shadowed(Step(timeout, t, e), |t|) <==> Registered(front, e.id)
  {
    var t := Run(timeout, front);
    var _ := LastActivity(timeout, front, e.id);
    LookupInTable(t, e.id);
    var r := t + [Entry(e.id, Active, e.now)];
    forall i | 0 <= i < |t| ensures r[i] == t[i] {}
    hide Run, Lookup, Registered;
  }

  /** A repeated registration keeps its time and is put to sleep by the first overdue tick, whatever else is called. */
  lemma {:induction false} ShadowedHistory(timeout: u64, events: seq<Event>, k: nat)
    requires IsRepeat(events, k)
    ensures var t, j := Run(timeout, events), |Run(timeout, events[..k])|;
            && Shadowed(t, j)
            && t[j] == Entry(events[k].id, if Overdue(events, k, timeout) then Sleep else Active, events[k].now)
  {
    var n := |events| - 1;
    var front, e := events[..n], events[n];
    assert events == front + [e];
    if k == n {
      AppendedShadowed(timeout, front, e);
    } else {
      var t, j := Run(timeout, front), |Run(timeout, events[..k])|;
      RepeatKept(front, [e], k);
      assert front[..k] == events[..k];
      ShadowedHistory(timeout, front, k);
      ShadowsKept(timeout, t, e);
      OverdueKept(front, e, k, timeout);
      hide Shadowed, Overdue;
      match e
      case Register(_, _) =>
      case Touch(id, now) => RousedElsewhere(t, j, id, now);
      case Wake(id, now) => RousedElsewhere(t, j, id, now);
      case Tick(now) => TickedAt(t, j, now, timeout);
    }
  }

  /** Conversely every shadowed entry was appended by a repeated registration. */
  lemma {:induction false} ShadowedOrigin(timeout: u64, events: seq<Event>, j: nat) returns (k: nat)
    requires Shadowed(Run(timeout, events), j)
    ensures IsRepeat(events, k) && j == |Run(timeout, events[..k])|
  {
    var n := |events| - 1;
    var front, e := events[..n], events[n];
    assert events == front + [e];
    ShadowsKept(timeout, Run(timeout, front), e);
    if j < |Run(timeout, front)| {
      k := ShadowedOrigin(timeout, front, j);
      RepeatKept(front, [e], k);
      assert front[..k] == events[..k];
    } else {
      k := n;
      AppendedShadowed(timeout, front, e);
    }
  }

  /**
   * Main result: after any calls the sleeping list is faithful exactly when no tick came more than the timeout after
   * a repeated registration. Touching or waking the display in between does not help.
   */
  lemma ListingFaithfulIff(timeout: u64, events: seq<Event>)
    ensures ListingAgrees(Run(timeout, events)) <==>
            forall k: nat :: IsRepeat(events, k) ==> !Overdue(events, k, timeout)
  {
    hide Run, Overdue, Registered, StateOf;
    var t := Run(timeout, events);
    if k: nat :| IsRepeat(events, k) && Overdue(events, k, timeout) {
      ShadowedHistory(timeout, events, k);
      ShadowedShows(t, |Run(timeout, events[..k])|);
    } else {
      forall j: nat | Shadowed(t, j) ensures j < |t| && t[j].state != Sleep {
        var k := ShadowedOrigin(timeout, events, j);
        ShadowedHistory(timeout, events, k);
      }
      forall id: u32 ensures Count(Sleeping(t), id) == if StateOf(t, id) == Some(Sleep) then 1 else 0 {
        SleepersOf(t, id);
      }
    }
  }

  /** No display is registered twice. */
  predicate RegisteredOnce(events: seq<Event>) {
    forall k :: 0 <= k < |events| ==> !IsRepeat(events, k)
  }

  /** In particular the list is faithful after every run that registers each display once. */
  lemma OnceListsFaithfully(timeout: u64, events: seq<Event>)
    requires RegisteredOnce(events)
    ensures ListingAgrees(Run(timeout, events))
  {
    ListingFaithfulIff(timeout, events);
  }

  predicate NoRegistration(events: seq<Event>) {
    forall k :: 0 <= k < |events| ==> !events[k].Register?
  }

  /** No 64-bit time is more than the timeout after `since`. */
  predicate NeverOverdue(since: u64, timeout: u64) {
    since + timeout >= U64_SPAN - 1
  }

  /** One late tick exposes a repeated registration. */
  lemma LateTickExposes(timeout: u64, events: seq<Event>, k: nat)
    requires IsRepeat(events, k) && !NeverOverdue(events[k].now, timeout)
    ensures !ListingAgrees(Run(timeout, events + [Tick(events[k].now + timeout + 1)]))
  {
    var e := Tick(events[k].now + timeout + 1);
    RepeatKept(events, [e], k);
    OverdueKept(events, e, k, timeout);
    ListingFaithfulIff(timeout, events + [e]);
  }

  lemma RepeatInEvents(events: seq<Event>, more: seq<Event>, k: nat)
    requires NoRegistration(more) && IsRepeat(events + more, k)
    ensures k < |events| && IsRepeat(events, k) && (events + more)[k] == events[k]
  {
    if k < |events| {
      RepeatKept(events, more, k);
    }
  }

  /**
   * Main result: the sleeping list stays faithful under every continuation without registrations exactly when every
   * repeated registration came so late that no 64-bit time can be overdue for it.
   */
  lemma ListingStaysFaithfulIff(timeout: u64, events: seq<Event>)
    ensures (forall more :: NoRegistration(more) ==> ListingAgrees(Run(timeout, events + more)))
            <==> forall k: nat :: IsRepeat(events, k) ==> NeverOverdue(events[k].now, timeout)
  {
    hide Run, ListingAgrees, Registered;
    if k: nat :| IsRepeat(events, k) && !NeverOverdue(events[k].now, timeout) {
      LateTickExposes(timeout, events, k);
      assert NoRegistration([Tick(events[k].now + timeout + 1)]);
    } else {
      forall more | NoRegistration(more) ensures ListingAgrees(Run(timeout, events + more)) {
        var all := events + more;
        forall k: nat | IsRepeat(all, k) ensures k < |all| && !all[k].Tick? && !Overdue(all, k, timeout) {
          RepeatInEvents(events, more, k);
        }
        ListingFaithfulIff(timeout, all);
      }
    }
  }

  /** A run that fails: the list shows the display twice although it is registered under one id. */
  lemma RepeatFails()
    ensures !ListingAgrees(Run(5000, [Register(1, 0), Register(1, 0), Tick(5001)]))
  {
    var events := [Register(1, 0), Register(1, 0)];
    assert events[..1][0] == Register(1, 0);
    LateTickExposes(5000, events, 1);
    assert events + [Tick(5001)] == [Register(1, 0), Register(1, 0), Tick(5001)];
  }

  // ---------- the unused state ----------

  lemma {:induction false} RousedAt(t: Table, j: nat, id: u32, now: u64)
    requires j < |t|
    ensures Roused(t, id, now)[j] == t[j] || Roused(t, id, now)[j].state == Active
  {
    if j == 0 || t[0].id == id {
    } else {
      RousedAt(t[1..], j - 1, id, now);
    }
  }

  lemma {:induction false} NeverWaking(timeout: u64, events: seq<Event>, j: nat)
    requires j < |Run(timeout, events)|
    ensures Run(timeout, events)[j].state != Waking
  {
    var front, e := events[..|events| - 1], events[|events| - 1];
    var t := Run(timeout, front);
    if j < |t| {
      NeverWaking(timeout, front, j);
      match e
      case Register(_, _) =>
      case Touch(id, now) => RousedAt(t, j, id, now);
      case Wake(id, now) => RousedAt(t, j, id, now);
      case Tick(now) => TickedAt(t, j, now, timeout);
    }
  }

  // ---------- tick schedules ----------

  function AllTicked(t: Table, times: seq<u64>, timeout: u64): Table
    decreases |times|
  {
    if times == [] then t else AllTicked(Ticked(t, times[0], timeout), times[1..], timeout)
  }

  /** Everything that the ticks of a schedule report. */
  function AllReported(t: Table, times: seq<u64>, timeout: u64): seq<u32>
    decreases |times|
  {
    if times == [] then []
    else Reported(t, times[0], timeout) + AllReported(Ticked(t, times[0], timeout), times[1..], timeout)
  }

  function Latest(times: seq<u64>): u64
    requires times != []
  {
    if |times| == 1 || Latest(times[1..]) < times[0] then times[0] else Latest(times[1..])
  }

  lemma {:induction false} TwoTicks(t: Table, a: u64, b: u64, timeout: u64)
    ensures Ticked(Ticked(t, a, timeout), b, timeout) == Ticked(t, if a < b then b else a, timeout)
    ensures multiset(Reported(t, a, timeout)) + multiset(Reported(Ticked(t, a, timeout), b, timeout)) ==
            multiset(Reported(t, if a < b then b else a, timeout))
  {
    if t == [] {
    } else {
      TwoTicks(t[1..], a, b, timeout);
    }
  }

  lemma FirstTick(t: Table, times: seq<u64>, timeout: u64)
    requires times != []
    ensures var u := Ticked(t, times[0], timeout);
            && AllTicked(t, times, timeout) == AllTicked(u, times[1..], timeout)
            && AllReported(t, times, timeout) == Reported(t, times[0], timeout) + AllReported(u, times[1..], timeout)
            && (|times| == 1 ==> AllTicked(u, times[1..], timeout) == u && AllReported(u, times[1..], timeout) == [])
  {
  }

  /**
   * Main result: with no activity in between, any schedule of ticks, in any order, leaves the same table as one tick
   * at its latest time, and its reports together are a permutation of what that one tick reports.
   */
  lemma {:induction false} ScheduleIndependence(t: Table, times: seq<u64>, timeout: u64)
    requires times != []
    ensures AllTicked(t, times, timeout) == Ticked(t, Latest(times), timeout)
    ensures multiset(AllReported(t, times, timeout)) == multiset(Reported(t, Latest(times), timeout))
    decreases |times|
  {
    hide Ticked, Reported, AllTicked, AllReported;
    FirstTick(t, times, timeout);
    if |times| == 1 {
    } else {
      ScheduleIndependence(Ticked(t, times[0], timeout), times[1..], timeout);
      TwoTicks(t, times[0], Latest(times[1..]), timeout);
    }
  }
}
