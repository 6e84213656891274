/** Sleep and wake of virtual displays. */
module Power {
  import opened Bytes

  datatype PowerState = Active | Sleep | Waking

  /** Times are 64-bit milliseconds, so an entry that was active late enough can never become overdue. */
  datatype Entry = Entry(id: u32, state: PowerState, lastActive: u64)

  type Table = seq<Entry>

  datatype SessionError = NotRegistered(id: u32)

  datatype Event = Register(id: u32, now: u64) | Touch(id: u32, now: u64) | Wake(id: u32, now: u64) | Tick(now: u64)

  /** The first entry of a display. */
  function Lookup(t: Table, id: u32): Option<Entry> {
    if t == [] then None else if t[0].id == id then Some(t[0]) else Lookup(t[1..], id)
  }

  /** The table with the first entry of a display made active. */
  function Roused(t: Table, id: u32, now: u64): (r: Table)
    ensures |r| == |t|
  {
    if t == [] then []
    else if t[0].id == id then [Entry(id, Active, now)] + t[1..]
    else [t[0]] + Roused(t[1..], id, now)
  }

  predicate Due(e: Entry, now: u64, timeout: u64) {
    e.state == Active && SaturatingSub(now, e.lastActive) > timeout
  }

  function TickedEntry(e: Entry, now: u64, timeout: u64): Entry {
    if Due(e, now, timeout) then e.(state := Sleep) else e
  }

  function Ticked(t: Table, now: u64, timeout: u64): (r: Table)
    ensures |r| == |t|
  {
    if t == [] then [] else [TickedEntry(t[0], now, timeout)] + Ticked(t[1..], now, timeout)
  }

  /** The displays that a tick puts to sleep, in table order. */
  function Reported(t: Table, now: u64, timeout: u64): seq<u32> {
    if t == [] then []
    else (if Due(t[0], now, timeout) then [t[0].id] else []) + Reported(t[1..], now, timeout)
  }

  function Sleeping(t: Table): seq<u32> {
    if t == [] then [] else (if t[0].state == Sleep then [t[0].id] else []) + Sleeping(t[1..])
  }

  function StateOf(t: Table, id: u32): Option<PowerState> {
    match Lookup(t, id)
    case None => None
    case Some(e) => Some(e.state)
  }

  function Step(timeout: u64, t: Table, e: Event): Table {
    match e
    case Register(id, now) => t + [Entry(id, Active, now)]
    case Touch(id, now) => Roused(t, id, now)
    case Wake(id, now) => Roused(t, id, now)
    case Tick(now) => Ticked(t, now, timeout)
  }

  function Run(timeout: u64, events: seq<Event>): Table {
    if events == [] then [] else Step(timeout, Run(timeout, events[..|events| - 1]), events[|events| - 1])
  }

  lemma {:induction false} FirstMatch(t: Table, i: nat, id: u32, now: u64)
    requires i < |t| && t[i].id == id && forall j :: 0 <= j < i ==> t[j].id != id
    ensures Lookup(t, id) == Some(t[i])
    ensures Roused(t, id, now) == t[i := Entry(id, Active, now)]
  {
    if i == 0 {
    } else {
      FirstMatch(t[1..], i - 1, id, now);
    }
  }

  lemma {:induction false} NoMatch(t: Table, id: u32, now: u64)
    requires forall j :: 0 <= j < |t| ==> t[j].id != id
    ensures Lookup(t, id) == None
    ensures Roused(t, id, now) == t
  {
    if t == [] {
    } else {
      NoMatch(t[1..], id, now);
    }
  }

  lemma {:induction false} FirstOrNone(t: Table, id: u32)
    ensures StateOf(t, id) == None <==> forall i :: 0 <= i < |t| ==> t[i].id != id
    ensures StateOf(t, id).Some? ==>
              exists i :: 0 <= i < |t| && t[i].id == id && t[i].state == StateOf(t, id).value
                          && forall j :: 0 <= j < i ==> t[j].id != id
  {
    if t == [] {
    } else if t[0].id == id {
      assert t[0].state == StateOf(t, id).value;
    } else {
      FirstOrNone(t[1..], id);
      assert StateOf(t, id) == StateOf(t[1..], id);
      if StateOf(t, id).Some? {
        var i :| 0 <= i < |t| - 1 && t[1..][i].id == id && t[1..][i].state == StateOf(t, id).value
                 && forall j :: 0 <= j < i ==> t[1..][j].id != id;
        assert t[i + 1].id == id && forall j :: 0 < j < i + 1 ==> t[j].id == t[1..][j - 1].id;
      } else {
        assert forall i :: 0 < i < |t| ==> t[i].id == t[1..][i - 1].id;
      }
    }
  }

  /** A tick of the table from entry `i` on treats that entry first. */
  lemma TickFrom(t: Table, i: nat, now: u64, timeout: u64)
    requires i < |t|
    ensures Ticked(t[i..], now, timeout) == [TickedEntry(t[i], now, timeout)] + Ticked(t[i + 1..], now, timeout)
    ensures Reported(t[i..], now, timeout) ==
            (if Due(t[i], now, timeout) then [t[i].id] else []) + Reported(t[i + 1..], now, timeout)
  {
    assert t[i..][1..] == t[i + 1..];
  }

  // ---------- the lists ----------

  /** The ids at these places of the table, which are in order. */
  predicate ListedAt(t: Table, ids: seq<u32>, at: seq<nat>) {
    && |at| == |ids|
    && (forall n :: 0 <= n < |at| ==> at[n] < |t| && t[at[n]].id == ids[n])
    && (forall m, n :: 0 <= m < n < |at| ==> at[m] < at[n])
  }

  /** The same places behind one more entry. */
  function Further(at: seq<nat>): (r: seq<nat>)
    ensures |r| == |at|
  {
    seq(|at|, n requires 0 <= n < |at| => at[n] + 1)
  }

  /** These places, and the first one if it is listed `also`. */
  function Places(also: bool, at: seq<nat>): seq<nat> {
    (if also then [0] else []) + Further(at)
  }

  lemma PlacesHold(also: bool, at: seq<nat>, i: nat)
    ensures i in Places(also, at) <==> if i == 0 then also else i - 1 in at
  {
    if i > 0 && i - 1 in at {
      var n :| 0 <= n < |at| && at[n] == i - 1;
      assert Further(at)[n] == i;
    }
  }

  lemma ListedFurther(t: Table, ids: seq<u32>, at: seq<nat>, e: Entry, also: bool)
    requires ListedAt(t, ids, at)
    ensures ListedAt([e] + t, (if also then [e.id] else []) + ids, Places(also, at))
  {
    var later := Further(at);
    assert forall n :: 0 <= n < |at| ==> ([e] + t)[later[n]] == t[at[n]];
  }

  /** Main result: the sleeping list holds the ids of exactly the sleeping entries, once each and in table order. */
  lemma {:induction false} SleepingInOrder(t: Table) returns (at: seq<nat>)
    ensures ListedAt(t, Sleeping(t), at)
    ensures forall i: nat :: i in at <==> i < |t| && t[i].state == Sleep
  {
    if t == [] {
      at := [];
    } else {
      var rest := SleepingInOrder(t[1..]);
      assert t == [t[0]] + t[1..];
      at := Places(t[0].state == Sleep, rest);
      ListedFurther(t[1..], Sleeping(t[1..]), rest, t[0], t[0].state == Sleep);
      hide ListedAt, Places;
      forall i: nat ensures i in at <==> i < |t| && t[i].state == Sleep {
        PlacesHold(t[0].state == Sleep, rest, i);
      }
    }
  }

  /** Main result: a tick reports exactly the active entries older than the timeout, once each and in table order. */
  lemma {:induction false} ReportedInOrder(t: Table, now: u64, timeout: u64) returns (at: seq<nat>)
    ensures ListedAt(t, Reported(t, now, timeout), at)
    ensures forall i: nat :: i in at <==> i < |t| && t[i].state == Active && t[i].lastActive + timeout < now
  {
    if t == [] {
      at := [];
    } else {
      var rest := ReportedInOrder(t[1..], now, timeout);
      assert t == [t[0]] + t[1..];
      at := Places(Due(t[0], now, timeout), rest);
      ListedFurther(t[1..], Reported(t[1..], now, timeout), rest, t[0], Due(t[0], now, timeout));
      hide ListedAt, Places;
      forall i: nat ensures i in at <==> i < |t| && t[i].state == Active && t[i].lastActive + timeout < now {
        PlacesHold(Due(t[0], now, timeout), rest, i);
      }
    }
  }

  // ---------- the object ----------

  class PowerManager {
    const timeoutMs: u64
    var states: Table

    constructor (timeoutMs: u64)
      ensures this.timeoutMs == timeoutMs && states == []
    {
      this.timeoutMs, states := timeoutMs, [];
    }

    method Register(displayId: u32, nowMs: u64)
      modifies this
      ensures states == Step(timeoutMs, old(states), Event.Register(displayId, nowMs))
    {
      states := states + [Entry(displayId, Active, nowMs)];
    }

    method Touch(displayId: u32, nowMs: u64)
      modifies this
      ensures states == Step(timeoutMs, old(states), Event.Touch(displayId, nowMs))
    {
      for i := 0 to |states|
        invariant states == old(states)
        invariant forall j :: 0 <= j < i ==> states[j].id != displayId
      {
        if states[i].id == displayId {
          FirstMatch(states, i, displayId, nowMs);
          states := states[i := Entry(displayId, Active, nowMs)];
          return;
        }
      }
      NoMatch(states, displayId, nowMs);
    }

    method Tick(nowMs: u64) returns (newlySleeping: seq<u32>)
      modifies this
      ensures states == Step(timeoutMs, old(states), Event.Tick(nowMs))
      ensures newlySleeping == Reported(old(states), nowMs, timeoutMs)
    {
      newlySleeping := [];
      ghost var was := states;
      for i := 0 to |states|
        invariant |states| == |was| && states[i..] == was[i..]
        invariant Ticked(was, nowMs, timeoutMs) == states[..i] + Ticked(was[i..], nowMs, timeoutMs)
        invariant Reported(was, nowMs, timeoutMs) == newlySleeping + Reported(was[i..], nowMs, timeoutMs)
      {
        TickFrom(was, i, nowMs, timeoutMs);
        ghost var done := states[..i];
        var e := states[i];
        assert e == was[i];
        if e.state == Active && SaturatingSub(nowMs, e.lastActive) > timeoutMs {
          states := states[i := e.(state := Sleep)];
          newlySleeping := newlySleeping + [e.id];
        }
        assert states[..i + 1] == done + [TickedEntry(e, nowMs, timeoutMs)];
      }
    }

    method Wake(displayId: u32, nowMs: u64) returns (r: Result<(), SessionError>)
      modifies this
      ensures states == Step(timeoutMs, old(states), Event.Wake(displayId, nowMs))
      ensures r == if Lookup(old(states), displayId).Some? then Ok(()) else Err(NotRegistered(displayId))
    {
      for i := 0 to |states|
        invariant states == old(states)
        invariant forall j :: 0 <= j < i ==> states[j].id != displayId
      {
        if states[i].id == displayId {
          FirstMatch(states, i, displayId, nowMs);
          states := states[i := Entry(displayId, Active, nowMs)];
          return Ok(());
        }
      }
      NoMatch(states, displayId, nowMs);
      return Err(NotRegistered(displayId));
    }

    function State(displayId: u32): (s: Option<PowerState>)
      reads this
      ensures s == None <==> forall i :: 0 <= i < |states| ==> states[i].id != displayId
      ensures s.Some? ==>
                exists i :: 0 <= i < |states| && states[i].id == displayId && states[i].state == s.value
                            && forall j :: 0 <= j < i ==> states[j].id != displayId
    {
      FirstOrNone(states, displayId);
      StateOf(states, displayId)
    }

    function SleepingDisplays(): seq<u32>
      reads this
    {
      Sleeping(states)
    }
  }
}
