/** What the power table says about the calls that led to it. */
module PowerHistory {
  import opened Bytes
  import opened Power

  // ---------- how each call changes the first entry of a display ----------

  lemma {:induction false} LookupRoused(t: Table, other: u32, now: u64, id: u32)
    ensures Lookup(Roused(t, other, now), id) ==
            if id == other && Lookup(t, id).Some? then Some(Entry(id, Active, now)) else Lookup(t, id)
  {
    if t == [] {
    } else {
      LookupRoused(t[1..], other, now, id);
    }
  }

  lemma {:induction false} LookupAppended(t: Table, e: Entry, id: u32)
    ensures Lookup(t + [e], id) ==
            if Lookup(t, id).Some? then Lookup(t, id) else if e.id == id then Some(e) else None
  {
    if t == [] {
      assert [e][1..] == [];
    } else {
      LookupAppended(t[1..], e, id);
      assert (t + [e])[1..] == t[1..] + [e];
    }
  }

  lemma {:induction false} LookupTicked(t: Table, now: u64, timeout: u64, id: u32)
    ensures Lookup(Ticked(t, now, timeout), id) ==
            match Lookup(t, id) case None => None case Some(e) => Some(TickedEntry(e, now, timeout))
  {
    if t == [] {
    } else {
      LookupTicked(t[1..], now, timeout, id);
    }
  }

  // ---------- the state as a predicate on the calls ----------

  predicate Registered(events: seq<Event>, id: u32) {
    exists j :: 0 <= j < |events| && events[j].Register? && events[j].id == id
  }

  /** Call number `k` was activity of a display: its first registration, or a touch or wake after that. */
  predicate IsActivity(events: seq<Event>, id: u32, k: nat) {
    && k < |events|
    && match events[k]
       case Register(i, _) => i == id && !Registered(events[..k], id)
       case Touch(i, _) => i == id && Registered(events[..k], id)
       case Wake(i, _) => i == id && Registered(events[..k], id)
       case Tick(_) => false
  }

  predicate IsLastActivity(events: seq<Event>, id: u32, k: nat) {
    IsActivity(events, id, k) && forall j :: k < j < |events| ==> !IsActivity(events, id, j)
  }

  /** Some tick after call `k` came more than the timeout after it. */
  predicate Overdue(events: seq<Event>, k: nat, timeout: u64)
    requires k < |events| && !events[k].Tick?
  {
    exists j :: k < j < |events| && events[j].Tick? && SaturatingSub(events[j].now, events[k].now) > timeout
  }

  lemma ActivityKept(events: seq<Event>, e: Event, id: u32)
    ensures forall k: nat :: k < |events| ==> (IsActivity(events + [e], id, k) <==> IsActivity(events, id, k))
    ensures Registered(events + [e], id) <==> Registered(events, id) || (e.Register? && e.id == id)
  {
    var all := events + [e];
    forall k: nat | k < |events| ensures IsActivity(all, id, k) <==> IsActivity(events, id, k) {
      assert all[..k] == events[..k];
    }
    if Registered(events, id) {
      var j :| 0 <= j < |events| && events[j].Register? && events[j].id == id;
      assert all[j] == events[j];
    }
    if e.Register? && e.id == id {
      assert all[|events|] == e;
    }
  }

  lemma OverdueKept(events: seq<Event>, e: Event, k: nat, timeout: u64)
    requires k < |events| && !events[k].Tick?
    ensures Overdue(events + [e], k, timeout) <==>
            Overdue(events, k, timeout) || (e.Tick? && SaturatingSub(e.now, events[k].now) > timeout)
  {
    var all := events + [e];
    if Overdue(events, k, timeout) {
      var j :| k < j < |events| && events[j].Tick? && SaturatingSub(events[j].now, events[k].now) > timeout;
      assert all[j] == events[j];
    }
    if e.Tick? && SaturatingSub(e.now, events[k].now) > timeout {
      assert all[|events|] == e;
    }
  }

  /** The first entry of a registered display, told by its last activity. */
  predicate Tells(events: seq<Event>, timeout: u64, k: nat, e: Entry)
    requires k < |events| && !events[k].Tick?
  {
    e.lastActive == events[k].now && e.state == if Overdue(events, k, timeout) then Sleep else Active
  }

  lemma {:induction false} LastActivity(timeout: u64, events: seq<Event>, id: u32) returns (k: nat)
    ensures Registered(events, id) <==> Lookup(Run(timeout, events), id).Some?
    ensures Registered(events, id) ==>
              && IsLastActivity(events, id, k)
              && Tells(events, timeout, k, Lookup(Run(timeout, events), id).value)
  {
    k := 0;
    if events == [] {
    } else {
      var n := |events| - 1;
      var front, e := events[..n], events[n];
      assert events == front + [e];
      k := LastActivity(timeout, front, id);
      var t := Run(timeout, front);
      ActivityKept(front, e, id);
      match e {
        case Register(i, now) => LookupAppended(t, Entry(i, Active, now), id);
        case Touch(i, now) => LookupRoused(t, i, now, id);
        case Wake(i, now) => LookupRoused(t, i, now, id);
        case Tick(now) => LookupTicked(t, now, timeout, id);
      }
      assert events[..n] == front;
      if IsActivity(events, id, n) {
        k := n;
      } else if Registered(front, id) {
        OverdueKept(front, e, k, timeout);
      }
    }
  }

  lemma ActivityNeedsRegistration(events: seq<Event>, id: u32, k: nat)
    requires IsActivity(events, id, k)
    ensures Registered(events, id)
  {
    if !events[k].Register? {
      var j :| 0 <= j < k && events[..k][j].Register? && events[..k][j].id == id;
      assert events[j].Register? && events[j].id == id;
    }
  }

  /**
   * Main result: whatever the calls and the clock, a display is unknown before its registration, and after it asleep
   * exactly when some tick came too long after its last activity. It is never found waking.
   */
  lemma StateByHistory(timeout: u64, events: seq<Event>, id: u32)
    ensures !Registered(events, id) ==> StateOf(Run(timeout, events), id) == None
    ensures forall k: nat :: IsLastActivity(events, id, k) ==>
              StateOf(Run(timeout, events), id) == Some(if Overdue(events, k, timeout) then Sleep else Active)
    ensures Registered(events, id) <==> exists k: nat :: IsLastActivity(events, id, k)
  {
    var k := LastActivity(timeout, events, id);
    forall j: nat | IsLastActivity(events, id, j)
      ensures Registered(events, id) && j == k
    {
      ActivityNeedsRegistration(events, id, j);
    }
  }
}
