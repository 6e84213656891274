/** What every run of registrations and removals keeps. */
module WallRegistry {
  import opened Bytes
  import opened Displays
  import opened VirtualDisplays
  import opened Wall

  /** The number of registrations in a run. */
  function Adds(events: seq<Event>): nat {
    if events == [] then 0
    else Adds(events[..|events| - 1]) + if events[|events| - 1].Add? then 1 else 0
  }

  /** The number of registrations of an address that was on the wall at that moment. */
  function Repeats(events: seq<Event>): nat {
    if events == [] then 0
    else
      var front, e := events[..|events| - 1], events[|events| - 1];
      Repeats(front) + if e.Add? && e.addr in Run(front).clients then 1 else 0
  }

  /** The allocator has issued every id from the first up to `nextId`, and only live ones are listed. */
  predicate SoundAllocator(a: Allocator) {
    && Distinct(a.displays)
    && forall d :: d in a.displays ==> FIRST_ID <= d.id < a.nextId
  }

  predicate Lives(a: Allocator, id: u32) {
    exists d :: d in a.displays && d.id == id
  }

  predicate SoundClients(r: Registry) {
    && (forall a :: a in r.clients ==> r.clients[a].addr == a && Lives(r.displays, r.clients[a].displayId))
    && (forall a, b :: a in r.clients && b in r.clients && a != b ==>
          r.clients[a].displayId != r.clients[b].displayId)
  }

  predicate Sound(r: Registry) {
    SoundAllocator(r.displays) && SoundClients(r)
  }

  lemma AddKeepsAllocator(a: Allocator, res: Resolution, hz: u32)
    requires SoundAllocator(a) && FIRST_ID <= a.nextId < U32_SPAN - 1
    ensures SoundAllocator(Created(a, res, hz))
    ensures forall id: u32 :: Lives(Created(a, res, hz), id) <==> Lives(a, id) || id == a.nextId
    ensures !Lives(a, a.nextId)
  {
    var b := Created(a, res, hz);
    var d := VirtualDisplay(a.nextId, res, hz);
    assert forall i :: 0 <= i < |a.displays| ==> a.displays[i] in a.displays;
    assert d in b.displays;
    forall id: u32 | Lives(a, id) ensures Lives(b, id) {
      var x :| x in a.displays && x.id == id;
      assert x in b.displays;
    }
  }

  lemma AddKeepsSound(r: Registry, e: Event)
    requires Sound(r) && e.Add? && FIRST_ID <= r.displays.nextId < U32_SPAN - 1
    ensures Sound(Step(r, e))
  {
    AddKeepsAllocator(r.displays, e.resolution, REFRESH_HZ);
    hide Created, SoundAllocator;
    var s := Step(r, e);
    forall a, b | a in s.clients && b in s.clients && a != b
      ensures s.clients[a].displayId != s.clients[b].displayId
    {
      assert a != e.addr ==> Lives(r.displays, r.clients[a].displayId);
      assert b != e.addr ==> Lives(r.displays, r.clients[b].displayId);
    }
  }

  lemma RemoveKeepsSound(r: Registry, addr: SocketAddr)
    requires Sound(r) && addr in r.clients
    ensures Sound(Step(r, Remove(addr)))
    ensures |Step(r, Remove(addr)).displays.displays| == |r.displays.displays| - 1
  {
    var id := r.clients[addr].displayId;
    var s := Step(r, Remove(addr));
    assert Lives(r.displays, id);
    WithoutOne(r.displays.displays, id);
    forall a | a in s.clients
      ensures s.clients[a].addr == a && Lives(s.displays, s.clients[a].displayId)
    {
      assert a in r.clients && a != addr && Lives(r.displays, r.clients[a].displayId);
      var d :| d in r.displays.displays && d.id == r.clients[a].displayId;
      assert d in s.displays.displays;
    }
  }

  lemma KeysSize(m: Clients)
    ensures |m| == |m.Keys|
  {
  }

  /** A registration issues the next id and grows the wall, unless it replaces a client. */
  lemma AddCounts(r: Registry, e: Event)
    requires e.Add? && r.displays.nextId < U32_SPAN - 1
    ensures var s := Step(r, e);
            && s.displays.nextId == r.displays.nextId + 1
            && |s.displays.displays| == |r.displays.displays| + 1
            && |s.clients| == |r.clients| + if e.addr in r.clients then 0 else 1
  {
    var s := Step(r, e);
    KeysSize(s.clients);
    KeysSize(r.clients);
    assert s.clients.Keys == r.clients.Keys + {e.addr};
    assert e.addr in r.clients ==> s.clients.Keys == r.clients.Keys;
  }

  lemma RemoveCounts(r: Registry, addr: SocketAddr)
    requires addr in r.clients
    ensures var s := Step(r, Remove(addr));
            s.displays.nextId == r.displays.nextId && |s.clients| == |r.clients| - 1
  {
    var s := Step(r, Remove(addr));
    KeysSize(s.clients);
    KeysSize(r.clients);
    assert s.clients.Keys == r.clients.Keys - {addr};
  }

  /**
   * Main result: as long as the 32-bit ids last, after any run the clients have pairwise distinct live displays, the
   * next id has never been issued, and the live displays exceed the clients by exactly the repeated registrations.
   */
  lemma {:induction false} RegistryInvariant(events: seq<Event>)
    requires Adds(events) < U32_SPAN - FIRST_ID
    ensures var r := Run(events);
            && Sound(r)
            && r.displays.nextId == FIRST_ID + Adds(events)
            && |r.displays.displays| == |r.clients| + Repeats(events)
  {
    if events == [] {
    } else {
      var front, e := events[..|events| - 1], events[|events| - 1];
      RegistryInvariant(front);
      var r := Run(front);
      if e.Add? {
        AddKeepsSound(r, e);
        AddCounts(r, e);
        hide Step, Sound;
      } else if e.addr in r.clients {
        RemoveKeepsSound(r, e.addr);
        RemoveCounts(r, e.addr);
        hide Step, Sound;
      }
    }
  }

  /** Removing a client never fails. */
  lemma RemovalNeverFails(events: seq<Event>, addr: SocketAddr)
    requires Adds(events) < U32_SPAN - FIRST_ID
    ensures !RemovalFails(Run(events), addr)
  {
    RegistryInvariant(events);
    if addr in Run(events).clients {
      RemoveKeepsSound(Run(events), addr);
    }
  }

  /** The id that the last registration of a run returns. */
  function IssuedId(events: seq<Event>): u32
    requires events != [] && events[|events| - 1].Add?
  {
    Run(events[..|events| - 1]).displays.nextId
  }

  lemma {:induction false} AddsGrow(early: seq<Event>, late: seq<Event>)
    requires early <= late
    ensures Adds(early) <= Adds(late)
    ensures |early| < |late| && late[|late| - 1].Add? ==> Adds(early) < Adds(late)
  {
    if |early| < |late| {
      AddsGrow(early, late[..|late| - 1]);
    } else {
      assert early == late;
    }
  }

  /** No id is ever issued twice, not even after its display is gone. */
  lemma IdsNeverReused(early: seq<Event>, late: seq<Event>)
    requires early < late && Adds(late) < U32_SPAN - FIRST_ID
    requires early != [] && early[|early| - 1].Add? && late[|late| - 1].Add?
    ensures IssuedId(early) < IssuedId(late)
  {
    var a, b := early[..|early| - 1], late[..|late| - 1];
    AddsGrow(early, b);
    AddsGrow(b, late);
    RegistryInvariant(a);
    RegistryInvariant(b);
  }

  /** Every live display belongs to a client. */
  predicate AllOwned(r: Registry) {
    forall d :: d in r.displays.displays ==> exists a :: a in r.clients && r.clients[a].displayId == d.id
  }

  lemma SubsetSameSize(a: set<u32>, b: set<u32>)
    requires a <= b && |a| == |b|
    ensures a == b
  {
    assert |b - a| == |b| - |a|;
  }

  lemma {:induction false} LiveIds(s: seq<VirtualDisplay>) returns (ids: set<u32>)
    requires Distinct(s)
    ensures |ids| == |s|
    ensures forall id :: id in ids <==> exists d :: d in s && d.id == id
  {
    if s == [] {
      ids := {};
    } else {
      var rest := LiveIds(s[1..]);
      ids := {s[0].id} + rest;
      assert s[0] in s;
      forall d | d in s[1..] ensures d in s && d.id != s[0].id {}
    }
  }

  lemma {:induction false} OwnedIds(m: Clients) returns (ids: set<u32>)
    requires forall a, b :: a in m && b in m && a != b ==> m[a].displayId != m[b].displayId
    ensures |ids| == |m|
    ensures forall id :: id in ids <==> exists a :: a in m && m[a].displayId == id
    decreases |m|
  {
    if m == map[] {
      ids := {};
    } else {
      var a :| a in m;
      var n := m - {a};
      assert n.Keys == m.Keys - {a};
      KeysSize(m);
      KeysSize(n);
      var rest := OwnedIds(n);
      ids := {m[a].displayId} + rest;
      forall b | b in n ensures b in m && n[b] == m[b] && b != a {}
      forall id | id in ids ensures exists b :: b in m && m[b].displayId == id {
        if id in rest {
          var b :| b in n && n[b].displayId == id;
          assert b in m;
        }
      }
      forall b | b in m ensures m[b].displayId in ids {
        if b != a {
          assert b in n;
        }
      }
    }
  }

  /** Main result: live displays and clients correspond one to one exactly when no present address was added again. */
  lemma OwnedIffNoRepeats(events: seq<Event>)
    requires Adds(events) < U32_SPAN - FIRST_ID
    ensures AllOwned(Run(events)) <==> Repeats(events) == 0
  {
    RegistryInvariant(events);
    var r := Run(events);
    var live := LiveIds(r.displays.displays);
    var owned := OwnedIds(r.clients);
    assert owned <= live by {
      forall id | id in owned ensures id in live {
        var a :| a in r.clients && r.clients[a].displayId == id;
        assert Lives(r.displays, id);
      }
    }
    if Repeats(events) == 0 {
      SubsetSameSize(owned, live);
      forall d | d in r.displays.displays
        ensures exists a :: a in r.clients && r.clients[a].displayId == d.id
      {
        assert d.id in owned;
      }
    }
    if AllOwned(r) {
      forall id | id in live ensures id in owned {
        var d :| d in r.displays.displays && d.id == id;
      }
      assert owned == live;
    }
  }

  /** Adding an address that is on the wall leaks the display of the client it replaces. */
  lemma RepeatLeaks(events: seq<Event>, e: Event)
    requires Adds(events) < U32_SPAN - FIRST_ID - 1
    requires e.Add? && e.addr in Run(events).clients
    ensures !AllOwned(Run(events + [e]))
  {
    hide Run, AllOwned;
    assert (events + [e])[..|events|] == events;
    OwnedIffNoRepeats(events + [e]);
  }

  /** A wall that leaks: one client added twice leaves display 100 to nobody. */
  lemma LeakExample(addr: SocketAddr, res: Resolution)
    ensures !AllOwned(Run([Add(addr, 0, 0, res), Add(addr, 1, 0, res)]))
  {
    var first, second := Add(addr, 0, 0, res), Add(addr, 1, 0, res);
    assert [first][..0] == [];
    assert Run([first]) == Step(NO_CLIENTS, first);
    RepeatLeaks([first], second);
    assert [first] + [second] == [first, second];
  }
}
