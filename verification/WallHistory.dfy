/** What the wall shows, read off the registrations and removals alone. */
module WallHistory {
  import opened Bytes
  import opened Displays
  import opened VirtualDisplays
  import opened Wall
  import opened WallRegistry
  import opened WallTiling

  /** Event `k` registers the address, and no later event is about it. */
  predicate LastAdd(events: seq<Event>, addr: SocketAddr, k: nat) {
    && k < |events| && events[k].Add? && events[k].addr == addr
    && forall j :: k < j < |events| ==> events[j].addr != addr
  }

  /** The client that registration `k` of a run makes: the ids count up from 100 and wrap at 32 bits. */
  function ClientOf(events: seq<Event>, k: nat): WallClient
    requires k < |events| && events[k].Add?
  {
    var e := events[k];
    WallClient(e.addr, (100 + Adds(events[..k])) % U32_SPAN, e.gridX, e.gridY, e.resolution)
  }

  lemma NextId(n: nat)
    ensures ((100 + n) % U32_SPAN + 1) % U32_SPAN == (100 + (n + 1)) % U32_SPAN
  {
  }

  lemma {:induction false} IdsCountUp(events: seq<Event>)
    ensures Run(events).displays.nextId == (100 + Adds(events)) % U32_SPAN
  {
    if events == [] {
    } else {
      var front := events[..|events| - 1];
      IdsCountUp(front);
      NextId(Adds(front));
      hide Without;
    }
  }

  lemma LastAddNext(events: seq<Event>, addr: SocketAddr, k: nat)
    requires events != []
    ensures var n := |events| - 1;
            && (k < n ==> (LastAdd(events, addr, k) <==> LastAdd(events[..n], addr, k) && events[n].addr != addr))
            && (k == n ==> (LastAdd(events, addr, k) <==> events[n].Add? && events[n].addr == addr))
  {
    var n := |events| - 1;
    var front := events[..n];
    assert forall j :: 0 <= j < n ==> front[j] == events[j];
  }

  lemma {:induction false} ClientOfLastAdd(events: seq<Event>, addr: SocketAddr, k: nat)
    requires LastAdd(events, addr, k)
    ensures addr in Run(events).clients && Run(events).clients[addr] == ClientOf(events, k)
  {
    var n := |events| - 1;
    var front, e := events[..n], events[n];
    LastAddNext(events, addr, k);
    hide LastAdd, Without, Adds;
    if k == n {
      IdsCountUp(front);
    } else {
      ClientOfLastAdd(front, addr, k);
      assert front[..k] == events[..k];
    }
  }

  lemma LastAddBefore(events: seq<Event>, addr: SocketAddr, k: nat)
    requires LastAdd(events, addr, k)
    ensures k < |events| && events[k].Add?
  {
  }

  lemma {:induction false} PresentWasAdded(events: seq<Event>, addr: SocketAddr)
    requires addr in Run(events).clients
    ensures exists k: nat :: LastAdd(events, addr, k)
  {
    var n := |events| - 1;
    var front, e := events[..n], events[n];
    LastAddNext(events, addr, n);
    hide Without, LastAdd;
    if !(e.Add? && e.addr == addr) {
      PresentWasAdded(front, addr);
      var k: nat :| LastAdd(front, addr, k);
      LastAddBefore(front, addr, k);
      LastAddNext(events, addr, k);
    }
  }

  /**
   * Main result: after any run an address is on the wall exactly when its last event was a registration, with the
   * grid position and the resolution of that one and the id that counts the registrations before it.
   */
  lemma ClientByHistory(events: seq<Event>, addr: SocketAddr)
    ensures addr in Run(events).clients <==> exists k: nat :: LastAdd(events, addr, k)
    ensures forall k: nat :: LastAdd(events, addr, k) ==>
              addr in Run(events).clients && Run(events).clients[addr] == ClientOf(events, k)
  {
    hide Run, LastAdd, ClientOf;
    if addr in Run(events).clients {
      PresentWasAdded(events, addr);
    }
    forall k: nat | LastAdd(events, addr, k)
      ensures k < |events| && events[k].Add?
      ensures addr in Run(events).clients && Run(events).clients[addr] == ClientOf(events, k)
    {
      LastAddBefore(events, addr, k);
      ClientOfLastAdd(events, addr, k);
    }
  }

  // ---------- the display of a client ----------

  /** The display made for registration `k` of a run. */
  function DisplayOf(events: seq<Event>, k: nat): VirtualDisplay
    requires k < |events| && events[k].Add?
  {
    VirtualDisplay((100 + Adds(events[..k])) % U32_SPAN, events[k].resolution, 60)
  }

  lemma {:induction false} AddsBefore(events: seq<Event>)
    requires events != []
    ensures Adds(events[..|events| - 1]) <= Adds(events)
  {
  }

  lemma OthersDisplay(events: seq<Event>, addr: SocketAddr, k: nat, other: SocketAddr)
    requires LastAdd(events, addr, k) && Adds(events) < U32_SPAN - 100
    requires other in Run(events).clients && other != addr
    ensures Run(events).clients[other].displayId != DisplayOf(events, k).id
  {
    RegistryInvariant(events);
    ClientOfLastAdd(events, addr, k);
    hide Run, LastAdd, Adds;
  }

  lemma OnlyOne(s: seq<VirtualDisplay>, d: VirtualDisplay)
    requires Distinct(s) && d in s
    ensures forall x :: x in s && x.id == d.id ==> x == d
  {
  }

  lemma DisplayStays(r: Registry, e: Event, d: VirtualDisplay)
    requires d in r.displays.displays
    requires e.Remove? && e.addr in r.clients ==> r.clients[e.addr].displayId != d.id
    ensures d in Step(r, e).displays.displays
  {
  }

  lemma DisplayMade(r: Registry, e: Event)
    requires e.Add?
    ensures VirtualDisplay(r.displays.nextId, e.resolution, 60) in Step(r, e).displays.displays
  {
    assert Step(r, e).displays.displays[|r.displays.displays|].refreshHz == 60;
  }

  lemma {:induction false} DisplayKept(events: seq<Event>, addr: SocketAddr, k: nat)
    requires LastAdd(events, addr, k) && Adds(events) < U32_SPAN - 100
    ensures DisplayOf(events, k) in Run(events).displays.displays
  {
    var n := |events| - 1;
    var front, e := events[..n], events[n];
    LastAddNext(events, addr, k);
    AddsBefore(events);
    hide LastAdd, Adds, Step;
    if k == n {
      IdsCountUp(front);
      DisplayMade(Run(front), e);
    } else {
      DisplayKept(front, addr, k);
      assert front[..k] == events[..k];
      if e.Remove? && e.addr in Run(front).clients {
        OthersDisplay(front, addr, k, e.addr);
      }
      DisplayStays(Run(front), e, DisplayOf(events, k));
    }
  }

  /** As long as the ids last, the one live display with the id of a client is the one made for it. */
  lemma DisplayOfLastAdd(events: seq<Event>, addr: SocketAddr, k: nat)
    requires LastAdd(events, addr, k) && Adds(events) < U32_SPAN - 100
    ensures DisplayOf(events, k) in Run(events).displays.displays
    ensures forall d :: d in Run(events).displays.displays && d.id == DisplayOf(events, k).id ==>
              d == DisplayOf(events, k)
  {
    DisplayKept(events, addr, k);
    RegistryInvariant(events);
    LastAddBefore(events, addr, k);
    OnlyOne(Run(events).displays.displays, DisplayOf(events, k));
    hide LastAdd, Adds, Run, Distinct, SoundClients;
  }

  // ---------- the layout ----------

  lemma EntryOfClient(c: WallClient)
    requires -0x8000_0000 <= c.gridX * c.resolution.width < 0x8000_0000
    requires -0x8000_0000 <= c.gridY * c.resolution.height < 0x8000_0000
    ensures EntryOf(c) ==
            DisplayEntry(c.displayId, c.gridX * c.resolution.width, c.gridY * c.resolution.height, c.resolution)
  {
    ProductExactly(c.gridX, c.resolution.width);
    ProductExactly(c.gridY, c.resolution.height);
    hide Wrap32;
  }

  lemma EntriesOfClients(s: seq<DisplayEntry>, clients: Clients, addr: SocketAddr)
    requires IsLayout(s, clients) && addr in clients
    requires forall a :: a in clients && a != addr ==> clients[a].displayId != clients[addr].displayId
    ensures |s| == |clients| && EntryOf(clients[addr]) in s
    ensures forall d :: d in s && d.displayId == EntryOf(clients[addr]).displayId ==> d == EntryOf(clients[addr])
  {
    var order :| Enumerates(order, clients) && s == EntriesInOrder(order, clients);
    EnumerationSize(order, clients);
    var i :| 0 <= i < |order| && order[i] == addr;
    assert s[i] == EntryOf(clients[addr]);
    hide Wrap32;
  }

  lemma OwnIds(events: seq<Event>, addr: SocketAddr)
    requires addr in Run(events).clients && Adds(events) < U32_SPAN - 100
    ensures var clients := Run(events).clients;
            forall a :: a in clients && a != addr ==> clients[a].displayId != clients[addr].displayId
  {
    RegistryInvariant(events);
    hide Run, Adds, SoundAllocator, Lives;
  }

  /**
   * Main result: on the 32-bit plane the layout has one entry for every client, and that of an address shows the
   * display of its last registration at that grid position times that resolution.
   */
  lemma ClientShown(events: seq<Event>, addr: SocketAddr, k: nat, s: seq<DisplayEntry>)
    requires LastAdd(events, addr, k) && Adds(events) < U32_SPAN - 100 && IsLayout(s, Run(events).clients)
    requires var Add(_, x, y, res) := events[k];
             && -0x8000_0000 <= x * res.width < 0x8000_0000
             && -0x8000_0000 <= y * res.height < 0x8000_0000
    ensures |s| == |Run(events).clients|
    ensures var Add(_, x, y, res), id := events[k], DisplayOf(events, k).id;
            && DisplayEntry(id, x * res.width, y * res.height, res) in s
            && forall d :: d in s && d.displayId == id ==> d == DisplayEntry(id, x * res.width, y * res.height, res)
  {
    hide LastAdd, IsLayout, EntryOf, Run, Adds, Distinct, Lives, SoundAllocator;
    LastAddBefore(events, addr, k);
    ClientOfLastAdd(events, addr, k);
    EntryOfClient(ClientOf(events, k));
    OwnIds(events, addr);
    EntriesOfClients(s, Run(events).clients, addr);
  }
}
