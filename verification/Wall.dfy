/** A wall of clients, each with a virtual display of its own at a cell of a grid. */
module Wall {
  import opened Bytes
  import opened Displays
  import opened VirtualDisplays

  datatype SocketAddr = SocketAddr(ip: nat, port: nat)

  datatype WallClient = WallClient(addr: SocketAddr, displayId: u32, gridX: i32, gridY: i32, resolution: Resolution)

  type Clients = map<SocketAddr, WallClient>

  datatype Registry = Registry(clients: Clients, displays: Allocator)

  datatype Event =
    | Add(addr: SocketAddr, gridX: i32, gridY: i32, resolution: Resolution)
    | Remove(addr: SocketAddr)

  const NO_CLIENTS: Registry := Registry(map[], EMPTY)

  const REFRESH_HZ: u32 := 60

  function Step(r: Registry, e: Event): Registry {
    match e
    case Add(addr, x, y, res) =>
      Registry(r.clients[addr := WallClient(addr, r.displays.nextId, x, y, res)],
               Created(r.displays, res, REFRESH_HZ))
    case Remove(addr) =>
      if addr in r.clients then
        Registry(r.clients - {addr},
                 r.displays.(displays := Without(r.displays.displays, r.clients[addr].displayId)))
      else r
  }

  /** `remove_client` reports an error: the allocator does not know the display of the client. */
  predicate RemovalFails(r: Registry, addr: SocketAddr) {
    && addr in r.clients
    && |Without(r.displays.displays, r.clients[addr].displayId)| == |r.displays.displays|
  }

  function Run(events: seq<Event>): Registry {
    if events == [] then NO_CLIENTS else Step(Run(events[..|events| - 1]), events[|events| - 1])
  }

  /** Where a client's display goes, in wrapping 32-bit arithmetic. */
  function EntryOf(c: WallClient): DisplayEntry {
    DisplayEntry(c.displayId,
                 Wrap32(c.gridX * Wrap32(c.resolution.width)),
                 Wrap32(c.gridY * Wrap32(c.resolution.height)),
                 c.resolution)
  }

  /** `order` lists every address of the wall once. */
  predicate Enumerates(order: seq<SocketAddr>, clients: Clients) {
    && (forall i :: 0 <= i < |order| ==> order[i] in clients)
    && (forall a :: a in clients ==> a in order)
    && (forall i, j :: 0 <= i < j < |order| ==> order[i] != order[j])
  }

  function EntriesInOrder(order: seq<SocketAddr>, clients: Clients): (s: seq<DisplayEntry>)
    requires forall i :: 0 <= i < |order| ==> order[i] in clients
    ensures |s| == |order|
  {
    seq(|order|, i requires 0 <= i < |order| => EntryOf(clients[order[i]]))
  }

  /** One entry for each client, in whatever order the hash map yields them. */
  ghost predicate IsLayout(s: seq<DisplayEntry>, clients: Clients) {
    exists order :: Enumerates(order, clients) && s == EntriesInOrder(order, clients)
  }

  class DisplayWall {
    var clients: Clients
    const virtualDisplays: StubVirtualDisplay

    ghost function View(): Registry
      reads this, virtualDisplays
    {
      Registry(clients, virtualDisplays.View())
    }

    constructor ()
      ensures View() == NO_CLIENTS
      ensures fresh(virtualDisplays)
    {
      clients := map[];
      virtualDisplays := new StubVirtualDisplay();
    }

    method AddClient(addr: SocketAddr, gridX: i32, gridY: i32, resolution: Resolution)
        returns (r: Result<u32, CaptureError>)
      modifies this, virtualDisplays
      ensures View() == Step(old(View()), Add(addr, gridX, gridY, resolution))
      ensures r == Ok(old(virtualDisplays.nextId))
      ensures clients == old(clients)[addr := WallClient(addr, r.value, gridX, gridY, resolution)]
      ensures virtualDisplays.displays == old(virtualDisplays.displays) + [VirtualDisplay(r.value, resolution, 60)]
    {
      var created := virtualDisplays.Create(resolution, REFRESH_HZ);
      match created {
        case Err(e) =>
          return Err(e);
        case Ok(displayId) =>
          clients := clients[addr := WallClient(addr, displayId, gridX, gridY, resolution)];
          return Ok(displayId);
      }
    }

    method RemoveClient(addr: SocketAddr) returns (r: Result<(), CaptureError>)
      modifies this, virtualDisplays
      ensures View() == Step(old(View()), Remove(addr))
      ensures r.Err? <==> RemovalFails(old(View()), addr)
      ensures r.Err? ==> r.error == DisplayNotFound(old(clients)[addr].displayId)
    {
      if addr in clients {
        var client := clients[addr];
        clients := clients - {addr};
        var destroyed := virtualDisplays.Destroy(client.displayId);
        if destroyed.Err? {
          return Err(destroyed.error);
        }
      }
      return Ok(());
    }

    method Layout() returns (entries: seq<DisplayEntry>)
      ensures IsLayout(entries, clients)
    {
      entries := [];
      ghost var order: seq<SocketAddr> := [];
      var left := clients.Keys;
      while left != {}
        invariant left <= clients.Keys
        invariant forall i :: 0 <= i < |order| ==> order[i] in clients && order[i] !in left
        invariant forall a :: a in clients ==> a in left || a in order
        invariant forall i, j :: 0 <= i < j < |order| ==> order[i] != order[j]
        invariant entries == EntriesInOrder(order, clients)
        decreases left
      {
        var addr :| addr in left;
        entries := entries + [EntryOf(clients[addr])];
        order := order + [addr];
        left := left - {addr};
      }
      assert Enumerates(order, clients);
    }

    function ClientCount(): nat
      reads this
    {
      |clients|
    }
  }
}
