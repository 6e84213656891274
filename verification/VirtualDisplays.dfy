/** The in-memory allocator of virtual displays. */
module VirtualDisplays {
  import opened Bytes
  import opened Displays

  const FIRST_ID: u32 := 100

  datatype VirtualDisplay = VirtualDisplay(id: u32, resolution: Resolution, refreshHz: u32)

  datatype CaptureError = DisplayNotFound(id: u32)

  datatype Allocator = Allocator(nextId: u32, displays: seq<VirtualDisplay>)

  const EMPTY: Allocator := Allocator(FIRST_ID, [])

  function Created(a: Allocator, resolution: Resolution, refreshHz: u32): Allocator {
    Allocator((a.nextId + 1) % U32_SPAN, a.displays + [VirtualDisplay(a.nextId, resolution, refreshHz)])
  }

  function Without(s: seq<VirtualDisplay>, id: u32): (r: seq<VirtualDisplay>)
    ensures |r| <= |s|
    ensures forall d :: d in r <==> d in s && d.id != id
  {
    if s == [] then [] else (if s[0].id != id then [s[0]] else []) + Without(s[1..], id)
  }

  function Ids(s: seq<VirtualDisplay>): (r: seq<u32>)
    ensures |r| == |s|
  {
    seq(|s|, i requires 0 <= i < |s| => s[i].id)
  }

  predicate Distinct(s: seq<VirtualDisplay>) {
    forall i, j :: 0 <= i < j < |s| ==> s[i].id != s[j].id
  }

  lemma {:induction false} WithoutNone(s: seq<VirtualDisplay>, id: u32)
    requires forall i :: 0 <= i < |s| ==> s[i].id != id
    ensures Without(s, id) == s
  {
    if s == [] {
    } else {
      WithoutNone(s[1..], id);
    }
  }

  lemma WithoutFirst(s: seq<VirtualDisplay>, id: u32)
    requires s != []
    ensures Without(s, id) == (if s[0].id != id then [s[0]] else []) + Without(s[1..], id)
  {
  }

  lemma Around(s: seq<VirtualDisplay>, k: nat)
    requires 0 < k < |s|
    ensures s[..k] + s[k + 1..] == [s[0]] + (s[1..][..k - 1] + s[1..][k..])
  {
  }

  /** The others keep their order. */
  lemma {:induction false} WithoutAt(s: seq<VirtualDisplay>, k: nat)
    requires Distinct(s) && k < |s|
    ensures Without(s, s[k].id) == s[..k] + s[k + 1..]
  {
    hide Without;
    WithoutFirst(s, s[k].id);
    if k == 0 {
      WithoutNone(s[1..], s[0].id);
      assert s[..0] == [];
    } else {
      WithoutAt(s[1..], k - 1);
      Around(s, k);
    }
  }

  lemma DistinctAround(s: seq<VirtualDisplay>, k: nat)
    requires Distinct(s) && k < |s|
    ensures Distinct(s[..k] + s[k + 1..])
  {
    var r := s[..k] + s[k + 1..];
    assert forall i :: 0 <= i < |r| ==> r[i] == s[if i < k then i else i + 1];
  }

  /** Removing one of several distinct displays removes exactly that one. */
  lemma WithoutOne(s: seq<VirtualDisplay>, id: u32)
    requires Distinct(s)
    ensures Distinct(Without(s, id))
    ensures |Without(s, id)| == |s| - if exists d :: d in s && d.id == id then 1 else 0
  {
    hide Without, Distinct;
    if d :| d in s && d.id == id {
      var k :| 0 <= k < |s| && s[k] == d;
      WithoutAt(s, k);
      DistinctAround(s, k);
    } else {
      WithoutNone(s, id);
    }
  }

  /** Entry `k` is the first with this id. */
  predicate IsFirst(s: seq<VirtualDisplay>, k: nat, id: u32) {
    k < |s| && s[k].id == id && forall j :: 0 <= j < k ==> s[j].id != id
  }

  class StubVirtualDisplay {
    var nextId: u32
    var displays: seq<VirtualDisplay>

    ghost function View(): Allocator
      reads this
    {
      Allocator(nextId, displays)
    }

    constructor ()
      ensures View() == EMPTY
    {
      nextId, displays := FIRST_ID, [];
    }

    method Create(resolution: Resolution, refreshHz: u32) returns (r: Result<u32, CaptureError>)
      modifies this
      ensures r == Ok(old(nextId))
      ensures View() == Created(old(View()), resolution, refreshHz)
    {
      var id := nextId;
      nextId := (nextId + 1) % U32_SPAN;
      displays := displays + [VirtualDisplay(id, resolution, refreshHz)];
      return Ok(id);
    }

    method Resize(displayId: u32, resolution: Resolution) returns (r: Result<(), CaptureError>)
      modifies this
      ensures nextId == old(nextId) && Ids(displays) == Ids(old(displays))
      ensures r.Ok? ==>
                exists k: nat ::
                  && IsFirst(old(displays), k, displayId)
                  && displays == old(displays)[k := VirtualDisplay(displayId, resolution, old(displays)[k].refreshHz)]
      ensures r.Err? ==> r.error == DisplayNotFound(displayId) && displays == old(displays)
      ensures r.Ok? <==> displayId in Ids(old(displays))
    {
      for i := 0 to |displays|
        invariant nextId == old(nextId) && displays == old(displays)
        invariant forall j :: 0 <= j < i ==> displays[j].id != displayId
      {
        if displays[i].id == displayId {
          assert Ids(displays)[i] == displayId;
          assert IsFirst(displays, i, displayId);
          displays := displays[i := displays[i].(resolution := resolution)];
          return Ok(());
        }
      }
      return Err(DisplayNotFound(displayId));
    }

    method Destroy(displayId: u32) returns (r: Result<(), CaptureError>)
      modifies this
      ensures nextId == old(nextId) && displays == Without(old(displays), displayId)
      ensures r == if |displays| == |old(displays)| then Err(DisplayNotFound(displayId)) else Ok(())
    {
      var before := |displays|;
      displays := Without(displays, displayId);
      if |displays| == before {
        return Err(DisplayNotFound(displayId));
      }
      return Ok(());
    }

    function List(): seq<u32>
      reads this
    {
      Ids(displays)
    }
  }
}
