/** Displays placed on a plane, and the box around them. */
module Displays {
  import opened Bytes

  datatype Resolution = Resolution(width: u32, height: u32)

  datatype DisplayEntry = DisplayEntry(displayId: u32, x: i32, y: i32, resolution: Resolution)

  datatype Box = Box(x: i32, y: i32, width: u32, height: u32)

  function Least(s: seq<int>): int
    requires s != []
  {
    if |s| == 1 then s[0]
    else
      var rest := Least(s[1..]);
      if rest < s[0] then rest else s[0]
  }

  function Greatest(s: seq<int>): int
    requires s != []
  {
    if |s| == 1 then s[0]
    else
      var rest := Greatest(s[1..]);
      if rest > s[0] then rest else s[0]
  }

  /** The least and the greatest element are attained and bound every element. */
  lemma {:induction false} Extremes(s: seq<int>) returns (low: nat, high: nat)
    requires s != []
    ensures low < |s| && s[low] == Least(s)
    ensures high < |s| && s[high] == Greatest(s)
    ensures forall i :: 0 <= i < |s| ==> Least(s) <= s[i] <= Greatest(s)
  {
    low, high := 0, 0;
    if |s| == 1 {
    } else {
      var l, h := Extremes(s[1..]);
      if s[l + 1] < s[0] {
        low := l + 1;
      }
      if s[h + 1] > s[0] {
        high := h + 1;
      }
    }
  }

  /** Extremes of 32-bit numbers are such numbers. */
  lemma ExtremesFit(s: seq<i32>)
    requires s != []
    ensures -0x8000_0000 <= Least(s) <= Greatest(s) < 0x8000_0000
  {
    var low, high := Extremes(s);
  }

  /** The edges as the code computes them, in wrapping 32-bit arithmetic. */
  function Right(e: DisplayEntry): i32 {
    Wrap32(e.x + Wrap32(e.resolution.width))
  }

  function Bottom(e: DisplayEntry): i32 {
    Wrap32(e.y + Wrap32(e.resolution.height))
  }

  function Lefts(s: seq<DisplayEntry>): (r: seq<i32>)
    ensures |r| == |s|
  {
    seq(|s|, i requires 0 <= i < |s| => s[i].x)
  }

  function Tops(s: seq<DisplayEntry>): (r: seq<i32>)
    ensures |r| == |s|
  {
    seq(|s|, i requires 0 <= i < |s| => s[i].y)
  }

  function Rights(s: seq<DisplayEntry>): (r: seq<i32>)
    ensures |r| == |s|
  {
    seq(|s|, i requires 0 <= i < |s| => Right(s[i]))
  }

  function Bottoms(s: seq<DisplayEntry>): (r: seq<i32>)
    ensures |r| == |s|
  {
    seq(|s|, i requires 0 <= i < |s| => Bottom(s[i]))
  }

  function BoundingBox(s: seq<DisplayEntry>): Box {
    if s == [] then Box(0, 0, 0, 0)
    else
      ExtremesFit(Lefts(s));
      ExtremesFit(Tops(s));
      ExtremesFit(Rights(s));
      ExtremesFit(Bottoms(s));
      var minX: i32 := Least(Lefts(s));
      var minY: i32 := Least(Tops(s));
      var maxX: i32 := Greatest(Rights(s));
      var maxY: i32 := Greatest(Bottoms(s));
      Box(minX, minY, Pattern(Wrap32(maxX - minX)), Pattern(Wrap32(maxY - minY)))
  }

  // ---------- what the box is for ----------

  /** A rectangle of integers, half open. */
  datatype Area = Area(left: int, top: int, right: int, bottom: int)

  predicate Inside(a: Area, b: Area) {
    b.left <= a.left && b.top <= a.top && a.right <= b.right && a.bottom <= b.bottom
  }

  function Covered(e: DisplayEntry): Area {
    Area(e.x, e.y, e.x + e.resolution.width, e.y + e.resolution.height)
  }

  function Extent(b: Box): Area {
    Area(b.x, b.y, b.x + b.width, b.y + b.height)
  }

  /** The right and lower edges are 32-bit numbers. */
  predicate Exact(e: DisplayEntry) {
    e.x + e.resolution.width < 0x8000_0000 && e.y + e.resolution.height < 0x8000_0000
  }

  predicate AllExact(s: seq<DisplayEntry>) {
    forall i :: 0 <= i < |s| ==> Exact(s[i])
  }

  /** Wrapping twice, in the sum and in the cast, still gives the sum when the sum fits. */
  lemma EdgeExactly(x: i32, w: u32)
    requires x + w < 0x8000_0000
    ensures Wrap32(x + Wrap32(w)) == x + w
  {
  }

  /** A difference of signed numbers that wraps and is then read as unsigned is the true difference. */
  lemma DifferenceExactly(low: i32, high: i32)
    requires low <= high
    ensures Pattern(Wrap32(high - low)) == high - low
  {
  }

  lemma EdgesExactly(s: seq<DisplayEntry>)
    requires AllExact(s)
    ensures forall i :: 0 <= i < |s| ==> Rights(s)[i] == Covered(s[i]).right && Bottoms(s)[i] == Covered(s[i]).bottom
  {
    hide Wrap32;
    forall i | 0 <= i < |s|
      ensures Rights(s)[i] == Covered(s[i]).right && Bottoms(s)[i] == Covered(s[i]).bottom
    {
      assert Exact(s[i]);
      EdgeExactly(s[i].x, s[i].resolution.width);
      EdgeExactly(s[i].y, s[i].resolution.height);
    }
  }

  lemma EdgesOrdered(s: seq<DisplayEntry>)
    requires s != [] && AllExact(s)
    ensures Least(Lefts(s)) <= Greatest(Rights(s)) && Least(Tops(s)) <= Greatest(Bottoms(s))
  {
    EdgesExactly(s);
    hide Rights, Bottoms, Least, Greatest;
    var _, _ := Extremes(Lefts(s));
    var _, _ := Extremes(Tops(s));
    var _, _ := Extremes(Rights(s));
    var _, _ := Extremes(Bottoms(s));
    assert Least(Lefts(s)) <= Lefts(s)[0] <= Rights(s)[0];
    assert Least(Tops(s)) <= Tops(s)[0] <= Bottoms(s)[0];
  }

  lemma BoxEdges(s: seq<DisplayEntry>)
    requires s != [] && AllExact(s)
    ensures Extent(BoundingBox(s)) ==
            Area(Least(Lefts(s)), Least(Tops(s)), Greatest(Rights(s)), Greatest(Bottoms(s)))
  {
    hide Wrap32, Pattern, AllExact, Least, Greatest, Right, Bottom;
    EdgesOrdered(s);
    ExtremesFit(Lefts(s));
    ExtremesFit(Tops(s));
    ExtremesFit(Rights(s));
    ExtremesFit(Bottoms(s));
    DifferenceExactly(Least(Lefts(s)), Greatest(Rights(s)));
    DifferenceExactly(Least(Tops(s)), Greatest(Bottoms(s)));
  }

  lemma BoundedBelow(s: seq<int>, b: int)
    requires s != []
    ensures b <= Least(s) <==> forall i :: 0 <= i < |s| ==> b <= s[i]
  {
    var _, _ := Extremes(s);
  }

  lemma BoundedAbove(s: seq<int>, b: int)
    requires s != []
    ensures Greatest(s) <= b <==> forall i :: 0 <= i < |s| ==> s[i] <= b
  {
    var _, _ := Extremes(s);
  }

  /** Main result: a rectangle contains every display exactly when it contains the box. */
  lemma {:induction false} LeastEnclosing(s: seq<DisplayEntry>, around: Area)
    requires s != [] && AllExact(s)
    ensures (forall i :: 0 <= i < |s| ==> Inside(Covered(s[i]), around)) <==> Inside(Extent(BoundingBox(s)), around)
  {
    BoxEdges(s);
    EdgesExactly(s);
    hide BoundingBox, Least, Greatest, Right, Bottom;
    BoundedBelow(Lefts(s), around.left);
    BoundedBelow(Tops(s), around.top);
    BoundedAbove(Rights(s), around.right);
    BoundedAbove(Bottoms(s), around.bottom);
    assert forall i :: 0 <= i < |s| ==> Lefts(s)[i] == Covered(s[i]).left && Tops(s)[i] == Covered(s[i]).top;
  }

  /** Displays that show anything have a box that is not empty, and without displays it is the empty one at zero. */
  lemma {:induction false} EmptyIffNone(s: seq<DisplayEntry>)
    requires AllExact(s)
    requires forall i :: 0 <= i < |s| ==> s[i].resolution.width > 0 && s[i].resolution.height > 0
    ensures BoundingBox(s) == Box(0, 0, 0, 0) <==> s == []
  {
    if s != [] {
      var box := BoundingBox(s);
      hide BoundingBox, Exact;
      LeastEnclosing(s, Extent(box));
      assert Inside(Covered(s[0]), Extent(box));
    }
  }

  lemma Pointwise(s: seq<DisplayEntry>, t: seq<DisplayEntry>)
    requires forall e :: e in s ==> e in t
    ensures forall v :: v in Lefts(s) ==> v in Lefts(t)
    ensures forall v :: v in Tops(s) ==> v in Tops(t)
    ensures forall v :: v in Rights(s) ==> v in Rights(t)
    ensures forall v :: v in Bottoms(s) ==> v in Bottoms(t)
  {
    forall i | 0 <= i < |s|
      ensures Lefts(s)[i] in Lefts(t) && Tops(s)[i] in Tops(t)
      ensures Rights(s)[i] in Rights(t) && Bottoms(s)[i] in Bottoms(t)
    {
      assert s[i] in t;
      var j :| 0 <= j < |t| && t[j] == s[i];
      assert Lefts(t)[j] == Lefts(s)[i] && Tops(t)[j] == Tops(s)[i];
      assert Rights(t)[j] == Rights(s)[i] && Bottoms(t)[j] == Bottoms(s)[i];
    }
  }

  lemma SameLeast(a: seq<int>, b: seq<int>)
    requires a != [] && b != [] && forall v :: v in a <==> v in b
    ensures Least(a) == Least(b)
  {
    var i, _ := Extremes(a);
    var j, _ := Extremes(b);
    assert a[i] in b && b[j] in a;
  }

  lemma SameGreatest(a: seq<int>, b: seq<int>)
    requires a != [] && b != [] && forall v :: v in a <==> v in b
    ensures Greatest(a) == Greatest(b)
  {
    var _, i := Extremes(a);
    var _, j := Extremes(b);
    assert a[i] in b && b[j] in a;
  }

  /** The box depends only on which displays there are, not on their order or repetition. */
  lemma {:induction false} OrderIrrelevant(s: seq<DisplayEntry>, t: seq<DisplayEntry>)
    requires forall e :: e in s <==> e in t
    ensures BoundingBox(s) == BoundingBox(t)
  {
    hide Wrap32, Pattern, Lefts, Tops, Rights, Bottoms, Least, Greatest;
    assert s != [] ==> s[0] in t;
    assert t != [] ==> t[0] in s;
    if s != [] && t != [] {
      Pointwise(s, t);
      Pointwise(t, s);
      SameLeast(Lefts(s), Lefts(t));
      SameLeast(Tops(s), Tops(t));
      SameGreatest(Rights(s), Rights(t));
      SameGreatest(Bottoms(s), Bottoms(t));
    }
  }

  predicate Shifted(s: seq<DisplayEntry>, t: seq<DisplayEntry>, dx: int, dy: int) {
    && |s| == |t|
    && forall i :: 0 <= i < |s| ==>
         && t[i].resolution == s[i].resolution
         && t[i].x == s[i].x + dx
         && t[i].y == s[i].y + dy
  }

  lemma ShiftedEdges(s: seq<DisplayEntry>, t: seq<DisplayEntry>, dx: int, dy: int)
    requires AllExact(s) && AllExact(t) && Shifted(s, t, dx, dy)
    ensures forall i :: 0 <= i < |s| ==> Lefts(t)[i] == Lefts(s)[i] + dx && Tops(t)[i] == Tops(s)[i] + dy
    ensures forall i :: 0 <= i < |s| ==> Rights(t)[i] == Rights(s)[i] + dx && Bottoms(t)[i] == Bottoms(s)[i] + dy
  {
    EdgesExactly(s);
    EdgesExactly(t);
    hide Right, Bottom;
  }

  lemma ShiftedLeast(a: seq<int>, b: seq<int>, d: int)
    requires a != [] && |a| == |b| && forall i :: 0 <= i < |a| ==> b[i] == a[i] + d
    ensures Least(b) == Least(a) + d
  {
    var i, _ := Extremes(a);
    var j, _ := Extremes(b);
    assert b[i] == a[i] + d && b[j] == a[j] + d;
  }

  lemma ShiftedGreatest(a: seq<int>, b: seq<int>, d: int)
    requires a != [] && |a| == |b| && forall i :: 0 <= i < |a| ==> b[i] == a[i] + d
    ensures Greatest(b) == Greatest(a) + d
  {
    var _, i := Extremes(a);
    var _, j := Extremes(b);
    assert b[i] == a[i] + d && b[j] == a[j] + d;
  }

  /** Moving every display moves the box and keeps its size. */
  lemma {:induction false} BoxShifts(s: seq<DisplayEntry>, t: seq<DisplayEntry>, dx: int, dy: int)
    requires s != [] && AllExact(s) && AllExact(t) && Shifted(s, t, dx, dy)
    ensures var b, c := BoundingBox(s), BoundingBox(t);
            Extent(c) == Area(b.x + dx, b.y + dy, b.x + dx + b.width, b.y + dy + b.height)
  {
    BoxEdges(s);
    BoxEdges(t);
    ShiftedEdges(s, t, dx, dy);
    hide BoundingBox, Least, Greatest, Right, Bottom, Lefts, Tops, Rights, Bottoms;
    ShiftedLeast(Lefts(s), Lefts(t), dx);
    ShiftedLeast(Tops(s), Tops(t), dy);
    ShiftedGreatest(Rights(s), Rights(t), dx);
    ShiftedGreatest(Bottoms(s), Bottoms(t), dy);
  }
}
