/** The geometry of a wall whose clients share one resolution. */
module WallTiling {
  import opened Arithmetic
  import opened Bytes
  import opened Displays
  import opened Wall

  /** The pixels of a client's cell have 32-bit coordinates. */
  predicate OnPlane(c: WallClient) {
    var w, h := c.resolution.width, c.resolution.height;
    && -0x8000_0000 <= c.gridX * w && c.gridX * w + w < 0x8000_0000
    && -0x8000_0000 <= c.gridY * h && c.gridY * h + h < 0x8000_0000
  }

  /** All clients show `w` by `h` pixels, not none, and lie on the plane. */
  predicate Uniform(clients: Clients, w: u32, h: u32) {
    w > 0 && h > 0 && forall a :: a in clients ==> clients[a].resolution == Resolution(w, h) && OnPlane(clients[a])
  }

  predicate SameCell(c: WallClient, d: WallClient) {
    c.gridX == d.gridX && c.gridY == d.gridY
  }

  predicate DistinctCells(clients: Clients) {
    forall a, b :: a in clients && b in clients && a != b ==> !SameCell(clients[a], clients[b])
  }

  predicate Overlap(a: Area, b: Area) {
    a.left < b.right && b.left < a.right && a.top < b.bottom && b.top < a.bottom
  }

  predicate PairwiseDisjoint(s: seq<DisplayEntry>) {
    forall i, j :: 0 <= i < j < |s| ==> !Overlap(Covered(s[i]), Covered(s[j]))
  }

  // ---------- exact coordinates ----------

  lemma SpanModulo(n: int, k: int)
    ensures (n - k * U32_SPAN) % U32_SPAN == n % U32_SPAN
  {
    var q, r := n / U32_SPAN, n % U32_SPAN;
    assert n - k * U32_SPAN == (q - k) * U32_SPAN + r;
    Remainder(q - k, r);
  }

  lemma WrapPeriodic(n: int, k: int)
    ensures Wrap32(n - k * U32_SPAN) == Wrap32(n)
  {
    SpanModulo(n, k);
  }

  /** The product wraps twice, in the cast and in the multiplication, and is still exact when it fits. */
  lemma ProductExactly(g: i32, w: u32)
    requires -0x8000_0000 <= g * w < 0x8000_0000
    ensures Wrap32(g * Wrap32(w)) == g * w
  {
    if w >= 0x8000_0000 {
      assert Wrap32(w) == w - U32_SPAN;
      assert g * Wrap32(w) == g * w - g * U32_SPAN;
      WrapPeriodic(g * w, g);
    }
  }

  lemma EntryExactly(c: WallClient)
    requires OnPlane(c)
    ensures EntryOf(c).x == c.gridX * c.resolution.width && EntryOf(c).y == c.gridY * c.resolution.height
    ensures Exact(EntryOf(c))
  {
    ProductExactly(c.gridX, c.resolution.width);
    ProductExactly(c.gridY, c.resolution.height);
  }

  // ---------- no overlap ----------

  /** A cell coordinate in pixels. */
  function Scaled(g: int, w: nat): int {
    g * w
  }

  /** Different multiples of `w` are at least `w` apart. */
  lemma Multiples(g: int, k: int, w: nat)
    requires w > 0
    ensures g * w < k * w + w && k * w < g * w + w <==> g == k
  {
    NextMultiple(g, w);
    NextMultiple(k, w);
    if g < k {
      MulOrder(g + 1, k, w);
    } else if k < g {
      MulOrder(k + 1, g, w);
    }
  }

  lemma OverlapIffSameCell(c: WallClient, d: WallClient)
    requires OnPlane(c) && OnPlane(d) && c.resolution == d.resolution
    requires c.resolution.width > 0 && c.resolution.height > 0
    ensures Overlap(Covered(EntryOf(c)), Covered(EntryOf(d))) <==> SameCell(c, d)
  {
    EntryExactly(c);
    EntryExactly(d);
    Multiples(c.gridX, d.gridX, c.resolution.width);
    Multiples(c.gridY, d.gridY, c.resolution.height);
  }

  /** No two clients in this order share a cell. */
  predicate DistinctInOrder(order: seq<SocketAddr>, clients: Clients)
    requires forall i :: 0 <= i < |order| ==> order[i] in clients
  {
    forall i, j :: 0 <= i < j < |order| ==> !SameCell(clients[order[i]], clients[order[j]])
  }

  lemma SameCellSymmetric(c: WallClient, d: WallClient)
    ensures SameCell(c, d) <==> SameCell(d, c)
  {
  }

  lemma DistinctEitherWay(order: seq<SocketAddr>, clients: Clients)
    requires Enumerates(order, clients)
    ensures DistinctInOrder(order, clients) <==> DistinctCells(clients)
  {
    hide SameCell;
    if DistinctInOrder(order, clients) {
      forall a, b | a in clients && b in clients && a != b ensures !SameCell(clients[a], clients[b]) {
        var i :| 0 <= i < |order| && order[i] == a;
        var j :| 0 <= j < |order| && order[j] == b;
        SameCellSymmetric(clients[a], clients[b]);
      }
    }
  }

  /** Main result: on a uniform wall the rectangles are disjoint exactly when no two clients share a cell. */
  lemma {:induction false} DisjointIffDistinct(s: seq<DisplayEntry>, clients: Clients, w: u32, h: u32)
    requires Uniform(clients, w, h) && IsLayout(s, clients)
    ensures PairwiseDisjoint(s) <==> DistinctCells(clients)
  {
    hide Overlap, Covered, SameCell, EntryOf, DistinctCells;
    var order :| Enumerates(order, clients) && s == EntriesInOrder(order, clients);
    DistinctEitherWay(order, clients);
    forall i, j | 0 <= i < j < |s|
      ensures Overlap(Covered(s[i]), Covered(s[j])) <==> SameCell(clients[order[i]], clients[order[j]])
    {
      OverlapIffSameCell(clients[order[i]], clients[order[j]]);
    }
  }

  // ---------- the bounding box ----------

  function Columns(order: seq<SocketAddr>, clients: Clients): (r: seq<int>)
    requires forall i :: 0 <= i < |order| ==> order[i] in clients
    ensures |r| == |order|
  {
    seq(|order|, i requires 0 <= i < |order| => clients[order[i]].gridX)
  }

  function Rows(order: seq<SocketAddr>, clients: Clients): (r: seq<int>)
    requires forall i :: 0 <= i < |order| ==> order[i] in clients
    ensures |r| == |order|
  {
    seq(|order|, i requires 0 <= i < |order| => clients[order[i]].gridY)
  }

  /** The first number beyond all elements. */
  function Past(s: seq<int>): int
    requires s != []
  {
    Greatest(s) + 1
  }

  /** The smallest rectangle of cells around all clients. */
  function Span(order: seq<SocketAddr>, clients: Clients): Area
    requires order != [] && forall i :: 0 <= i < |order| ==> order[i] in clients
  {
    Area(Least(Columns(order, clients)), Least(Rows(order, clients)),
         Past(Columns(order, clients)), Past(Rows(order, clients)))
  }

  lemma ScaledLeast(a: seq<int>, b: seq<int>, w: nat)
    requires a != [] && |a| == |b| && forall i :: 0 <= i < |a| ==> b[i] == Scaled(a[i], w)
    ensures Least(b) == Scaled(Least(a), w)
  {
    hide Least, Greatest;
    var i, _ := Extremes(a);
    var j, _ := Extremes(b);
    assert a[i] <= a[j] && b[j] <= b[i];
    MulOrder(a[i], a[j], w);
  }

  lemma ScaledGreatest(a: seq<int>, b: seq<int>, w: nat)
    requires a != [] && |a| == |b| && forall i :: 0 <= i < |a| ==> b[i] == Scaled(a[i] + 1, w)
    ensures Greatest(b) == Scaled(Past(a), w)
  {
    hide Least, Greatest;
    var _, i := Extremes(a);
    var _, j := Extremes(b);
    assert a[j] <= a[i] && b[i] <= b[j];
    MulOrder(a[j] + 1, a[i] + 1, w);
  }

  lemma EntryResolution(c: WallClient)
    ensures EntryOf(c).resolution == c.resolution
  {
  }

  /** Left, top, right and lower edge of every display, as multiples of the resolution. */
  lemma ScaledEdges(order: seq<SocketAddr>, clients: Clients, w: u32, h: u32)
    requires Enumerates(order, clients) && Uniform(clients, w, h)
    ensures var s, columns, rows := EntriesInOrder(order, clients), Columns(order, clients), Rows(order, clients);
            && AllExact(s)
            && (forall i :: 0 <= i < |s| ==> Lefts(s)[i] == Scaled(columns[i], w))
            && (forall i :: 0 <= i < |s| ==> Tops(s)[i] == Scaled(rows[i], h))
            && (forall i :: 0 <= i < |s| ==> Rights(s)[i] == Scaled(columns[i] + 1, w))
            && (forall i :: 0 <= i < |s| ==> Bottoms(s)[i] == Scaled(rows[i] + 1, h))
  {
    var s, columns, rows := EntriesInOrder(order, clients), Columns(order, clients), Rows(order, clients);
    forall i | 0 <= i < |order| ensures Exact(s[i]) {
      EntryExactly(clients[order[i]]);
    }
    EdgesExactly(s);
    hide EntryOf, Right, Bottom, Exact;
    forall i | 0 <= i < |s|
      ensures Lefts(s)[i] == Scaled(columns[i], w) && Tops(s)[i] == Scaled(rows[i], h)
      ensures Rights(s)[i] == Scaled(columns[i] + 1, w) && Bottoms(s)[i] == Scaled(rows[i] + 1, h)
    {
      var c := clients[order[i]];
      EntryExactly(c);
      EntryResolution(c);
      NextMultiple(c.gridX, w);
      NextMultiple(c.gridY, h);
      assert s[i] == EntryOf(c);
    }
  }

  lemma ScaledBox(lefts: seq<int>, tops: seq<int>, rights: seq<int>, bottoms: seq<int>,
                  columns: seq<int>, rows: seq<int>, w: nat, h: nat)
    requires 0 < |lefts| == |tops| == |rights| == |bottoms| == |columns| == |rows|
    requires forall i :: 0 <= i < |lefts| ==> lefts[i] == Scaled(columns[i], w)
    requires forall i :: 0 <= i < |tops| ==> tops[i] == Scaled(rows[i], h)
    requires forall i :: 0 <= i < |rights| ==> rights[i] == Scaled(columns[i] + 1, w)
    requires forall i :: 0 <= i < |bottoms| ==> bottoms[i] == Scaled(rows[i] + 1, h)
    ensures Least(lefts) == Scaled(Least(columns), w) && Least(tops) == Scaled(Least(rows), h)
    ensures Greatest(rights) == Scaled(Past(columns), w) && Greatest(bottoms) == Scaled(Past(rows), h)
  {
    hide Least, Greatest, Past, Scaled;
    assert Least(lefts) == Scaled(Least(columns), w) by { ScaledLeast(columns, lefts, w); }
    assert Least(tops) == Scaled(Least(rows), h) by { ScaledLeast(rows, tops, h); }
    assert Greatest(rights) == Scaled(Past(columns), w) by { ScaledGreatest(columns, rights, w); }
    assert Greatest(bottoms) == Scaled(Past(rows), h) by { ScaledGreatest(rows, bottoms, h); }
  }

  lemma ScaledExtremes(order: seq<SocketAddr>, clients: Clients, w: u32, h: u32)
    requires order != [] && Enumerates(order, clients) && Uniform(clients, w, h)
    ensures var s, span := EntriesInOrder(order, clients), Span(order, clients);
            && AllExact(s)
            && Least(Lefts(s)) == Scaled(span.left, w) && Least(Tops(s)) == Scaled(span.top, h)
            && Greatest(Rights(s)) == Scaled(span.right, w) && Greatest(Bottoms(s)) == Scaled(span.bottom, h)
  {
    var s, columns, rows := EntriesInOrder(order, clients), Columns(order, clients), Rows(order, clients);
    ScaledEdges(order, clients, w, h);
    hide Lefts, Tops, Rights, Bottoms, Columns, Rows, EntriesInOrder, Uniform, Enumerates, AllExact,
      Least, Greatest, Past, Scaled;
    ScaledBox(Lefts(s), Tops(s), Rights(s), Bottoms(s), columns, rows, w, h);
  }

  /** Main result: the box is the span of cells, scaled by the common resolution. */
  lemma {:induction false} BoxIsSpan(order: seq<SocketAddr>, clients: Clients, w: u32, h: u32)
    requires order != [] && Enumerates(order, clients) && Uniform(clients, w, h)
    ensures var span := Span(order, clients);
            Extent(BoundingBox(EntriesInOrder(order, clients))) ==
            Area(Scaled(span.left, w), Scaled(span.top, h), Scaled(span.right, w), Scaled(span.bottom, h))
  {
    var s := EntriesInOrder(order, clients);
    ScaledExtremes(order, clients, w, h);
    BoxEdges(s);
    hide BoundingBox, Lefts, Tops, Rights, Bottoms, Columns, Rows, EntriesInOrder, Uniform, Enumerates, AllExact,
      Least, Greatest, Past, Scaled;
  }

  // ---------- counting cells ----------

  function ColumnCells(x: int, top: int, bottom: int): set<(int, int)> {
    set y | top <= y < bottom :: (x, y)
  }

  function Cells(a: Area): set<(int, int)> {
    set x, y | a.left <= x < a.right && a.top <= y < a.bottom :: (x, y)
  }

  lemma {:induction false} ColumnSize(x: int, top: int, bottom: int)
    requires top <= bottom
    ensures |ColumnCells(x, top, bottom)| == bottom - top
    decreases bottom - top
  {
    if top < bottom {
      ColumnSize(x, top, bottom - 1);
      assert ColumnCells(x, top, bottom) == ColumnCells(x, top, bottom - 1) + {(x, bottom - 1)};
    } else {
      assert ColumnCells(x, top, bottom) == {};
    }
  }

  lemma OneMoreColumn(a: Area)
    requires a.left < a.right
    ensures var b, column := a.(right := a.right - 1), ColumnCells(a.right - 1, a.top, a.bottom);
            |Cells(a)| == |Cells(b)| + |column|
  {
    var b, column := a.(right := a.right - 1), ColumnCells(a.right - 1, a.top, a.bottom);
    assert Cells(a) == Cells(b) + column;
    assert Cells(b) !! column;
  }

  lemma {:induction false} CellsSize(a: Area)
    requires a.left <= a.right && a.top <= a.bottom
    ensures |Cells(a)| == (a.right - a.left) * (a.bottom - a.top)
    decreases a.right - a.left
  {
    if a.left < a.right {
      var b := a.(right := a.right - 1);
      CellsSize(b);
      ColumnSize(b.right, a.top, a.bottom);
      OneMoreColumn(a);
      NextMultiple(b.right - b.left, a.bottom - a.top);
      hide Cells, ColumnCells;
    } else {
      assert Cells(a) == {};
    }
  }

  function CellOf(c: WallClient): (int, int) {
    (c.gridX, c.gridY)
  }

  /** The cells that have a client. */
  function Occupied(order: seq<SocketAddr>, clients: Clients): set<(int, int)>
    requires forall i :: 0 <= i < |order| ==> order[i] in clients
  {
    set i | 0 <= i < |order| :: CellOf(clients[order[i]])
  }

  lemma OneMoreOccupied(order: seq<SocketAddr>, clients: Clients)
    requires order != [] && forall i :: 0 <= i < |order| ==> order[i] in clients
    ensures Occupied(order, clients) ==
            Occupied(order[..|order| - 1], clients) + {CellOf(clients[order[|order| - 1]])}
  {
    var n := |order| - 1;
    var front := order[..n];
    forall i | 0 <= i < |front| ensures CellOf(clients[front[i]]) in Occupied(order, clients) {
      assert front[i] == order[i];
    }
    forall i | 0 <= i < n ensures CellOf(clients[order[i]]) in Occupied(front, clients) {
      assert front[i] == order[i];
    }
    assert CellOf(clients[order[n]]) in Occupied(order, clients);
  }

  lemma {:induction false} OccupiedSize(order: seq<SocketAddr>, clients: Clients)
    requires forall i :: 0 <= i < |order| ==> order[i] in clients
    requires forall i, j :: 0 <= i < j < |order| ==> !SameCell(clients[order[i]], clients[order[j]])
    ensures |Occupied(order, clients)| == |order|
  {
    if order == [] {
      assert Occupied(order, clients) == {};
    } else {
      var n := |order| - 1;
      OccupiedSize(order[..n], clients);
      OneMoreOccupied(order, clients);
      assert CellOf(clients[order[n]]) !in Occupied(order[..n], clients);
    }
  }

  lemma OccupiedInSpan(order: seq<SocketAddr>, clients: Clients)
    requires order != [] && forall i :: 0 <= i < |order| ==> order[i] in clients
    ensures Occupied(order, clients) <= Cells(Span(order, clients))
  {
    hide Least, Greatest;
    var _, _ := Extremes(Columns(order, clients));
    var _, _ := Extremes(Rows(order, clients));
    forall i | 0 <= i < |order|
      ensures CellOf(clients[order[i]]) in Cells(Span(order, clients))
    {
      var c := clients[order[i]];
      assert Columns(order, clients)[i] == c.gridX && Rows(order, clients)[i] == c.gridY;
    }
  }

  function BoxArea(b: Box): nat {
    b.width * b.height
  }

  lemma ScaledArea(columns: nat, rows: nat, w: nat, h: nat)
    ensures (columns * w) * (rows * h) == (columns * rows) * (w * h)
  {
    calc {
      (columns * w) * (rows * h);
      columns * (w * (rows * h));
      { assert w * (rows * h) == rows * (w * h); }
      columns * (rows * (w * h));
      (columns * rows) * (w * h);
    }
  }

  lemma ScaledCompare(m: nat, n: nat, k: nat)
    requires m <= n && k > 0
    ensures m * k <= n * k
    ensures m * k == n * k <==> m == n
  {
    assert (n - m) * k == n * k - m * k;
  }

  lemma AreaOfCells(span: Area, b: Box, n: nat, w: nat, h: nat)
    requires span.left < span.right && span.top < span.bottom && w > 0 && h > 0
    requires Extent(b) == Area(Scaled(span.left, w), Scaled(span.top, h), Scaled(span.right, w), Scaled(span.bottom, h))
    requires n <= (span.right - span.left) * (span.bottom - span.top)
    ensures n * (w * h) <= BoxArea(b)
    ensures n * (w * h) == BoxArea(b) <==> n == (span.right - span.left) * (span.bottom - span.top)
  {
    var columns, rows := span.right - span.left, span.bottom - span.top;
    assert columns * w == span.right * w - span.left * w;
    assert rows * h == span.bottom * h - span.top * h;
    assert w * h > 0;
    ScaledArea(columns, rows, w, h);
    ScaledCompare(n, columns * rows, w * h);
  }

  lemma SpanNotEmpty(order: seq<SocketAddr>, clients: Clients)
    requires order != [] && forall i :: 0 <= i < |order| ==> order[i] in clients
    ensures Span(order, clients).left < Span(order, clients).right
    ensures Span(order, clients).top < Span(order, clients).bottom
  {
    var _, _ := Extremes(Columns(order, clients));
    var _, _ := Extremes(Rows(order, clients));
    assert Least(Columns(order, clients)) <= Columns(order, clients)[0] <= Greatest(Columns(order, clients));
    assert Least(Rows(order, clients)) <= Rows(order, clients)[0] <= Greatest(Rows(order, clients));
  }

  lemma SubsetSize<T>(a: set<T>, b: set<T>)
    requires a <= b
    ensures |a| <= |b| && (|a| == |b| <==> a == b)
  {
    assert |b - a| == |b| - |a|;
  }

  lemma {:induction false} SequenceSize(order: seq<SocketAddr>)
    requires forall i, j :: 0 <= i < j < |order| ==> order[i] != order[j]
    ensures |set a | a in order| == |order|
  {
    if order == [] {
    } else {
      var n := |order| - 1;
      SequenceSize(order[..n]);
      assert (set a | a in order) == (set a | a in order[..n]) + {order[n]};
    }
  }

  lemma {:induction false} EnumerationSize(order: seq<SocketAddr>, clients: Clients)
    requires Enumerates(order, clients)
    ensures |order| == |clients|
  {
    SequenceSize(order);
    assert (set a | a in order) == clients.Keys;
    assert |clients| == |clients.Keys|;
  }

  lemma SpanArea(order: seq<SocketAddr>, clients: Clients, w: u32, h: u32, n: nat)
    requires order != [] && Enumerates(order, clients) && Uniform(clients, w, h)
    requires n <= |Cells(Span(order, clients))|
    ensures var area := BoxArea(BoundingBox(EntriesInOrder(order, clients)));
            n * (w * h) <= area && (n * (w * h) == area <==> n == |Cells(Span(order, clients))|)
  {
    BoxIsSpan(order, clients, w, h);
    SpanNotEmpty(order, clients);
    assert w > 0 && h > 0;
    hide *;
    CellsSize(Span(order, clients));
    AreaOfCells(Span(order, clients), BoundingBox(EntriesInOrder(order, clients)), n, w, h);
  }

  /**
   * Main result: the displays of a uniform wall with distinct cells never cover more than the bounding box, and cover
   * all of it exactly when every cell of the span has a client.
   */
  lemma {:induction false} AreaBound(order: seq<SocketAddr>, clients: Clients, w: u32, h: u32)
    requires order != [] && Enumerates(order, clients) && Uniform(clients, w, h) && DistinctCells(clients)
    ensures |order| == |clients|
    ensures var area := BoxArea(BoundingBox(EntriesInOrder(order, clients)));
            && |clients| * (w * h) <= area
            && (|clients| * (w * h) == area <==> Occupied(order, clients) == Cells(Span(order, clients)))
  {
    EnumerationSize(order, clients);
    OccupiedSize(order, clients);
    OccupiedInSpan(order, clients);
    hide *;
    SubsetSize(Occupied(order, clients), Cells(Span(order, clients)));
    SpanArea(order, clients, w, h, |clients|);
  }

  lemma SameEntries(s: seq<DisplayEntry>, t: seq<DisplayEntry>, clients: Clients)
    requires IsLayout(s, clients) && IsLayout(t, clients)
    ensures forall e :: e in s ==> e in t
  {
    hide EntryOf;
    var p :| Enumerates(p, clients) && s == EntriesInOrder(p, clients);
    var q :| Enumerates(q, clients) && t == EntriesInOrder(q, clients);
    forall i | 0 <= i < |s| ensures s[i] in t {
      assert p[i] in q;
      var j :| 0 <= j < |q| && q[j] == p[i];
      assert t[j] == s[i];
    }
  }

  /** The hash map may yield the clients in any order; the box is the same. */
  lemma {:induction false} LayoutBoxUnique(s: seq<DisplayEntry>, t: seq<DisplayEntry>, clients: Clients)
    requires IsLayout(s, clients) && IsLayout(t, clients)
    ensures BoundingBox(s) == BoundingBox(t)
  {
    SameEntries(s, t, clients);
    SameEntries(t, s, clients);
    OrderIrrelevant(s, t);
  }
}
