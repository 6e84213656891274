/** Scaling of pixel coordinates to the absolute range of injected mouse moves. */
module Mouse {
  import opened Arithmetic
  import opened Bytes

  const RANGE: int := 65535

  datatype InputError = InjectionFailed

  /** Division that rounds toward zero. */
  function TruncDiv(a: int, b: int): int
    requires b > 0
  {
    if a >= 0 then a / b else -((-a) / b)
  }

  /** The screen metrics, refused unless both are positive. */
  function ScreenSize(w: i32, h: i32): Result<(i32, i32), InputError> {
    if w <= 0 || h <= 0 then Err(InjectionFailed) else Ok((w, h))
  }

  /** The product is taken in 64 bits, where it fits; the quotient is cut to 32 bits. */
  function Normalize(x: i32, size: i32): i32
    requires size > 0
  {
    Wrap32(TruncDiv(x * RANGE, size))
  }

  function MouseMove(x: i32, y: i32, w: i32, h: i32): Result<(i32, i32), InputError> {
    match ScreenSize(w, h)
    case Err(e) => Err(e)
    case Ok((sw, sh)) => Ok((Normalize(x, sw), Normalize(y, sh)))
  }

  predicate OnScreen(x: i32, size: i32) {
    0 <= x < size
  }

  /** The quotient of an on-screen coordinate, before the cut to 32 bits. */
  lemma RawQuotient(x: nat, size: nat)
    requires x < size
    ensures var q := TruncDiv(x * RANGE, size);
            && 0 <= q < RANGE
            && q * size <= x * RANGE < q * size + size
            && TruncDiv(-(x * RANGE), size) == -q
  {
    var a := x * RANGE;
    var q := a / size;
    assert a >= 0 && q >= 0;
    assert a == 0 ==> q == 0;
    assert q * size <= a < q * size + size;
    assert a < RANGE * size by {
      assert RANGE * size - a == (size - x) * RANGE;
    }
    if q >= RANGE {
      MulOrder(RANGE, q, size);
    }
  }

  /** The same for what is injected. */
  lemma {:induction false} Quotient(x: i32, size: i32)
    requires OnScreen(x, size)
    ensures 0 <= Normalize(x, size) < RANGE
    ensures Normalize(x, size) * size <= x * RANGE < Normalize(x, size) * size + size
  {
    RawQuotient(x, size);
    hide TruncDiv;
  }

  /** Order is preserved. */
  lemma {:induction false} Monotone(x: i32, y: i32, size: i32)
    requires OnScreen(x, size) && OnScreen(y, size) && x <= y
    ensures Normalize(x, size) <= Normalize(y, size)
  {
    Quotient(x, size);
    Quotient(y, size);
    var p, q := Normalize(x, size), Normalize(y, size);
    assert (q + 1) * size == q * size + size;
    if p > q {
      MulOrder(q + 1, p, size);
    }
  }

  function CeilDiv(a: nat, b: nat): nat
    requires b > 0
  {
    (a + b - 1) / b
  }

  lemma CeilOf(v: nat, x: nat)
    requires x * RANGE - RANGE < v <= x * RANGE
    ensures CeilDiv(v, RANGE) == x
  {
  }

  /** Main result: a coordinate on a screen of at most 65535 pixels is recovered exactly. */
  lemma {:induction false} Recovered(x: i32, size: i32)
    requires OnScreen(x, size) && size <= RANGE
    ensures Normalize(x, size) * size >= 0
    ensures CeilDiv(Normalize(x, size) * size, RANGE) == x
  {
    Quotient(x, size);
    var v := Normalize(x, size) * size;
    MulOrder(0, Normalize(x, size), size);
    assert x * RANGE - RANGE < v <= x * RANGE;
    CeilOf(v, x);
  }

  lemma StrictlyMonotone(x: i32, y: i32, size: i32)
    requires OnScreen(x, size) && OnScreen(y, size) && x < y && size <= RANGE
    ensures Normalize(x, size) < Normalize(y, size)
  {
    hide Normalize;
    Monotone(x, y, size);
    Recovered(x, size);
    Recovered(y, size);
  }

  lemma SmallQuotient(a: nat, b: nat)
    requires a < b
    ensures TruncDiv(a, b) == 0
  {
  }

  lemma Collision(size: i32)
    requires size > RANGE
    ensures OnScreen(0, size) && OnScreen(1, size) && Normalize(0, size) == Normalize(1, size)
  {
    SmallQuotient(0, size);
    SmallQuotient(RANGE, size);
    hide TruncDiv;
    assert 0 * RANGE == 0 && 1 * RANGE == RANGE;
  }

  /** Main result: different pixels keep different positions exactly on screens of at most 65535 pixels. */
  lemma {:induction false} InjectiveIffSmall(size: i32)
    requires size > 0
    ensures (forall x: i32, y: i32 :: OnScreen(x, size) && OnScreen(y, size) && x < y ==>
               Normalize(x, size) < Normalize(y, size)) <==> size <= RANGE
  {
    hide Normalize;
    if size <= RANGE {
      forall x: i32, y: i32 | OnScreen(x, size) && OnScreen(y, size) && x < y
        ensures Normalize(x, size) < Normalize(y, size)
      {
        StrictlyMonotone(x, y, size);
      }
    } else {
      Collision(size);
    }
  }

  lemma TruncDivOdd(a: int, b: int)
    requires b > 0
    ensures TruncDiv(-a, b) == -TruncDiv(a, b)
  {
  }

  lemma NegatedModulo(q: int)
    ensures (-q) % U32_SPAN == if q % U32_SPAN == 0 then 0 else U32_SPAN - q % U32_SPAN
  {
    var k, r := q / U32_SPAN, q % U32_SPAN;
    if r == 0 {
      Remainder(-k, 0);
    } else {
      assert -q == (-k - 1) * U32_SPAN + (U32_SPAN - r);
      Remainder(-k - 1, U32_SPAN - r);
    }
  }

  const LEAST: int := -0x8000_0000

  /** The cut to 32 bits keeps opposites, except of the one number that has none. */
  lemma WrapOdd(q: int)
    ensures var cut: int := Wrap32(q); Wrap32(-q) == (if cut == LEAST then LEAST else -cut)
  {
    NegatedModulo(q);
  }

  /**
   * Coordinates on either side of the origin are scaled symmetrically, toward zero, exactly unless the low 32 bits of
   * the quotient denote the one number that has no opposite.
   */
  lemma {:induction false} OddUnlessCut(x: i32, size: i32)
    requires size > 0 && x > LEAST
    ensures var p: int := Normalize(x, size);
            Normalize(-x, size) == -p <==> TruncDiv(x * RANGE, size) % U32_SPAN != 0x8000_0000
  {
    TruncDivOdd(x * RANGE, size);
    WrapOdd(TruncDiv(x * RANGE, size));
    hide TruncDiv;
    assert (-x) * RANGE == -(x * RANGE);
  }

  /** Two opposite coordinates, far off a screen of seven pixels, that are scaled to the same position. */
  lemma CutCollides()
    ensures Normalize(2147221500, 7) == LEAST && Normalize(-2147221500, 7) == LEAST
  {
  }

  lemma QuotientFits(x: nat, size: nat)
    requires size > 0 && x <= 0x8000 * size
    ensures 0 <= TruncDiv(x * RANGE, size) < 0x8000_0000
  {
    var a := x * RANGE;
    var q := a / size;
    assert q * size <= a;
    MulOrder(x, 0x8000 * size, RANGE);
    if q >= 0x8000_0000 {
      MulOrder(0x8000_0000, q, size);
    }
  }

  lemma DividesInto(a: nat, size: nat)
    requires size > 0
    ensures TruncDiv(a, size) * size <= a < TruncDiv(a, size) * size + size
  {
  }

  /** Beyond the screen the quotient is rounded down just the same, up to 32768 screens away. */
  lemma {:induction false} FarQuotient(x: i32, size: i32)
    requires size > 0 && 0 <= x < 0x8000 * size
    ensures var q: int := Normalize(x, size); q * size <= x * 65535 < q * size + size
  {
    QuotientFits(x, size);
    var a := x * RANGE;
    assert a >= 0;
    DividesInto(a, size);
    hide TruncDiv, Wrap32;
  }

  /** In particular up to 32768 screens away from the origin, where the quotient fits. */
  lemma {:induction false} Odd(x: i32, size: i32)
    requires size > 0 && x > LEAST && -0x8000 * size <= x <= 0x8000 * size
    ensures var p: int := Normalize(x, size); Normalize(-x, size) == -p
  {
    QuotientFits(if x < 0 then -x else x, size);
    TruncDivOdd(x * RANGE, size);
    hide TruncDiv, Wrap32;
    assert (-x) * RANGE == -(x * RANGE);
    assert -0x8000_0000 < TruncDiv(x * RANGE, size) < 0x8000_0000;
  }

  // ---------- the whole move ----------

  /** A move is refused exactly for refused metrics, and one on the screen lands within the absolute range. */
  lemma MoveInRange(x: i32, y: i32, w: i32, h: i32)
    ensures MouseMove(x, y, w, h).Err? <==> w <= 0 || h <= 0
    ensures 0 <= x < w && 0 <= y < h ==>
              && MouseMove(x, y, w, h).Ok?
              && var (nx, ny) := MouseMove(x, y, w, h).value;
              && 0 <= nx < 65535 && nx * w <= x * 65535 < nx * w + w
              && 0 <= ny < 65535 && ny * h <= y * 65535 < ny * h + h
  {
    if OnScreen(x, w) && OnScreen(y, h) {
      Quotient(x, w);
      Quotient(y, h);
      hide Normalize;
    }
  }
}
