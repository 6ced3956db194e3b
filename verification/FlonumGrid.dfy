/**
 The flonum nearest to a number.  Flonums are compared on the grid of the least one: a flonum f * 2^e is
 f * 2^(e + 1074) steps from zero.
 */
module FlonumGrid {
  import opened Arith
  import opened Modular
  import opened Radix
  import opened Flonum

  const TWO_53: nat := 0x20_0000_0000_0000

  /** The flonums that are not negative, each with its one significand and exponent. */
  predicate IsFlonum(f: nat, e: int) {
    LEAST_EXPONENT <= e && f < TWO_53 && (e == LEAST_EXPONENT || TWO_52 <= f)
  }

  /** How many steps of the grid 2^e spans. */
  function Steps(e: int): nat
    requires LEAST_EXPONENT <= e
  {
    Pow2(e - LEAST_EXPONENT)
  }

  /** Where the flonum lies on the grid. */
  function Place(f: nat, e: int): int
    requires LEAST_EXPONENT <= e
  {
    f * Steps(e)
  }

  /** How far the point p / T of the grid is from the flonum, as a multiple of 1 / T. */
  function Gap(p: int, T: int, f: nat, e: int): nat
    requires LEAST_EXPONENT <= e
  {
    Abs(p - T * Place(f, e))
  }

  /** Another flonum is farther away, or as far when this one has the even significand. */
  ghost predicate IsNearer(p: int, T: int, f: nat, e: int, g: nat, d: int)
    requires LEAST_EXPONENT <= e && LEAST_EXPONENT <= d
  {
    Gap(p, T, f, e) < Gap(p, T, g, d) || (Gap(p, T, f, e) == Gap(p, T, g, d) && f % 2 == 0)
  }

  /** The flonum is the nearest one to N / T, and the even one of two. */
  ghost predicate IsNearest(N: int, T: int, f: nat, e: int)
    requires LEAST_EXPONENT <= e
  {
    forall g: nat, d: int {:trigger IsFlonum(g, d)} :: IsFlonum(g, d) && (g, d) != (f, e) ==>
      IsNearer(N * Steps(0), T, f, e, g, d)
  }

  // ----- neighbours -----

  lemma StepsDouble(d: int, e: int)
    requires LEAST_EXPONENT <= d < e
    ensures 2 * Steps(d) <= Steps(e)
  {
    Pow2Step(d + 1 - LEAST_EXPONENT);
    Pow2Mono(d + 1 - LEAST_EXPONENT, e - LEAST_EXPONENT);
  }

  /** A flonum is at least one unit above another, or below it by one unit, or by half of one when the other
      starts a binade. */
  lemma Neighbours(f: nat, e: int, g: nat, d: int)
    requires IsFlonum(f, e) && IsFlonum(g, d) && (f, e) != (g, d)
    ensures var u, V, W := Steps(e), Place(f, e), Place(g, d);
            || V + u <= W
            || (if f == TWO_52 && e > LEAST_EXPONENT then 2 * W <= 2 * V - u else W <= V - u)
  {
    var u, w := Steps(e), Steps(d);
    if d == e {
      if g > f {
        MulMono(u, f + 1, g);
        MulDist(u, f, 1);
      } else {
        MulMono(u, g, f - 1);
        MulDist(u, f - 1, 1);
      }
    } else if d > e {
      StepsDouble(e, d);
      MulMono(w, TWO_52, g);
      MulMono(u, f + 1, TWO_53);
      MulDist(u, f, 1);
    } else {
      StepsDouble(d, e);
      MulMono(w, g, TWO_53 - 1);
      MulMono(u, TWO_52, f);
      if f > TWO_52 {
        MulMono(u, TWO_52 + 1, f);
      }
    }
  }

  // ----- the interval on the grid -----

  lemma CancelUnit(a: int, b: int, s: int, top: int, bottom: int, U: int, u: int)
    requires a * bottom == b * top * s && top * U == u * bottom && bottom > 0
    ensures a * U == b * u * s
  {
    calc {
      a * U * bottom;
      a * bottom * U;
      b * top * s * U;
      b * s * (top * U);
      b * s * (u * bottom);
      b * u * s * bottom;
    }
  }

  lemma UnitOnGrid(e: int)
    requires LEAST_EXPONENT <= e
    ensures UnitTop(e) * Steps(0) == Steps(e) * UnitBottom(e)
  {
    if e >= 0 {
      Pow2Add(e, -LEAST_EXPONENT);
    } else {
      Pow2Add(e - LEAST_EXPONENT, -e);
    }
  }

  /** The flonum and the ends of its interval, in steps of the grid. */
  lemma StartOnGrid(f: nat, e: int)
    requires f > 0 && LEAST_EXPONENT <= e
    ensures var v, u, U := Start(f, e), Steps(e), Steps(0);
            && v.s > 0 && v.r * U == Place(f, e) * v.s && 2 * v.Mp() * U == u * v.s
            && (if v.mp2 then 4 else 2) * v.mm * U == u * v.s
  {
    StartIsFlonum(f, e);
    UnitOnGrid(e);
    var v, top, bottom, u, U := Start(f, e), UnitTop(e), UnitBottom(e), Steps(e), Steps(0);
    CancelUnit(v.r, f, v.s, top, bottom, U, u);
    CancelUnit(2 * v.Mp(), 1, v.s, top, bottom, U, u);
    CancelUnit((if v.mp2 then 4 else 2) * v.mm, 1, v.s, top, bottom, U, u);
  }

  /** Comparing with an end of the interval, and with the point of the grid where it lies. */
  lemma EndOnGrid(end: int, s: int, U: int, X: int, N: int, T: int)
    requires s > 0 && U > 0 && 4 * end * U == X * s
    ensures end * T <= N * s <==> X * T <= 4 * (N * U)
    ensures N * s <= end * T <==> 4 * (N * U) <= X * T
  {
    MulOrder(end * T, N * s, 4 * U);
    MulOrder(N * s, end * T, 4 * U);
    calc {
      end * T * (4 * U);
      4 * end * U * T;
      X * s * T;
      X * T * s;
    }
    assert N * s * (4 * U) == 4 * (N * U) * s;
    MulOrder(X * T, 4 * (N * U), s);
    MulOrder(4 * (N * U), X * T, s);
  }

  /** The interval reaches half a unit up, and half or a quarter of one down. */
  lemma InsideOnGrid(f: nat, e: int, N: int, T: int)
    requires f > 0 && LEAST_EXPONENT <= e
    ensures var v, u, V, p := Start(f, e), Steps(e), Place(f, e), N * Steps(0);
            var low, high := 4 * V - (if v.mp2 then u else 2 * u), 4 * V + 2 * u;
            v.Inside(N, T) <==> if v.even then low * T <= 4 * p <= high * T else low * T < 4 * p < high * T
  {
    StartOnGrid(f, e);
    var v, u, V, U := Start(f, e), Steps(e), Place(f, e), Steps(0);
    var low, high := 4 * V - (if v.mp2 then u else 2 * u), 4 * V + 2 * u;
    EndsAre(v.r, v.mm, v.Mp(), v.s, U, V, u, v.mp2);
    EndOnGrid(v.r - v.mm, v.s, U, low, N, T);
    EndOnGrid(v.r + v.Mp(), v.s, U, high, N, T);
  }

  lemma EndsAre(r: int, mm: int, mp: int, s: int, U: int, V: int, u: int, mp2: bool)
    requires r * U == V * s && 2 * mp * U == u * s && (if mp2 then 4 else 2) * mm * U == u * s
    ensures 4 * (r - mm) * U == (4 * V - (if mp2 then u else 2 * u)) * s
    ensures 4 * (r + mp) * U == (4 * V + 2 * u) * s
  {
  }

  // ----- the nearest flonum -----

  /** A point of the interval is no nearer to any flonum outside of it. */
  lemma Nearest(p: int, TV: int, TW: int, Tu: int, quarters: int, even: bool)
    requires Tu > 0 && (quarters == 1 || quarters == 2)
    requires if even then 4 * TV - quarters * Tu <= 4 * p <= 4 * TV + 2 * Tu
        else 4 * TV - quarters * Tu < 4 * p < 4 * TV + 2 * Tu
    requires TV + Tu <= TW || 2 * TW <= 2 * TV - quarters * Tu
    ensures Abs(p - TV) < Abs(p - TW) || (Abs(p - TV) == Abs(p - TW) && even)
  {
  }

  /** The one flonum whose interval is too wide: the source takes its exponent for the least one. */
  predicate IsException(f: nat, e: int) {
    f == TWO_52 && e == -1023
  }

  lemma InsideIsNearest(f: nat, e: int, N: int, T: int)
    requires IsFlonum(f, e) && f > 0 && T > 0 && !IsException(f, e) && Start(f, e).Inside(N, T)
    ensures IsNearest(N, T, f, e)
  {
    var v, u, V, p := Start(f, e), Steps(e), Place(f, e), N * Steps(0);
    StartIsFlonum(f, e);
    InsideOnGrid(f, e, N, T);
    var quarters := if v.mp2 then 1 else 2;
    forall g: nat, d: int | IsFlonum(g, d) && (g, d) != (f, e) ensures IsNearer(p, T, f, e, g, d) {
      var W := Place(g, d);
      Neighbours(f, e, g, d);
      NeighbourScaled(V, W, u, T, quarters);
      Nearest(p, T * V, T * W, T * u, quarters, v.even);
    }
  }

  lemma NeighbourScaled(V: int, W: int, u: int, T: int, quarters: int)
    requires T > 0 && u > 0 && (V + u <= W || 2 * W <= 2 * V - quarters * u)
    ensures T * u > 0 && (T * V + T * u <= T * W || 2 * (T * W) <= 2 * (T * V) - quarters * (T * u))
    ensures (4 * V + 2 * u) * T == 4 * (T * V) + 2 * (T * u)
    ensures (4 * V - quarters * u) * T == 4 * (T * V) - quarters * (T * u)
  {
    if V + u <= W {
      MulMono(T, V + u, W);
    } else {
      MulMono(T, 2 * W, 2 * V - quarters * u);
    }
  }

  lemma InsideButNearer(V: int, W: int, u: int, T: int, p: int)
    requires T > 0 && u > 0 && 2 * W == 2 * V - u && p == W * T
    ensures (4 * V - 2 * u) * T <= 4 * p <= (4 * V + 2 * u) * T && Abs(p - T * W) < Abs(p - T * V)
  {
    MulMono(T, W, V - 1);
    MulMono(T, 4 * W, 4 * V + 2 * u);
    assert 4 * V - 2 * u == 4 * W;
    assert W * T == T * W;
  }

  /** The flonum below the exception is a decimal, and lies in its interval. */
  lemma ExceptionIsNot(f: nat, e: int, n: nat) returns (N: int)
    requires IsException(f, e) && n == -LEAST_EXPONENT
    ensures Start(f, e).Inside(N, Pow(10, n)) && !IsNearest(N, Pow(10, n), f, e)
  {
    var g: nat, d, T := TWO_53 - 1, e - 1, Pow(10, n);
    var V, W, u := Place(f, e), Place(g, d), Steps(e);
    N := W * Pow(5, n);
    var p := N * Steps(0);
    PowPositive(10, n);
    PowMul(2, 5, n);
    MulAssoc(W, Pow(5, n), Pow2(n));
    Pow2Step(e - LEAST_EXPONENT);
    assert u == 2 * Steps(d);
    InsideButNearer(V, W, u, T, p);
    StartIsFlonum(f, e);
    InsideOnGrid(f, e, N, T);
    assert IsFlonum(g, d) && !IsNearer(p, T, f, e, g, d);
  }

  /** If the decimal N / 10^j lies in the interval, the flonum is the nearest one. */
  ghost predicate InsideIsNear(f: nat, e: int, N: int, j: nat)
    requires LEAST_EXPONENT <= e
  {
    Start(f, e).Inside(N, Pow(10, j)) ==> IsNearest(N, Pow(10, j), f, e)
  }

  /** Every decimal in the interval of `double_print` is nearest to the flonum, for every flonum but one. */
  lemma IntervalIsNear(f: nat, e: int)
    requires IsFlonum(f, e) && f > 0
    ensures (forall N: int, j: nat :: InsideIsNear(f, e, N, j)) <==> !IsException(f, e)
  {
    if IsException(f, e) {
      var N := ExceptionIsNot(f, e, -LEAST_EXPONENT);
      assert !InsideIsNear(f, e, N, -LEAST_EXPONENT);
    } else {
      forall N: int, j: nat ensures InsideIsNear(f, e, N, j) {
        PowPositive(10, j);
        if Start(f, e).Inside(N, Pow(10, j)) {
          InsideIsNearest(f, e, N, Pow(10, j));
        }
      }
    }
  }
}
