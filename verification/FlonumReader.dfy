/** Reading flonums (src/number.c, the end of `read_real`): one floating-point operation, or `algorithmR`. */
module FlonumReader {
  import opened Arith
  import opened Modular
  import opened Radix
  import opened Flonum
  import opened FlonumGrid

  const GREATEST_EXPONENT: int := 971

  datatype Double = Finite(m: nat, k: int) | Infinite

  predicate IsDouble(m: nat, k: int) {
    IsFlonum(m, k) && k <= GREATEST_EXPONENT
  }

  /** At least half way from the greatest flonum to the next power of two. */
  ghost predicate Overflows(N: int, T: int) {
    T * (2 * Place(TWO_53 - 1, GREATEST_EXPONENT) + Steps(GREATEST_EXPONENT)) <= 2 * (N * Steps(0))
  }

  /** What N / T is to be read as: the nearest flonum, the even one of two, or infinity. */
  ghost predicate IsRight(N: int, T: int, z: Double) {
    match z
    case Finite(m, k) => IsDouble(m, k) && IsNearest(N, T, m, k)
    case Infinite => Overflows(N, T)
  }

  // ----- neighbours -----

  /** `prevfloat` and `nextfloat`. */
  function Prev(m: nat, k: int): (nat, int)
    requires m > 0
  {
    if k > LEAST_EXPONENT && m == TWO_52 then (TWO_53 - 1, k - 1) else (m - 1, k)
  }

  function Next(m: nat, k: int): (nat, int) {
    if m == TWO_53 - 1 then (TWO_52, k + 1) else (m + 1, k)
  }

  lemma NextPlace(m: nat, k: int)
    requires IsFlonum(m, k)
    ensures var (m', k') := Next(m, k); IsFlonum(m', k') && Place(m', k') == Place(m, k) + Steps(k)
  {
    MulDist(Steps(k), m, 1);
    Pow2Step(k + 1 - LEAST_EXPONENT);
  }

  /** Twice the distance to the flonum below. */
  function TwiceBelow(m: nat, k: int): nat
    requires LEAST_EXPONENT <= k
  {
    if m == TWO_52 && k > LEAST_EXPONENT then Steps(k) else 2 * Steps(k)
  }

  lemma PrevPlace(m: nat, k: int)
    requires IsFlonum(m, k) && m > 0
    ensures var (m', k') := Prev(m, k); IsFlonum(m', k') && 2 * Place(m', k') == 2 * Place(m, k) - TwiceBelow(m, k)
  {
    MulDist(Steps(k), m - 1, 1);
    if k > LEAST_EXPONENT {
      Pow2Step(k - LEAST_EXPONENT);
    }
  }

  /** Within half of the distances to its neighbours, a flonum is the nearest one. */
  lemma WithinIsNearest(N: int, T: int, m: nat, k: int)
    requires IsFlonum(m, k) && T > 0
    requires var p, TV, Tu := N * Steps(0), T * Place(m, k), T * Steps(k);
             var low := 4 * TV - if m == TWO_52 && k > LEAST_EXPONENT then Tu else 2 * Tu;
             if m % 2 == 0 then low <= 4 * p <= 4 * TV + 2 * Tu else low < 4 * p < 4 * TV + 2 * Tu
    ensures IsNearest(N, T, m, k)
  {
    var u, V, p := Steps(k), Place(m, k), N * Steps(0);
    var quarters := if m == TWO_52 && k > LEAST_EXPONENT then 1 else 2;
    forall g: nat, d: int | IsFlonum(g, d) && (g, d) != (m, k) ensures IsNearer(p, T, m, k, g, d) {
      Neighbours(m, k, g, d);
      NeighbourScaled(V, Place(g, d), u, T, quarters);
      Nearest(p, T * V, T * Place(g, d), T * u, quarters, m % 2 == 0);
    }
  }

  // ----- one round of the algorithm -----

  /** What `algorithmR` does next: return the flonum, its lower or its upper neighbour, or go on with one of them. */
  datatype Move = Stay | LastDown | LastUp | Down | Up

  function Sign(a: int, b: int): int {
    if a < b then -1 else if a == b then 0 else 1
  }

  /** `test` compares twice the distance with the unit, and `wide` says that it is more than a quarter of it. */
  function Decide(m: nat, k: int, negative: bool, test: int, wide: bool): Move {
    if test < 0 then
      if negative && m == TWO_52 && k > LEAST_EXPONENT && wide then Down else Stay
    else if test == 0 then
      if m % 2 == 0 then (if negative && m == TWO_52 then Down else Stay)
      else if negative then LastDown else LastUp
    else if negative then Down else Up
  }

  /** The same on the grid: how far N / T is from the flonum. */
  ghost predicate IsMove(N: int, T: int, m: nat, k: int, move: Move)
    requires LEAST_EXPONENT <= k
  {
    var p, TV, Tu := N * Steps(0), T * Place(m, k), T * Steps(k);
    move == Decide(m, k, p < TV, Sign(2 * Abs(p - TV), Tu), 4 * Abs(p - TV) > Tu)
  }

  lemma FirstOnGrid(N: int, b: int, u: int, a: int, U: int)
    requires a * U == u * b
    ensures (N * b) * u == a * (N * U)
  {
    MulAssoc(N, b, u);
    MulAssoc(N, a, U);
    MulAssoc(a, N, U);
  }

  lemma SecondOnGrid(m: int, a: int, T: int, u: int)
    ensures (m * a * T) * u == a * (T * (m * u))
  {
    calc {
      (m * a * T) * u;
      { MulAssoc(m * a, T, u); }
      (m * a) * (T * u);
      { MulAssoc(a, m, T * u); }
      a * (m * (T * u));
      { MulAssoc(m, T, u); MulAssoc(T, m, u); }
      a * (T * (m * u));
    }
  }

  lemma DistanceOnGrid(N: int, T: int, m: nat, k: int, D: int)
    requires LEAST_EXPONENT <= k && D == N * UnitBottom(k) - m * UnitTop(k) * T
    ensures D * Steps(k) == UnitTop(k) * (N * Steps(0) - T * Place(m, k))
  {
    var a, b, u, U := UnitTop(k), UnitBottom(k), Steps(k), Steps(0);
    UnitOnGrid(k);
    FirstOnGrid(N, b, u, a, U);
    SecondOnGrid(m, a, T, u);
    Difference(N * b, m * a * T, u);
    Difference(N * U, T * (m * u), a);
  }

  lemma Difference(x: int, y: int, c: int)
    ensures (x - y) * c == x * c - y * c
  {
  }

  /** Comparing `2 * m * |D|` and `y` as the source does is comparing on the grid. */
  lemma TestOnGrid(m: int, D: int, d: int, a: int, u: int, y: int, T: int)
    requires m > 0 && a > 0 && u > 0 && D >= 0 && d >= 0 && D * u == a * d && y == m * a * T
    ensures Sign(2 * m * D, y) == Sign(2 * d, T * u) && (2 * (2 * m * D) > y <==> 4 * d > T * u)
  {
    calc {
      2 * m * D * u;
      2 * m * (D * u);
      2 * m * (a * d);
      m * a * (2 * d);
    }
    assert y * u == m * a * (T * u);
    assert 2 * (2 * m * D) * u == 2 * (2 * m * D * u) == m * a * (4 * d);
    ScaleOrder(2 * m * D, y, u);
    ScaleOrder(2 * (2 * m * D), y, u);
    MulSign(m, a);
    ScaleOrder(2 * d, T * u, m * a);
    ScaleOrder(4 * d, T * u, m * a);
  }

  lemma MulSign(a: int, b: int)
    requires a > 0 && b > 0
    ensures a * b > 0
  {
  }

  lemma ScaleOrder(a: int, b: int, c: int)
    requires c > 0
    ensures Sign(a, b) == Sign(a * c, b * c) == Sign(c * a, c * b)
  {
    MulOrder(a, b, c);
    MulOrder(b, a, c);
  }

  lemma NextScaled(T: int, m: nat, k: int)
    requires IsFlonum(m, k)
    ensures var (m', k') := Next(m, k); IsFlonum(m', k') && T * Place(m', k') == T * Place(m, k) + T * Steps(k)
    ensures m == TWO_53 - 1 ==> T * Steps(k + 1) == 2 * (T * Steps(k))
  {
    NextPlace(m, k);
    MulDist(T, Place(m, k), Steps(k));
    Pow2Step(k + 1 - LEAST_EXPONENT);
    MulAssoc(T, 2, Steps(k));
  }

  lemma PrevScaled(T: int, m: nat, k: int)
    requires IsFlonum(m, k) && m > 0
    ensures var (m', k') := Prev(m, k);
            && IsFlonum(m', k')
            && 2 * (T * Place(m', k')) == 2 * (T * Place(m, k)) - if m == TWO_52 && k > LEAST_EXPONENT then T * Steps(k)
                                                                  else 2 * (T * Steps(k))
  {
    PrevPlace(m, k);
    var (m', k') := Prev(m, k);
    MulAssoc(T, 2, Place(m', k'));
    MulAssoc(T, 2, Place(m, k));
    MulAssoc(T, 2, Steps(k));
    MulDist(T, 2 * Place(m, k), TwiceBelow(m, k));
  }

  lemma StayIsNearest(N: int, T: int, m: nat, k: int)
    requires IsFlonum(m, k) && T > 0 && IsMove(N, T, m, k, Stay)
    ensures IsNearest(N, T, m, k)
  {
    MulSign(T, Steps(k));
    WithinIsNearest(N, T, m, k);
  }

  /** Half way to the flonum below, the even one of the two is taken. */
  lemma TieBelow(N: int, T: int, m: nat, k: int, TV: int, Tu: int)
    requires IsFlonum(m, k) && m % 2 == 0 && T > 0 && TV == T * Place(m, k) && Tu == T * Steps(k)
    requires 4 * (N * Steps(0)) == 4 * TV - if m == TWO_52 && k > LEAST_EXPONENT then Tu else 2 * Tu
    ensures IsNearest(N, T, m, k)
  {
    MulSign(T, Steps(k));
    WithinIsNearest(N, T, m, k);
  }

  lemma LastUpIsTie(N: int, T: int, m: nat, k: int, TV: int, Tu: int)
    requires IsFlonum(m, k) && T > 0 && IsMove(N, T, m, k, LastUp) && TV == T * Place(m, k) && Tu == T * Steps(k)
    ensures m % 2 == 1 && 4 * (N * Steps(0)) == 4 * TV + 2 * Tu
  {
  }

  lemma LastUpIsNearest(N: int, T: int, m: nat, k: int)
    requires IsFlonum(m, k) && T > 0 && IsMove(N, T, m, k, LastUp)
    ensures var (m', k') := Next(m, k); IsFlonum(m', k') && IsNearest(N, T, m', k')
  {
    LastUpIsTie(N, T, m, k, T * Place(m, k), T * Steps(k));
    NextOfTie(N, T, m, k, T * Place(m, k), T * Steps(k));
  }

  lemma NextOfTie(N: int, T: int, m: nat, k: int, TV: int, Tu: int)
    requires IsFlonum(m, k) && m % 2 == 1 && T > 0 && TV == T * Place(m, k) && Tu == T * Steps(k)
    requires 4 * (N * Steps(0)) == 4 * TV + 2 * Tu
    ensures var (m', k') := Next(m, k); IsFlonum(m', k') && IsNearest(N, T, m', k')
  {
    NextScaled(T, m, k);
    if m == TWO_53 - 1 {
      TieBelow(N, T, TWO_52, k + 1, TV + Tu, 2 * Tu);
    } else {
      TieBelow(N, T, m + 1, k, TV + Tu, Tu);
    }
  }

  lemma TieAbove(N: int, T: int, m: nat, k: int, TV: int, Tu: int)
    requires IsFlonum(m, k) && m % 2 == 0 && T > 0 && TV == T * Place(m, k) && Tu == T * Steps(k)
    requires 4 * (N * Steps(0)) == 4 * TV + 2 * Tu
    ensures IsNearest(N, T, m, k)
  {
    MulSign(T, Steps(k));
    WithinIsNearest(N, T, m, k);
  }

  lemma LastDownIsTie(N: int, T: int, m: nat, k: int, TV: int, Tu: int)
    requires IsFlonum(m, k) && T > 0 && IsMove(N, T, m, k, LastDown) && TV == T * Place(m, k) && Tu == T * Steps(k)
    ensures m % 2 == 1 && 4 * (N * Steps(0)) == 4 * TV - 2 * Tu
  {
  }

  lemma LastDownIsNearest(N: int, T: int, m: nat, k: int)
    requires IsFlonum(m, k) && m > 0 && T > 0 && IsMove(N, T, m, k, LastDown)
    ensures var (m', k') := Prev(m, k); IsFlonum(m', k') && IsNearest(N, T, m', k')
  {
    LastDownIsTie(N, T, m, k, T * Place(m, k), T * Steps(k));
    PrevScaled(T, m, k);
    PrevOfTie(N, T, Prev(m, k).0, k, T * Place(m, k), T * Steps(k));
  }

  lemma PrevOfTie(N: int, T: int, m: nat, k: int, TV: int, Tu: int)
    requires IsFlonum(m, k) && m % 2 == 0 && T > 0 && Tu == T * Steps(k)
    requires 2 * (T * Place(m, k)) == 2 * TV - 2 * Tu && 4 * (N * Steps(0)) == 4 * TV - 2 * Tu
    ensures IsNearest(N, T, m, k)
  {
    TieAbove(N, T, m, k, TV - Tu, Tu);
  }

  lemma UpIsCloser(N: int, T: int, m: nat, k: int)
    requires IsFlonum(m, k) && T > 0 && IsMove(N, T, m, k, Up)
    ensures var (m', k') := Next(m, k); IsFlonum(m', k') && Gap(N * Steps(0), T, m', k') < Gap(N * Steps(0), T, m, k)
  {
    MulSign(T, Steps(k));
    NextScaled(T, m, k);
  }

  /** Going down gets closer, except from a tie at the least of the normal flonums. */
  lemma DownIsCloser(N: int, T: int, m: nat, k: int)
    requires IsFlonum(m, k) && m > 0 && T > 0 && IsMove(N, T, m, k, Down)
    ensures var (m', k') := Prev(m, k);
            && IsFlonum(m', k') && Gap(N * Steps(0), T, m', k') <= Gap(N * Steps(0), T, m, k)
            && (m != TWO_52 || k > LEAST_EXPONENT ==> Gap(N * Steps(0), T, m', k') < Gap(N * Steps(0), T, m, k))
  {
    MulSign(T, Steps(k));
    PrevScaled(T, m, k);
  }

  /** Beyond the greatest flonum there is infinity. */
  lemma UpOverflows(N: int, T: int, m: nat, k: int)
    requires IsDouble(m, k) && T > 0 && (IsMove(N, T, m, k, Up) || IsMove(N, T, m, k, LastUp))
    ensures Next(m, k).1 > GREATEST_EXPONENT ==> Overflows(N, T)
  {
    if Next(m, k).1 > GREATEST_EXPONENT {
      MulDist(T, 2 * Place(m, k), Steps(k));
      MulAssoc(T, 2, Place(m, k));
    }
  }

  lemma DownToZero(N: int, T: int, m: nat, k: int)
    requires N >= 0 && IsFlonum(m, k) && m > 0 && T > 0 && IsMove(N, T, m, k, Down) && Prev(m, k).0 == 0
    ensures k == LEAST_EXPONENT && IsNearest(N, T, 0, k)
  {
    assert m == 1 && k == LEAST_EXPONENT;
    assert Place(m, k) == Steps(k);
    MulMono(Steps(0), 0, N);
    WithinIsNearest(N, T, 0, k);
  }

  // ----- the algorithm -----

  function MakeDouble(m: nat, k: int): Double {
    if k > GREATEST_EXPONENT then Infinite else Finite(m, k)
  }

  /** One round of `algorithmR` on big integers. */
  method Round(N: nat, T: nat, m: nat, k: int) returns (move: Move)
    requires T > 0 && IsFlonum(m, k) && m > 0
    ensures IsMove(N, T, m, k, move)
  {
    var x, y;
    if k >= 0 {
      x, y := N, m * Pow2(k) * T;
    } else {
      x, y := N * Pow2(-k), m * 1 * T;
    }
    var D := x - y;
    var D2 := 2 * m * Abs(D);
    move := Decide(m, k, D < 0, Sign(D2, y), 2 * D2 > y);
    RoundOnGrid(N, T, m, k, D, y);
  }

  lemma RoundOnGrid(N: int, T: int, m: nat, k: int, D: int, y: int)
    requires LEAST_EXPONENT <= k && m > 0 && y == m * UnitTop(k) * T && D == N * UnitBottom(k) - y
    ensures var d := N * Steps(0) - T * Place(m, k);
            && (D < 0 <==> d < 0) && Sign(2 * m * Abs(D), y) == Sign(2 * Abs(d), T * Steps(k))
            && (2 * (2 * m * Abs(D)) > y <==> 4 * Abs(d) > T * Steps(k))
  {
    DistanceOnGrid(N, T, m, k, D);
    var d, a, u := N * Steps(0) - T * Place(m, k), UnitTop(k), Steps(k);
    ScaleOrder(D, 0, u);
    ScaleOrder(d, 0, a);
    assert Abs(D) * u == a * Abs(d);
    TestOnGrid(m, Abs(D), Abs(d), a, u, y, T);
  }

  /** `algorithmR`: from every positive flonum on, it ends at the nearest one. */
  method AlgorithmR(N: nat, T: nat, m0: nat, k0: int) returns (z: Double)
    requires T > 0 && IsDouble(m0, k0) && m0 > 0
    ensures IsRight(N, T, z)
  {
    var m, k := m0, k0;
    while true
      invariant IsFlonum(m, k) && (k > GREATEST_EXPONENT ==> Overflows(N, T))
      invariant m == 0 ==> IsNearest(N, T, m, k) && k == LEAST_EXPONENT
      decreases Gap(N * Steps(0), T, m, k), if m == TWO_52 then 1 else 0
    {
      if k > GREATEST_EXPONENT {
        return Infinite;
      }
      if m == 0 {
        return Finite(m, k);
      }
      var move := Round(N, T, m, k);
      match move
      case Stay =>
        StayIsNearest(N, T, m, k);
        return Finite(m, k);
      case LastDown =>
        LastDownIsNearest(N, T, m, k);
        return MakeDouble(Prev(m, k).0, Prev(m, k).1);
      case LastUp =>
        LastUpIsNearest(N, T, m, k);
        UpOverflows(N, T, m, k);
        return MakeDouble(Next(m, k).0, Next(m, k).1);
      case Down =>
        DownIsCloser(N, T, m, k);
        if Prev(m, k).0 == 0 {
          DownToZero(N, T, m, k);
        }
        m, k := Prev(m, k).0, Prev(m, k).1;
      case Up =>
        UpIsCloser(N, T, m, k);
        UpOverflows(N, T, m, k);
        m, k := Next(m, k).0, Next(m, k).1;
    }
  }

  // ----- there is one right answer -----

  /** Two flonums that are both nearest are the same: of two as near, only one has an even significand. */
  lemma NearestIsUnique(N: int, T: int, f: nat, e: int, g: nat, d: int)
    requires T > 0 && IsFlonum(f, e) && IsFlonum(g, d) && IsNearest(N, T, f, e) && IsNearest(N, T, g, d)
    ensures (f, e) == (g, d)
  {
    if (f, e) != (g, d) {
      if Place(f, e) < Place(g, d) {
        TwoNearest(N, T, f, e, g, d);
      } else {
        Neighbours(f, e, g, d);
        TwoNearest(N, T, g, d, f, e);
      }
    }
  }

  lemma NextIsBetween(f: nat, e: int, g: nat, d: int)
    requires IsFlonum(f, e) && IsFlonum(g, d) && Place(f, e) < Place(g, d)
    ensures var (f', e') := Next(f, e);
            IsFlonum(f', e') && if (f', e') == (g, d) then f % 2 != g % 2 else Place(f, e) < Place(f', e') < Place(g, d)
  {
    var (f', e') := Next(f, e);
    Neighbours(f, e, g, d);
    NextPlace(f, e);
    if (f', e') != (g, d) {
      Neighbours(f', e', g, d);
    }
  }

  lemma TwoNearest(N: int, T: int, f: nat, e: int, g: nat, d: int)
    requires T > 0 && IsFlonum(f, e) && IsFlonum(g, d) && Place(f, e) < Place(g, d)
    ensures !(IsNearest(N, T, f, e) && IsNearest(N, T, g, d))
  {
    NextIsBetween(f, e, g, d);
    var (f', e') := Next(f, e);
    if (f', e') != (g, d) {
      Middle(N * Steps(0), T, Place(f, e), Place(f', e'), Place(g, d));
    }
  }

  /** What lies between two places that are as near is nearer. */
  lemma Middle(p: int, T: int, V: int, X: int, W: int)
    requires T > 0 && V < X < W
    ensures Abs(p - T * V) == Abs(p - T * W) ==> Abs(p - T * X) < Abs(p - T * V)
  {
    MulOrder(V, X, T);
    MulOrder(X, W, T);
  }

  /** At least half way from the last flonum with the exponent `e` to the next one, none up to it is nearest. */
  lemma NoneUpTo(N: int, T: int, m: nat, k: int, f: nat, e: int)
    requires T > 0 && IsFlonum(m, k) && IsFlonum(f, e) && k <= e && f == TWO_53 - 1
    requires T * (2 * Place(f, e) + Steps(e)) <= 2 * (N * Steps(0))
    ensures !IsNearest(N, T, m, k)
  {
    var (g, d) := Next(f, e);
    NextScaled(T, f, e);
    MulDist(T, 2 * Place(f, e), Steps(e));
    MulAssoc(T, 2, Place(f, e));
    MulSign(T, Steps(e));
    if (m, k) != (f, e) {
      LastIsGreatest(m, k, f, e);
      MulOrder(Place(m, k), Place(f, e), T);
    }
    FartherUp(N * Steps(0), T * Place(m, k), T * Place(f, e), T * Place(g, d), T * Steps(e));
    assert IsFlonum(g, d) && (g, d) != (m, k) && !IsNearer(N * Steps(0), T, m, k, g, d);
  }

  lemma FartherUp(p: int, TM: int, TV: int, TX: int, Tu: int)
    requires Tu > 0 && TX == TV + Tu && 2 * TV + Tu <= 2 * p && TM <= TV
    ensures Abs(p - TX) <= Abs(p - TM) && (TM < TV ==> Abs(p - TX) < Abs(p - TM))
  {
  }

  lemma LastIsGreatest(m: nat, k: int, f: nat, e: int)
    requires IsFlonum(m, k) && IsFlonum(f, e) && k <= e && f == TWO_53 - 1 && (m, k) != (f, e)
    ensures Place(m, k) < Place(f, e)
  {
    if k < e {
      StepsDouble(k, e);
      MulMono(Steps(k), m, TWO_53 - 1);
    } else {
      MulMono(Steps(e), m, f - 1);
    }
  }

  /** No flonum is nearest where there is infinity. */
  lemma NoneBeyond(N: int, T: int, m: nat, k: int)
    requires T > 0 && IsDouble(m, k) && Overflows(N, T)
    ensures !IsNearest(N, T, m, k)
  {
    NoneUpTo(N, T, m, k, TWO_53 - 1, GREATEST_EXPONENT);
  }

  lemma RightIsUnique(N: int, T: int, z: Double, z': Double)
    requires T > 0 && IsRight(N, T, z) && IsRight(N, T, z')
    ensures z == z'
  {
    if z.Finite? && z'.Finite? {
      NearestIsUnique(N, T, z.m, z.k, z'.m, z'.k);
    } else if z.Finite? {
      NoneBeyond(N, T, z.m, z.k);
    } else if z'.Finite? {
      NoneBeyond(N, T, z'.m, z'.k);
    }
  }

  // ----- the end of `read_real` -----

  const MAX_EXACT_10_EXP: int := 23

  /** The flonum 1.0e23, which is not 10^23. */
  const TEN_23: nat := 99_999_999_999_999_991_611_392

  /** `dpow10` */
  function PowerOfTen(n: nat): nat
    requires n <= MAX_EXACT_10_EXP
  {
    if n == MAX_EXACT_10_EXP then TEN_23 else PowPositive(10, n); Pow(10, n)
  }

  /** The number F * 10^q as a fraction. */
  function Top(F: nat, q: int): nat {
    if q >= 0 then ScaleBy(F, q) else F
  }

  function Bottom(q: int): (T: nat)
    ensures T > 0
  {
    if q >= 0 then 1 else ScaleBy(1, -q)
  }

  ghost predicate IsReadRight(F: nat, q: int, z: Double) {
    IsRight(Top(F, q), Bottom(q), z)
  }

  /** When `algorithmR` is called for. */
  predicate IsInexact(F: nat, q: int) {
    F > TWO_52 || q > MAX_EXACT_10_EXP || q < -MAX_EXACT_10_EXP
  }

  /** One multiplication or division of flonums, as IEEE 754 rounds it. */
  ghost predicate IsOneOperation(F: nat, q: int, z: Double)
    requires !IsInexact(F, q)
  {
    if q >= 0 then IsRight(F * PowerOfTen(q), 1, z) else IsRight(F, PowerOfTen(-q), z)
  }

  /** A start that `algorithmR` can work on. */
  predicate IsPositive(z: Double) {
    z.Finite? && z.m > 0 && IsDouble(z.m, z.k)
  }

  /** The end of `read_real`, where `start` is what `pow10n` gave: one operation if the number is small enough.
      Otherwise it may be any flonum; zero and infinity are final. */
  method ReadReal(F: nat, q: int, start: Double) returns (z: Double)
    requires start.Finite? ==> IsDouble(start.m, start.k)
    requires !IsInexact(F, q) ==> IsOneOperation(F, q, start)
    ensures IsInexact(F, q) && IsPositive(start) ==> IsReadRight(F, q, z)
    ensures !IsInexact(F, q) || !IsPositive(start) ==> z == start
    ensures !IsInexact(F, q) ==> (IsReadRight(F, q, z) <==> -22 <= q <= 22 || HasRoom(F, q))
  {
    if !IsInexact(F, q) {
      OneOperation(F, q, start);
    }
    if start.Infinite? {
      return start;
    }
    z := start;
    if start.m > 0 && IsInexact(F, q) {
      z := AlgorithmR(Top(F, q), Bottom(q), start.m, start.k);
    }
  }

  /** When one operation is right. */
  lemma OneOperation(F: nat, q: int, z: Double)
    requires !IsInexact(F, q) && IsOneOperation(F, q, z)
    ensures IsReadRight(F, q, z) <==> -22 <= q <= 22 || HasRoom(F, q)
  {
    if -22 <= q <= 22 {
      OneOperationIsRight(F, q, z);
    } else {
      RoomIsExact(F, q, z);
    }
  }

  /** Up to 10^22 the powers are flonums, and one operation is right. */
  lemma OneOperationIsRight(F: nat, q: int, z: Double)
    requires !IsInexact(F, q) && -22 <= q <= 22 && IsOneOperation(F, q, z)
    ensures IsReadRight(F, q, z)
  {
    assert PowerOfTen(if q >= 0 then q else -q) == Pow(10, if q >= 0 then q else -q);
  }

  // ----- the operands -----

  /** Every number of 53 bits times a power of two is a flonum. */
  lemma {:induction false} IsRepresented(f: nat, e: int) returns (m: nat, k: int)
    requires 0 < f < TWO_53 && LEAST_EXPONENT <= e
    ensures IsFlonum(m, k) && k <= e && Place(m, k) == f * Steps(e)
    decreases TWO_53 - f
  {
    if f >= TWO_52 || e == LEAST_EXPONENT {
      m, k := f, e;
    } else {
      Pow2Step(e - LEAST_EXPONENT);
      m, k := IsRepresented(2 * f, e - 1);
    }
  }

  /** A flonum that lies on the number is the one to take for it. */
  lemma ExactIsRight(N: int, m: nat, k: int)
    requires IsDouble(m, k) && Place(m, k) == N * Steps(0)
    ensures IsRight(N, 1, Finite(m, k))
  {
    StayIsNearest(N, 1, m, k);
  }

  lemma PowerBelow(n: nat)
    requires n <= 22
    ensures 0 < Pow(5, n) < TWO_53
  {
    PowPositive(5, n);
    PowMono(5, n, 22);
    PowAdd(5, 11, 11);
    assert Pow(5, 11) == 48_828_125;
  }

  /** The powers of ten up to the 22nd are flonums. */
  lemma PowersAreFlonums(n: nat) returns (m: nat, k: int)
    requires n <= 22
    ensures IsRight(Pow(10, n), 1, Finite(m, k)) && Place(m, k) == Pow(10, n) * Steps(0)
  {
    PowerBelow(n);
    m, k := IsRepresented(Pow(5, n), n);
    Pow2Add(n, -LEAST_EXPONENT);
    PowMul(5, 2, n);
    MulAssoc(Pow(5, n), Pow2(n), Steps(0));
    ExactIsRight(Pow(10, n), m, k);
  }

  /** The next one is not: 1.0e23 is the even one of the two flonums that are nearest. */
  lemma Ten23IsNearest(m: nat, k: int)
    requires m == 5_960_464_477_539_062 && k == 24
    ensures IsRight(Pow(10, 23), 1, Finite(m, k)) && Place(m, k) == TEN_23 * Steps(0) && TEN_23 != Pow(10, 23)
  {
    PowAdd(10, 11, 12);
    assert Pow(10, 11) == 100_000_000_000 && Pow(10, 12) == 1_000_000_000_000;
    Pow2Add(k, -LEAST_EXPONENT);
    TwoTo24();
    var U := Steps(0);
    assert Steps(k) == 16_777_216 * U;
    WithinIsNearest(Pow(10, 23), 1, m, k);
  }

  // ----- where one operation is wrong -----

  lemma InUnits(N: int, T: int, m: nat, k: int, X: int)
    requires LEAST_EXPONENT <= k <= 0 && X == N * Pow2(-k)
    ensures N * Steps(0) == X * Steps(k) && T * Place(m, k) == (T * m) * Steps(k)
  {
    Pow2Add(-k, k - LEAST_EXPONENT);
    MulAssoc(N, Pow2(-k), Steps(k));
    MulAssoc(T, m, Steps(k));
  }

  /** Less than half a unit away, a flonum is the nearest one. */
  lemma HalfUnit(N: int, T: int, m: nat, k: int, X: int)
    requires IsFlonum(m, k) && k <= 0 && m != TWO_52 && T > 0 && X == N * Pow2(-k) && 2 * Abs(X - T * m) < T
    ensures IsNearest(N, T, m, k)
  {
    InUnits(N, T, m, k, X);
    var u, M := Steps(k), T * m;
    MulOrder(4 * M - 2 * T, 4 * X, u);
    MulOrder(4 * X, 4 * M + 2 * T, u);
    InUnitsOrder(M, T, X, u);
    WithinIsNearest(N, T, m, k);
  }

  lemma InUnitsOrder(M: int, T: int, X: int, u: int)
    ensures (4 * M - 2 * T) * u == 4 * (M * u) - 2 * (T * u) && (4 * M + 2 * T) * u == 4 * (M * u) + 2 * (T * u)
    ensures (4 * X) * u == 4 * (X * u)
  {
  }

  /** The significand and the exponent of 2.5455e-19, and twice the exponent's power. */
  ghost predicate IsMisread(f: nat, e: int, X: int) {
    f == 5_286_796_661_360_161 && e == -114 && X == 25455 * Pow2(114)
  }

  lemma TwoTo24()
    ensures Pow2(24) == 16_777_216
  {
    Pow2Add(12, 12);
    assert Pow2(12) == 4096;
  }

  lemma TwoTo57()
    ensures Pow2(57) == 144_115_188_075_855_872
  {
    TwoTo24();
    Pow2Add(24, 24);
    assert Pow2(48) == 281_474_976_710_656;
    Pow2Add(48, 9);
    assert Pow2(9) == 512;
  }

  lemma MisreadInUnits(f: nat, e: int, X: int)
    requires IsMisread(f, e, X)
    ensures X == 528_679_666_136_016_149_136_975_136_241_190_174_720
  {
    TwoTo57();
    Pow2Add(57, 57);
  }

  lemma TenTo23()
    ensures Pow(10, 23) == 100_000_000_000_000_000_000_000
  {
    PowAdd(10, 11, 12);
    assert Pow(10, 11) == 100_000_000_000 && Pow(10, 12) == 1_000_000_000_000;
  }

  /** 25455 * 10^-23 is nearest to one flonum, and one division by 1.0e23 gives the next one. */
  lemma OneOperationIsWrong(f: nat, e: int, X: int)
    requires IsMisread(f, e, X)
    ensures IsReadRight(25455, -23, Finite(f, e))
    ensures IsOneOperation(25455, -23, Finite(f + 1, e)) && !IsReadRight(25455, -23, Finite(f + 1, e))
  {
    MisreadInUnits(f, e, X);
    TenTo23();
    HalfUnit(25455, Pow(10, 23), f, e, X);
    HalfUnit(25455, TEN_23, f + 1, e, X);
    if IsReadRight(25455, -23, Finite(f + 1, e)) {
      RightIsUnique(25455, Pow(10, 23), Finite(f, e), Finite(f + 1, e));
    }
  }

  /** One operation is right for all numbers of up to 52 bits. */
  ghost predicate IsGuard(B: int)
    requires 0 <= B <= MAX_EXACT_10_EXP
  {
    forall F: nat, q: int, z: Double {:trigger IsOneOperation(F, q, z)} ::
      F <= TWO_52 && -B <= q <= B && IsOneOperation(F, q, z) ==> IsReadRight(F, q, z)
  }

  /** It is so for exponents up to 22, and no further: the guard of the source is one too wide. */
  lemma GuardIsExact(B: int, f: nat, e: int, X: int)
    requires 0 <= B <= MAX_EXACT_10_EXP && IsMisread(f, e, X)
    ensures IsGuard(B) <==> B <= 22
  {
    if B <= 22 {
      forall F: nat, q: int, z: Double | F <= TWO_52 && -B <= q <= B && IsOneOperation(F, q, z)
        ensures IsReadRight(F, q, z)
      {
        OneOperationIsRight(F, q, z);
      }
    } else {
      OneOperationIsWrong(f, e, X);
    }
  }

  // ----- the 23rd power -----

  const FIVE_23: nat := 11_920_928_955_078_125

  lemma FiveTo23()
    ensures Pow(10, 23) == FIVE_23 * Pow2(23) && TEN_23 == (FIVE_23 - 1) * Pow2(23)
  {
    TenTo23();
    Pow2Step(24);
    TwoTo24();
  }

  /** The least shift that takes `x` to the bound. */
  function Shift(x: nat, bound: nat): (j: nat)
    requires 0 < x < bound
    ensures j > 0 && bound <= x * Pow2(j) < 2 * bound
    decreases bound - x
  {
    if 2 * x >= bound then assert Pow2(1) == 2; 1
    else var j := Shift(2 * x, bound);
      Pow2Step(j + 1);
      MulAssoc(x, 2, Pow2(j));
      j + 1
  }

  /** F * 10^23 or F / 10^23 is X / Y times a power of two, with a significand of 53 bits before the point. */
  function Significand(F: nat, q: int): (f: (nat, nat))
    requires 0 < F <= TWO_52
    ensures TWO_52 * f.1 <= f.0 < TWO_53 * f.1 && f.1 > 0
  {
    if q < 0 then (F * Pow2(Shift(F, TWO_52 * FIVE_23)), FIVE_23)
    else (F * FIVE_23, Halves(F * FIVE_23))
  }

  /** The unit of the last of 53 bits. */
  function Halves(X: nat): (Y: nat)
    requires X >= TWO_53
    ensures Y == Pow2(Shift(TWO_53, X + 1)) && TWO_52 * Y <= X < TWO_53 * Y && Y > 0
  {
    var t := Shift(TWO_53, X + 1);
    Pow2Step(t);
    Pow2(t)
  }

  /** The integer nearest to X / Y, the even one of two. */
  function Rounded(X: nat, Y: nat): nat
    requires Y > 0
  {
    var m, r := X / Y, X % Y;
    if 2 * r > Y || (2 * r == Y && m % 2 == 1) then m + 1 else m
  }

  predicate Fits(a: int, b: int, m: nat) {
    if m % 2 == 0 then a <= b else a < b
  }

  /** Where one operation with 1.0e23 is right: next to the remainder `c` of the significand there is room for the
      error, which is one part in 5^23. */
  predicate HasRoom(F: nat, q: int)
    requires F <= TWO_52
  {
    if F == 0 then true
    else
      var (X, Y) := Significand(F, q);
      var m := Rounded(X, Y);
      var c := X - m * Y;
      if q < 0 then m == TWO_53 || Fits(2 * (c + m) + 1, Y, m)
      else Fits((if m == TWO_52 then 4 else 2) * (F - c), Y, m)
  }

  // The cells of the flonums in one binade, up to the first one of the next.

  predicate InCell(m: nat, X: int, Y: int) {
    && Fits((4 * m - if m == TWO_52 then 1 else 2) * Y, 4 * X, m)
    && Fits(4 * X, (4 * m + if m == TWO_53 then 4 else 2) * Y, m)
  }

  lemma NearestIsWithin(N: int, T: int, m: nat, k: int)
    requires IsFlonum(m, k) && m > 0 && T > 0 && IsNearest(N, T, m, k)
    ensures var p, TV, Tu := N * Steps(0), T * Place(m, k), T * Steps(k);
            var low := 4 * TV - if m == TWO_52 && k > LEAST_EXPONENT then Tu else 2 * Tu;
            Fits(low, 4 * p, m) && Fits(4 * p, 4 * TV + 2 * Tu, m)
  {
    var p, TV, Tu := N * Steps(0), T * Place(m, k), T * Steps(k);
    MulSign(T, Steps(k));
    var (g, d) := Next(m, k);
    NextScaled(T, m, k);
    assert IsFlonum(g, d) && (g, d) != (m, k);
    NearerThan(p, TV, T * Place(g, d), m);
    var (g', d') := Prev(m, k);
    PrevScaled(T, m, k);
    assert IsFlonum(g', d') && (g', d') != (m, k);
    NearerThan(p, TV, T * Place(g', d'), m);
  }

  lemma NearerThan(p: int, TV: int, TW: int, m: nat)
    requires TV != TW && (Abs(p - TV) < Abs(p - TW) || (Abs(p - TV) == Abs(p - TW) && m % 2 == 0))
    ensures if TV < TW then Fits(2 * p, TV + TW, m) else Fits(TV + TW, 2 * p, m)
  {
  }

  /** N / T is X / Y units of 2^k. */
  ghost predicate IsInUnits(N: int, T: int, k: int, X: int, Y: int)
    requires LEAST_EXPONENT <= k
  {
    (N * Steps(0)) * Y == (T * Steps(k)) * X
  }

  lemma BoundInUnits(p: int, Tu: int, X: int, Y: int, a: int)
    requires Tu > 0 && Y > 0 && p * Y == Tu * X
    ensures a * Y <= 4 * X <==> a * Tu <= 4 * p
    ensures 4 * X <= a * Y <==> 4 * p <= a * Tu
  {
    MulOrder(a * Y, 4 * X, Tu);
    MulOrder(4 * X, a * Y, Tu);
    MulOrder(a * Tu, 4 * p, Y);
    MulOrder(4 * p, a * Tu, Y);
    assert a * Y * Tu == a * Tu * Y;
    assert 4 * X * Tu == 4 * p * Y;
  }

  lemma NormalCell(N: int, T: int, m: nat, k: int, X: int, Y: int)
    requires IsFlonum(m, k) && k > LEAST_EXPONENT && T > 0 && Y > 0 && IsInUnits(N, T, k, X, Y)
    ensures IsNearest(N, T, m, k) <==> InCell(m, X, Y)
  {
    var p, Tu := N * Steps(0), T * Steps(k);
    MulSign(T, Steps(k));
    MulAssoc(T, m, Steps(k));
    MulAssoc(m, T, Steps(k));
    BoundInUnits(p, Tu, X, Y, 4 * m - if m == TWO_52 then 1 else 2);
    BoundInUnits(p, Tu, X, Y, 4 * m + 2);
    BoundsAre(m, Tu);
    if IsNearest(N, T, m, k) {
      NearestIsWithin(N, T, m, k);
    }
    if InCell(m, X, Y) {
      WithinIsNearest(N, T, m, k);
    }
  }

  lemma BoundsAre(m: int, Tu: int)
    ensures (4 * m - 1) * Tu == 4 * (m * Tu) - Tu && (4 * m - 2) * Tu == 4 * (m * Tu) - 2 * Tu
    ensures (4 * m + 2) * Tu == 4 * (m * Tu) + 2 * Tu
  {
  }

  /** The flonum with this significand, which may have one bit too many. */
  function Carried(m: nat, k: int): Double {
    if m == TWO_53 then Finite(TWO_52, k + 1) else Finite(m, k)
  }

  lemma CellIsRight(N: int, T: int, m: nat, k: int, X: int, Y: int)
    requires TWO_52 <= m <= TWO_53 && LEAST_EXPONENT < k < GREATEST_EXPONENT && T > 0 && Y > 0
    requires IsInUnits(N, T, k, X, Y)
    ensures IsRight(N, T, Carried(m, k)) <==> InCell(m, X, Y)
  {
    if m == TWO_53 {
      Pow2Step(k + 1 - LEAST_EXPONENT);
      assert (N * Steps(0)) * (2 * Y) == (T * Steps(k + 1)) * X;
      NormalCell(N, T, TWO_52, k + 1, X, 2 * Y);
    } else {
      NormalCell(N, T, m, k, X, Y);
    }
  }

  /** What rounding leaves over. */
  lemma RoundingLeaves(X: nat, Y: nat)
    requires Y > 0 && TWO_52 * Y <= X < TWO_53 * Y
    ensures var m := Rounded(X, Y); var c := X - m * Y;
            && TWO_52 <= m <= TWO_53 && Fits(2 * c, Y, m) && Fits(0, Y + 2 * c, m)
            && (m == TWO_52 ==> c >= 0) && (m == TWO_53 ==> c < 0)
  {
    var q := X / Y;
    DivisionIs(X, Y, q);
    MulOrder(q, TWO_53, Y);
    MulOrder(TWO_52, q + 1, Y);
    MulDist(Y, q, 1);
    LeavesByProduct(X, Y, q, X % Y, Y * q, Rounded(X, Y), Rounded(X, Y) * Y);
  }

  lemma LeavesByProduct(X: int, Y: int, q: nat, r: int, qY: int, m: nat, mY: int)
    requires X == qY + r && 0 <= r < Y && TWO_52 <= q < TWO_53
    requires if 2 * r > Y || (2 * r == Y && q % 2 == 1) then m == q + 1 && mY == qY + Y else m == q && mY == qY
    ensures var c := X - mY;
            && TWO_52 <= m <= TWO_53 && Fits(2 * c, Y, m) && Fits(0, Y + 2 * c, m)
            && (m == TWO_52 ==> c >= 0) && (m == TWO_53 ==> c < 0)
  {
  }

  lemma RoundedInCell(X: nat, Y: nat)
    requires Y > 0 && TWO_52 * Y <= X < TWO_53 * Y
    ensures TWO_52 <= Rounded(X, Y) <= TWO_53 && InCell(Rounded(X, Y), X, Y)
  {
    RoundingLeaves(X, Y);
    CellByProduct(Rounded(X, Y), X, Y, Rounded(X, Y) * Y);
  }

  lemma CellByProduct(m: nat, X: int, Y: int, mY: int)
    requires mY == m * Y
    ensures InCell(m, X, Y) <==>
            && Fits(4 * mY - (if m == TWO_52 then Y else 2 * Y), 4 * X, m)
            && Fits(4 * X, 4 * mY + (if m == TWO_53 then 4 * Y else 2 * Y), m)
  {
    BoundsAre(m, Y);
    MulDist(Y, 4 * m, 4);
    MulAssoc(Y, 4, m);
  }

  /** Both numbers in units of one power of two: the flonum of the first is that of the second exactly if the second
      lies in its cell. */
  lemma SameFlonum(N: int, T: int, N': int, T': int, k: int, X: nat, Y: nat, X': int, Y': int, z: Double)
    requires T > 0 && T' > 0 && LEAST_EXPONENT < k < GREATEST_EXPONENT && Y > 0 && Y' > 0
    requires TWO_52 * Y <= X < TWO_53 * Y
    requires IsInUnits(N, T, k, X, Y) && IsInUnits(N', T', k, X', Y') && IsRight(N', T', z)
    ensures IsRight(N, T, z) <==> InCell(Rounded(X, Y), X', Y')
  {
    var m := Rounded(X, Y);
    RoundedInCell(X, Y);
    CellIsRight(N, T, m, k, X, Y);
    CellIsRight(N', T', m, k, X', Y');
    if IsRight(N, T, z) {
      RightIsUnique(N, T, z, Carried(m, k));
    }
    if InCell(m, X', Y') {
      RightIsUnique(N', T', z, Carried(m, k));
    }
  }

  /** A number that is greater by one part in Y - 1 keeps its flonum if there is room above. */
  lemma RoomAbove(m: nat, X: int, Y: int, c: int)
    requires TWO_52 <= m <= TWO_53 < Y && c == X - m * Y && Fits(0, Y + 2 * c, m)
    requires (m == TWO_52 ==> c >= 0) && (m == TWO_53 ==> c < 0)
    ensures InCell(m, X, Y - 1) <==> m == TWO_53 || Fits(2 * (c + m) + 1, Y, m)
  {
    MulDist(m, Y, 1);
    CellByProduct(m, X, Y - 1, m * Y - m);
  }

  /** A number that is less by F keeps its flonum if there is room below. */
  lemma RoomBelow(m: nat, X: int, Y: int, c: int, F: int)
    requires TWO_52 <= m <= TWO_53 && c == X - m * Y && Y > 0 && F > 0 && Fits(2 * c, Y, m)
    ensures InCell(m, X - F, Y) <==> Fits((if m == TWO_52 then 4 else 2) * (F - c), Y, m)
  {
    CellByProduct(m, X - F, Y, m * Y);
  }

  lemma QuotientInUnits(F: int, A: int, j: nat, k: int)
    requires LEAST_EXPONENT <= k && k + j == -23
    ensures IsInUnits(F, A * Pow2(23), k, F * Pow2(j), A)
  {
    Pow2Add(23, k - LEAST_EXPONENT);
    Pow2Add(23 + k - LEAST_EXPONENT, j);
    var a, b, u := Pow2(23), Pow2(j), Steps(k);
    assert Steps(0) == a * u * b;
    assert (F * (a * u * b)) * A == (A * a * u) * (F * b);
  }

  lemma ProductInUnits(F: int, A: int, t: nat, k: int)
    requires k == t + 23
    ensures IsInUnits(F * (A * Pow2(23)), 1, k, F * A, Pow2(t))
  {
    Pow2Add(23, -LEAST_EXPONENT);
    Pow2Add(t, 23 - LEAST_EXPONENT);
    var a, b, U := Pow2(23), Pow2(t), Steps(0);
    assert Steps(k) == b * (a * U);
    assert (F * (A * a) * U) * b == b * (a * U) * (F * A);
  }

  lemma ShiftIsSmall(x: nat, j: nat, bound: nat)
    requires x > 0 && x * Pow2(j) < bound && bound < Pow2(114)
    ensures j < 114
  {
    if j >= 114 {
      Pow2Mono(114, j);
      MulMono(Pow2(j), 1, x);
    }
  }

  lemma TwoTo114()
    ensures Pow2(114) == 20_769_187_434_139_310_514_121_985_316_880_384
  {
    TwoTo57();
    Pow2Add(57, 57);
  }

  lemma DivisionKeeps(F: nat, z: Double)
    requires 0 < F <= TWO_52 && IsRight(F, TEN_23, z)
    ensures IsRight(F, Pow(10, 23), z) <==> HasRoom(F, -23)
  {
    var j: int := Shift(F, TWO_52 * FIVE_23);
    var X, Y := F * Pow2(j), FIVE_23;
    var k := -23 - j;
    TwoTo114();
    ShiftIsSmall(F, j, 2 * (TWO_52 * FIVE_23));
    FiveTo23();
    QuotientInUnits(F, Y, j, k);
    QuotientInUnits(F, Y - 1, j, k);
    SameFlonum(F, Pow(10, 23), F, TEN_23, k, X, Y, X, Y - 1, z);
    RoundingLeaves(X, Y);
    var m := Rounded(X, Y);
    RoomAbove(m, X, Y, X - m * Y);
  }

  lemma MultiplicationKeeps(F: nat, z: Double)
    requires 0 < F <= TWO_52 && IsRight(F * TEN_23, 1, z)
    ensures IsRight(F * Pow(10, 23), 1, z) <==> HasRoom(F, 23)
  {
    var X := F * FIVE_23;
    var t := Shift(TWO_53, X + 1);
    var Y, k := Pow2(t), t + 23;
    TwoTo114();
    ShiftIsSmall(TWO_53, t, 2 * (X + 1));
    FiveTo23();
    ProductInUnits(F, FIVE_23, t, k);
    ProductInUnits(F, FIVE_23 - 1, t, k);
    MulDist(F, FIVE_23, 1);
    SameFlonum(F * Pow(10, 23), 1, F * TEN_23, 1, k, X, Y, X - F, Y, z);
    RoundingLeaves(X, Y);
    var m := Rounded(X, Y);
    RoomBelow(m, X, Y, X - m * Y, F);
  }

  /** At the 23rd power, one operation is right exactly for the numbers whose remainder leaves room. */
  lemma RoomIsExact(F: nat, q: int, z: Double)
    requires F <= TWO_52 && (q == 23 || q == -23) && IsOneOperation(F, q, z)
    ensures IsReadRight(F, q, z) <==> HasRoom(F, q)
  {
    if F == 0 {
      ZeroIsRight(Bottom(q));
    } else if q < 0 {
      DivisionKeeps(F, z);
    } else {
      MultiplicationKeeps(F, z);
    }
  }

  lemma ZeroIsRight(T: int)
    requires T > 0
    ensures IsRight(0, T, Finite(0, LEAST_EXPONENT))
  {
    MulSign(T, Steps(LEAST_EXPONENT));
    WithinIsNearest(0, T, 0, LEAST_EXPONENT);
  }
}
