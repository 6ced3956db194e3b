/** Scaling by powers of ten (src/number.c, `pow10n`): where repeated roundings stay clear of zero and infinity. */
module FlonumPower {
  import opened Arith
  import opened Modular
  import opened Radix
  import opened Flonum
  import opened FlonumGrid
  import opened FlonumReader

  // ----- rounded arithmetic -----

  /** Flonum arithmetic, as IEEE 754 rounds it. */
  ghost predicate IsProduct(x: Double, c: nat, z: Double) {
    if x.Infinite? then z == Infinite else IsRight(x.m * UnitTop(x.k) * c, UnitBottom(x.k), z)
  }

  ghost predicate IsRatio(x: Double, c: nat, z: Double) {
    if x.Infinite? then z == Infinite else IsRight(x.m * UnitTop(x.k), UnitBottom(x.k) * c, z)
  }

  ghost predicate IsTimes(times: (Double, nat) -> Double) {
    forall x: Double, c: nat {:trigger times(x, c)} :: c > 0 ==> IsProduct(x, c, times(x, c))
  }

  ghost predicate IsOver(over: (Double, nat) -> Double) {
    forall x: Double, c: nat {:trigger over(x, c)} :: c > 0 ==> IsRatio(x, c, over(x, c))
  }

  predicate IsNumber(x: Double) {
    x.Finite? ==> IsDouble(x.m, x.k)
  }

  /** The flonum is at least 2^a. */
  predicate Reaches(x: Double, a: int)
    requires LEAST_EXPONENT <= a
  {
    x.Finite? ==> IsDouble(x.m, x.k) && Steps(a) <= Place(x.m, x.k)
  }

  /** The flonum is at most 2^b. */
  predicate Within(x: Double, b: int)
    requires LEAST_EXPONENT <= b
  {
    x.Finite? && IsDouble(x.m, x.k) && Place(x.m, x.k) <= Steps(b)
  }

  /** A flonum is not nearest when a power of two lies between it and the number, or on the number. */
  lemma PowerIsNearer(N: int, T: int, f: nat, e: int, a: int)
    requires T > 0 && LEAST_EXPONENT <= a && IsFlonum(f, e)
    requires (Place(f, e) < Steps(a) && T * Steps(a) <= N * Steps(0))
        || (Place(f, e) > Steps(a) && T * Steps(a) >= N * Steps(0))
    ensures !IsNearest(N, T, f, e)
  {
    var g, d := IsRepresented(1, a);
    MulOrder(Place(f, e), Steps(a), T);
    MulOrder(Steps(a), Place(f, e), T);
    assert IsFlonum(g, d) && !IsNearer(N * Steps(0), T, f, e, g, d);
  }

  /** Rounding does not cross a power of two. */
  lemma RoundingReaches(N: int, T: int, z: Double, a: int)
    requires T > 0 && LEAST_EXPONENT <= a && T * Steps(a) <= N * Steps(0) && IsRight(N, T, z)
    ensures Reaches(z, a)
  {
    if z.Finite? && Place(z.m, z.k) < Steps(a) {
      PowerIsNearer(N, T, z.m, z.k, a);
    }
  }

  lemma RoundingStays(N: int, T: int, z: Double, b: int)
    requires T > 0 && LEAST_EXPONENT <= b <= GREATEST_EXPONENT + 52 && N * Steps(0) <= T * Steps(b) && IsRight(N, T, z)
    ensures Within(z, b)
  {
    if z.Infinite? {
      NoneOverflows(N, T, b);
    } else if Place(z.m, z.k) > Steps(b) {
      PowerIsNearer(N, T, z.m, z.k, b);
    }
  }

  lemma NoneOverflows(N: int, T: int, b: int)
    requires T > 0 && LEAST_EXPONENT <= b <= GREATEST_EXPONENT + 52 && N * Steps(0) <= T * Steps(b)
    ensures !Overflows(N, T)
  {
    var u := Steps(GREATEST_EXPONENT);
    Pow2Mono(b - LEAST_EXPONENT, GREATEST_EXPONENT + 52 - LEAST_EXPONENT);
    Pow2Add(52, GREATEST_EXPONENT - LEAST_EXPONENT);
    TwoTo52();
    MulMono(T, Steps(b), TWO_52 * u);
    MulOrder(2 * (TWO_52 * u), 2 * Place(TWO_53 - 1, GREATEST_EXPONENT) + u, T);
    MulAssoc(2, TWO_52 * u, T);
  }

  lemma TwoTo52()
    ensures Pow2(52) == TWO_52
  {
    TwoTo24();
    Pow2Add(24, 24);
    Pow2Add(48, 4);
    assert Pow2(4) == 16;
  }

  lemma ValueOnGrid(m: nat, k: int)
    requires LEAST_EXPONENT <= k
    ensures (m * UnitTop(k)) * Steps(0) == Place(m, k) * UnitBottom(k)
  {
    UnitOnGrid(k);
    MulAssoc(m, UnitTop(k), Steps(0));
    MulAssoc(m, Steps(k), UnitBottom(k));
  }

  lemma Bounded(x: nat, y: nat, c: nat, d: nat)
    requires x <= y && c <= d
    ensures x * c <= y * d
  {
    MulMono(x, c, d);
    MulMono(d, x, y);
  }

  lemma ProductOnGrid(N: nat, U: nat, V: nat, B: nat, c: nat, A: nat, E: nat, R: nat, S: nat)
    requires N * U == V * B && A <= V <= E && R <= c <= S
    ensures B * (A * R) <= (N * c) * U <= B * (E * S)
  {
    assert (N * c) * U == B * (V * c) by {
      MulAssoc(c, N, U);
      MulAssoc(c, V, B);
    }
    Bounded(V, E, c, S);
    MulMono(B, V * c, E * S);
    Bounded(A, V, R, c);
    MulMono(B, A * R, V * c);
  }

  lemma RatioOnGrid(N: nat, U: nat, V: nat, B: nat, c: nat, A: nat, E: nat, R: nat, S: nat)
    requires N * U == V * B && A * S <= V <= E * R && R <= c <= S
    ensures (B * c) * A <= N * U <= (B * c) * E
  {
    Bounded(c, S, A, A);
    MulMono(B, c * A, V);
    MulAssoc(B, c, A);
    Bounded(R, c, E, E);
    MulMono(B, V, c * E);
    MulAssoc(B, c, E);
  }

  /** The factor lies between 2^r and 2^s. */
  lemma ProductBounds(x: Double, c: nat, z: Double, a: int, b: int, r: nat, s: nat)
    requires LEAST_EXPONENT <= a && LEAST_EXPONENT <= b && b + s <= GREATEST_EXPONENT + 52 && Pow2(r) <= c <= Pow2(s)
    requires Reaches(x, a) && Within(x, b) && IsProduct(x, c, z)
    ensures Reaches(z, a + r) && Within(z, b + s)
  {
    var N, B := x.m * UnitTop(x.k), UnitBottom(x.k);
    ValueOnGrid(x.m, x.k);
    ProductOnGrid(N, Steps(0), Place(x.m, x.k), B, c, Steps(a), Steps(b), Pow2(r), Pow2(s));
    Pow2Add(a - LEAST_EXPONENT, r);
    Pow2Add(b - LEAST_EXPONENT, s);
    RoundingReaches(N * c, B, z, a + r);
    RoundingStays(N * c, B, z, b + s);
  }

  lemma RatioBounds(x: Double, c: nat, z: Double, a: int, b: int, r: nat, s: nat)
    requires LEAST_EXPONENT <= a - s && LEAST_EXPONENT <= b - r && b <= GREATEST_EXPONENT + 52
    requires Pow2(r) <= c <= Pow2(s) && Reaches(x, a) && Within(x, b) && IsRatio(x, c, z)
    ensures Reaches(z, a - s) && Within(z, b - r)
  {
    var N, B := x.m * UnitTop(x.k), UnitBottom(x.k);
    ValueOnGrid(x.m, x.k);
    Pow2Add(a - s - LEAST_EXPONENT, s);
    Pow2Add(b - r - LEAST_EXPONENT, r);
    RatioOnGrid(N, Steps(0), Place(x.m, x.k), B, c, Steps(a - s), Steps(b - r), Pow2(r), Pow2(s));
    MulSign(B, c);
    RoundingReaches(N, B * c, z, a - s);
    RoundingStays(N, B * c, z, b - r);
  }

  // ----- `pow10n` -----

  /** The flonum 1.0e24. */
  const TEN_24: nat := 999_999_999_999_999_983_222_784

  lemma Ten24IsNearest(m: nat, k: int)
    requires m == 7_450_580_596_923_828 && k == 27
    ensures IsRight(Pow(10, 24), 1, Finite(m, k)) && Place(m, k) == TEN_24 * Steps(0)
  {
    TenTo23();
    Pow2Add(k, -LEAST_EXPONENT);
    TwoTo24();
    Pow2Add(24, 3);
    assert Pow2(3) == 8;
    var U := Steps(0);
    assert Steps(k) == 134_217_728 * U;
    WithinIsNearest(Pow(10, 24), 1, m, k);
  }

  /** How far the bounds move, in powers of two: 10^n lies between 2^Gain(n) and 2^Loss(n). */
  function Loss(n: nat): nat {
    80 * (n / 24) + 4 * (n % 24)
  }

  function Gain(n: nat): nat {
    79 * (n / 24) + 3 * (n % 24)
  }

  lemma LossStep(n: nat)
    requires n >= 24
    ensures Loss(n) == Loss(n - 24) + 80 && Gain(n) == Gain(n - 24) + 79
  {
  }

  lemma {:induction false} PowerBelow16(n: nat)
    ensures Pow(10, n) <= Pow2(4 * n)
  {
    if n > 0 {
      PowerBelow16(n - 1);
      Pow2Add(4, 4 * (n - 1));
      assert Pow2(4) == 16;
    }
  }

  lemma {:induction false} PowerAbove8(n: nat)
    ensures Pow2(3 * n) <= Pow(10, n)
  {
    if n > 0 {
      PowerAbove8(n - 1);
      Pow2Add(3, 3 * (n - 1));
      assert Pow2(3) == 8;
    }
  }

  lemma TwoTo79()
    ensures Pow2(79) < Pow(10, 24)
  {
    TwoTo57();
    TwoTo24();
    Pow2Add(57, 22);
    Pow2Step(24);
    Pow2Step(23);
    TenTo23();
  }

  /** The factors of `dpow10`. */
  lemma FactorIsBetween(n: nat) returns (c: nat, r: nat, s: nat)
    requires n <= MAX_EXACT_10_EXP
    ensures c == PowerOfTen(n) && r == Gain(n) && s == Loss(n) && r <= s && 0 < Pow2(r) <= c <= Pow2(s)
  {
    c, r, s := PowerOfTen(n), 3 * n, 4 * n;
    PowerBelow16(n);
    PowerAbove8(n);
    if n == MAX_EXACT_10_EXP {
      Ten23IsBetween(n);
    }
  }

  lemma FactorIsPositive(n: nat)
    requires n <= MAX_EXACT_10_EXP
    ensures PowerOfTen(n) > 0
  {
    PowPositive(10, n);
  }

  lemma Ten23IsBetween(n: nat)
    requires n == MAX_EXACT_10_EXP
    ensures Pow2(3 * n) <= TEN_23 <= Pow(10, n)
  {
    TenTo23();
    TwoTo57();
    Pow2Add(57, 12);
    assert Pow2(12) == 4096;
  }

  lemma Ten24IsBetween() returns (c: nat, r: nat, s: nat)
    ensures c == TEN_24 && r == 79 && s == 80 && Pow2(r) <= c <= Pow2(s)
  {
    c, r, s := TEN_24, 79, 80;
    TwoTo57();
    TwoTo24();
    Pow2Step(24);
    Pow2Step(23);
    Pow2Add(57, 22);
    Pow2Step(80);
  }

  ghost predicate IsBetween(z: Double, a: int, b: int) {
    && LEAST_EXPONENT <= a && LEAST_EXPONENT <= b && Reaches(z, a) && Within(z, b)
  }

  lemma BetweenIsPositive(z: Double, a: int, b: int)
    requires IsBetween(z, a, b)
    ensures IsPositive(z)
  {
  }

  /** x * 10^n in steps of 10^24 and one more, each of them rounded. */
  function ScaledUp(x: Double, n: nat, times: (Double, nat) -> Double): Double
    decreases n
  {
    if n > 23 then ScaledUp(times(x, TEN_24), n - 24, times) else times(x, PowerOfTen(n))
  }

  /** x / 10^n, in the same way. */
  function ScaledDown(x: Double, n: nat, over: (Double, nat) -> Double): Double
    decreases n
  {
    if n > 23 then ScaledDown(over(x, TEN_24), n - 24, over) else over(x, PowerOfTen(n))
  }

  function ScaledBy(x: Double, n: int, times: (Double, nat) -> Double, over: (Double, nat) -> Double): Double {
    if n >= 0 then ScaledUp(x, n, times) else ScaledDown(x, -n, over)
  }

  /** A factor between 2^r and 2^s moves the bounds by as much. */
  ghost predicate TimesBound(times: (Double, nat) -> Double, x: Double, c: nat, a: int, b: int, r: nat, s: nat) {
    IsBetween(x, a, b) && b + s <= GREATEST_EXPONENT + 52 && Pow2(r) <= c <= Pow2(s) ==>
      IsBetween(times(x, c), a + r, b + s)
  }

  ghost predicate OverBound(over: (Double, nat) -> Double, x: Double, c: nat, a: int, b: int, r: nat, s: nat) {
    && IsBetween(x, a, b) && a <= b <= GREATEST_EXPONENT + 52 && LEAST_EXPONENT <= a - s && r <= s
    && Pow2(r) <= c <= Pow2(s) ==>
      IsBetween(over(x, c), a - s, b - r)
  }

  ghost predicate TimesBounds(times: (Double, nat) -> Double) {
    forall x: Double, c: nat, a: int, b: int, r: nat, s: nat :: TimesBound(times, x, c, a, b, r, s)
  }

  ghost predicate OverBounds(over: (Double, nat) -> Double) {
    forall x: Double, c: nat, a: int, b: int, r: nat, s: nat :: OverBound(over, x, c, a, b, r, s)
  }

  lemma TimesIsBounded(times: (Double, nat) -> Double)
    requires IsTimes(times)
    ensures TimesBounds(times)
  {
    forall x: Double, c: nat, a: int, b: int, r: nat, s: nat ensures TimesBound(times, x, c, a, b, r, s) {
      if IsBetween(x, a, b) && b + s <= GREATEST_EXPONENT + 52 && Pow2(r) <= c <= Pow2(s) {
        ProductBounds(x, c, times(x, c), a, b, r, s);
      }
    }
  }

  lemma OverIsBounded(over: (Double, nat) -> Double)
    requires IsOver(over)
    ensures OverBounds(over)
  {
    forall x: Double, c: nat, a: int, b: int, r: nat, s: nat ensures OverBound(over, x, c, a, b, r, s) {
      if IsBetween(x, a, b) && a <= b <= GREATEST_EXPONENT + 52 && LEAST_EXPONENT <= a - s && r <= s
         && Pow2(r) <= c <= Pow2(s) {
        RatioBounds(x, c, over(x, c), a, b, r, s);
      }
    }
  }

  /** The bounds move by the powers of two on either side of the factors. */
  lemma {:induction false} UpIsBetween(x: Double, n: nat, times: (Double, nat) -> Double, a: int, b: int)
    requires TimesBounds(times) && IsBetween(x, a, b) && b + Loss(n) <= GREATEST_EXPONENT + 52
    ensures IsBetween(ScaledUp(x, n, times), a + Gain(n), b + Loss(n))
    decreases n
  {
    if n > 23 {
      var c, r, s := Ten24IsBetween();
      LossStep(n);
      assert TimesBound(times, x, c, a, b, r, s);
      UpIsBetween(times(x, c), n - 24, times, a + r, b + s);
    } else {
      var c, r, s := FactorIsBetween(n);
      assert TimesBound(times, x, c, a, b, r, s);
    }
  }

  lemma {:induction false} DownIsBetween(x: Double, n: nat, over: (Double, nat) -> Double, a: int, b: int)
    requires OverBounds(over) && IsBetween(x, a, b) && a <= b <= GREATEST_EXPONENT + 52 && LEAST_EXPONENT <= a - Loss(n)
    ensures IsBetween(ScaledDown(x, n, over), a - Loss(n), b - Gain(n))
    decreases n
  {
    if n > 23 {
      var c, r, s := Ten24IsBetween();
      LossStep(n);
      assert OverBound(over, x, c, a, b, r, s);
      DownIsBetween(over(x, c), n - 24, over, a - s, b - r);
    } else {
      var c, r, s := FactorIsBetween(n);
      assert OverBound(over, x, c, a, b, r, s);
    }
  }

  /** It is always a flonum or infinity. */
  lemma {:induction false} UpIsNumber(x: Double, n: nat, times: (Double, nat) -> Double)
    requires IsTimes(times)
    ensures IsNumber(ScaledUp(x, n, times))
    decreases n
  {
    if n > 23 {
      UpIsNumber(times(x, TEN_24), n - 24, times);
    } else {
      FactorIsPositive(n);
      assert IsProduct(x, PowerOfTen(n), times(x, PowerOfTen(n)));
    }
  }

  lemma {:induction false} DownIsNumber(x: Double, n: nat, over: (Double, nat) -> Double)
    requires IsOver(over)
    ensures IsNumber(ScaledDown(x, n, over))
    decreases n
  {
    if n > 23 {
      DownIsNumber(over(x, TEN_24), n - 24, over);
    } else {
      FactorIsPositive(n);
      assert IsRatio(x, PowerOfTen(n), over(x, PowerOfTen(n)));
    }
  }

  /** `pow10n` */
  method Pow10n(x: Double, n: int, times: (Double, nat) -> Double, over: (Double, nat) -> Double) returns (z: Double)
    ensures z == ScaledBy(x, n, times, over)
  {
    var y, i := x, n;
    if n >= 0 {
      while i > 23
        invariant 0 <= i && ScaledUp(y, i, times) == ScaledUp(x, n, times)
      {
        y, i := times(y, TEN_24), i - 24;
      }
      z := times(y, PowerOfTen(i));
    } else {
      while i < -23
        invariant i <= 0 && ScaledDown(y, -i, over) == ScaledDown(x, -n, over)
      {
        y, i := over(y, TEN_24), i + 24;
      }
      z := over(y, PowerOfTen(-i));
    }
  }

  // ----- from the number on -----

  /** What `Sg_GetDouble` gives: the number itself up to 52 bits, and otherwise nothing on the other side of a power of
      two. */
  ghost predicate IsConverted(F: nat, x: Double) {
    && IsNumber(x) && (F <= TWO_52 ==> x.Finite? && Place(x.m, x.k) == F * Steps(0))
    && (forall a: nat {:trigger Reaches(x, a)} :: Pow2(a) <= F ==> Reaches(x, a))
    && (forall b: nat {:trigger Within(x, b)} :: F <= Pow2(b) && b <= GREATEST_EXPONENT + 52 ==> Within(x, b))
  }

  /** Rounding to the nearest flonum is such a conversion. */
  lemma NearestIsConverted(F: nat, x: Double)
    requires IsRight(F, 1, x)
    ensures IsConverted(F, x)
  {
    if F == 0 {
      ZeroIsRight(1);
      RightIsUnique(F, 1, x, Finite(0, LEAST_EXPONENT));
    } else if F <= TWO_52 {
      var m, k := IsRepresented(F, 0);
      ExactIsRight(F, m, k);
      RightIsUnique(F, 1, x, Finite(m, k));
    }
    forall a: nat | Pow2(a) <= F ensures Reaches(x, a) {
      Pow2Add(a, -LEAST_EXPONENT);
      MulMono(Steps(0), Pow2(a), F);
      RoundingReaches(F, 1, x, a);
    }
    forall b: nat | F <= Pow2(b) && b <= GREATEST_EXPONENT + 52 ensures Within(x, b) {
      Pow2Add(b, -LEAST_EXPONENT);
      MulMono(Steps(0), F, Pow2(b));
      RoundingStays(F, 1, x, b);
    }
  }

  /** Two fractions of one value have the same flonum. */
  lemma SameNumber(N: int, T: int, N': int, T': int, z: Double)
    requires T > 0 && T' > 0 && N * T' == N' * T && IsRight(N, T, z)
    ensures IsRight(N', T', z)
  {
    var p, p' := N * Steps(0), N' * Steps(0);
    SameOnGrid(N, T, N', T', Steps(0));
    match z
    case Infinite =>
      var K := 2 * Place(TWO_53 - 1, GREATEST_EXPONENT) + Steps(GREATEST_EXPONENT);
      AtLeast(T, T', K, 2 * p, 2 * p');
    case Finite(m, k) =>
      forall g: nat, d: int | IsFlonum(g, d) && (g, d) != (m, k) ensures IsNearer(p', T', m, k, g, d) {
        SameNearer(p, T, p', T', m, k, g, d);
      }
  }

  lemma SameOnGrid(N: int, T: int, N': int, T': int, U: int)
    requires N * T' == N' * T
    ensures (N * U) * T' == (N' * U) * T
  {
    MulAssoc(U, N, T');
    MulAssoc(U, N', T);
  }

  lemma SameNearer(p: int, T: int, p': int, T': int, m: nat, k: int, g: nat, d: int)
    requires T > 0 && T' > 0 && p * T' == p' * T && LEAST_EXPONENT <= k && LEAST_EXPONENT <= d
    requires IsNearer(p, T, m, k, g, d)
    ensures IsNearer(p', T', m, k, g, d)
  {
    SameOrder(T, p, T', p', Place(m, k), Place(g, d));
    SameOrder(T, p, T', p', Place(g, d), Place(m, k));
  }

  lemma AtLeast(T: int, T': int, K: int, p: int, p': int)
    requires T > 0 && T' > 0 && p * T' == p' * T && T * K <= p
    ensures T' * K <= p'
  {
    MulOrder(T * K, p, T');
    MulAssoc(T', K, T);
    MulAssoc(T, K, T');
    MulOrder(T' * K, p', T);
  }

  /** One operation on the converted number is one on the number itself. */
  lemma TimesOnce(F: nat, c: nat, x: Double, z: Double)
    requires F <= TWO_52 && IsConverted(F, x) && IsProduct(x, c, z)
    ensures IsRight(F * c, 1, z)
  {
    var N, B := x.m * UnitTop(x.k), UnitBottom(x.k);
    ValueIs(x, F);
    MulAssoc(F, B, c);
    MulAssoc(F, c, B);
    SameNumber(N * c, B, F * c, 1, z);
  }

  lemma OverOnce(F: nat, c: nat, x: Double, z: Double)
    requires F <= TWO_52 && c > 0 && IsConverted(F, x) && IsRatio(x, c, z)
    ensures IsRight(F, c, z)
  {
    var N, B := x.m * UnitTop(x.k), UnitBottom(x.k);
    ValueIs(x, F);
    MulAssoc(F, B, c);
    MulSign(B, c);
    SameNumber(N, B * c, F, c, z);
  }

  lemma ValueIs(x: Double, F: nat)
    requires x.Finite? && LEAST_EXPONENT <= x.k && Place(x.m, x.k) == F * Steps(0)
    ensures x.m * UnitTop(x.k) == F * UnitBottom(x.k)
  {
    var N, B, U := x.m * UnitTop(x.k), UnitBottom(x.k), Steps(0);
    ValueOnGrid(x.m, x.k);
    MulAssoc(F, U, B);
    MulAssoc(F, B, U);
    if N != F * B {
      MulOrder(N, F * B, U);
      MulOrder(F * B, N, U);
    }
  }

  // ----- ordinary numbers -----

  /** Numbers that are neither very long nor very great nor very small. */
  predicate IsOrdinary(F: nat, q: int) {
    && -330 <= q <= 330 && 0 < F < Pow2(1000)
    && Bottom(q) <= Top(F, q) * Pow2(1030) && Top(F, q) <= Bottom(q) * Pow2(980)
  }

  lemma PowerAbove(n: nat)
    ensures Pow2(Gain(n)) <= Pow(10, n)
  {
    PowerAboveParts(n, n / 24, n % 24, 24, 79);
  }

  lemma {:induction false} PowerAboveParts(n: nat, i: nat, r: nat, s: nat, g: nat)
    requires n == s * i + r && s == 24 && g == 79
    ensures Pow2(g * i + 3 * r) <= Pow(10, n)
    decreases i
  {
    if i == 0 {
      PowerAbove8(r);
    } else {
      PowerAboveParts(n - s, i - 1, r, s, g);
      TwoTo79();
      PowerAboveSum(n, s, g, g * (i - 1) + 3 * r);
    }
  }

  lemma PowerAboveSum(n: nat, s: nat, g: nat, h: nat)
    requires s <= n && Pow2(g) <= Pow(10, s) && Pow2(h) <= Pow(10, n - s)
    ensures Pow2(g + h) <= Pow(10, n)
  {
    Pow2Add(g, h);
    PowAdd(10, s, n - s);
    Bounded(Pow2(g), Pow(10, s), Pow2(h), Pow(10, n - s));
  }

  lemma Pow2Order(m: nat, n: nat)
    requires Pow2(m) < Pow2(n)
    ensures m < n
  {
    if m >= n {
      Pow2Mono(n, m);
    }
  }

  lemma {:induction false} BitsOf(F: nat) returns (b: nat)
    requires F > 0
    ensures Pow2(b) <= F < Pow2(b + 1)
  {
    if F == 1 {
      b := 0;
    } else {
      b := BitsOf(F / 2);
      b := b + 1;
      Pow2Step(b);
      Pow2Step(b + 1);
    }
  }

  /** Ordinary numbers are scaled without reaching zero or infinity. */
  lemma OrdinaryIsPositive(F: nat, q: int, x: Double, times: (Double, nat) -> Double, over: (Double, nat) -> Double)
    requires IsOrdinary(F, q) && IsConverted(F, x) && IsTimes(times) && IsOver(over)
    ensures IsPositive(ScaledBy(x, q, times, over))
  {
    var b := BitsOf(F);
    Pow2Order(b, 1000);
    assert Reaches(x, b) && Within(x, b + 1);
    if q >= 0 {
      OrdinaryIsBelow(F, q, b);
      TimesIsBounded(times);
      UpIsBetween(x, q, times, b, b + 1);
      BetweenIsPositive(ScaledUp(x, q, times), b + Gain(q), b + 1 + Loss(q));
    } else {
      OrdinaryIsAbove(F, -q, b);
      OverIsBounded(over);
      DownIsBetween(x, -q, over, b, b + 1);
      BetweenIsPositive(ScaledDown(x, -q, over), b - Loss(-q), b + 1 - Gain(-q));
    }
  }

  lemma OrdinaryIsBelow(F: nat, n: nat, b: nat)
    requires n <= 330 && Pow2(b) <= F && F * Pow(10, n) <= Pow2(980)
    ensures b + 1 + Loss(n) <= GREATEST_EXPONENT + 52
  {
    PowerAbove(n);
    Bounded(Pow2(b), F, Pow2(Gain(n)), Pow(10, n));
    Pow2Add(b, Gain(n));
    Pow2Step(981);
    Pow2Order(b + Gain(n), 981);
  }

  lemma OrdinaryIsAbove(F: nat, n: nat, b: nat)
    requires n <= 330 && F < Pow2(b + 1) && Pow(10, n) <= F * Pow2(1030)
    ensures LEAST_EXPONENT <= b - Loss(n)
  {
    PowerAbove(n);
    MulOrder(F, Pow2(b + 1), Pow2(1030));
    Pow2Add(b + 1, 1030);
    Pow2Order(Gain(n), b + 1031);
  }

  ghost predicate IsConversion(convert: nat -> Double) {
    forall F: nat {:trigger convert(F)} :: IsConverted(F, convert(F))
  }

  /** Up to the 23rd power, `pow10n` is one operation on the number. */
  lemma ScaledIsOnce(F: nat, q: int, x: Double, times: (Double, nat) -> Double, over: (Double, nat) -> Double)
    requires !IsInexact(F, q) && IsConverted(F, x) && IsTimes(times) && IsOver(over)
    ensures IsOneOperation(F, q, ScaledBy(x, q, times, over))
  {
    if q >= 0 {
      FactorIsPositive(q);
      TimesOnce(F, PowerOfTen(q), x, times(x, PowerOfTen(q)));
    } else {
      FactorIsPositive(-q);
      OverOnce(F, PowerOfTen(-q), x, over(x, PowerOfTen(-q)));
    }
  }

  lemma ScaledIsNumber(x: Double, q: int, times: (Double, nat) -> Double, over: (Double, nat) -> Double)
    requires IsTimes(times) && IsOver(over)
    ensures IsNumber(ScaledBy(x, q, times, over))
  {
    if q >= 0 {
      UpIsNumber(x, q, times);
    } else {
      DownIsNumber(x, -q, over);
    }
  }

  /** The number F * 10^q is read as `read_real` does: an ordinary one is read right unless one operation with 1.0e23
      stands in for `algorithmR` and there is no room for its error. */
  method ReadFlonum(F: nat, q: int, convert: nat -> Double, times: (Double, nat) -> Double,
      over: (Double, nat) -> Double) returns (start: Double, z: Double)
    requires IsConversion(convert) && IsTimes(times) && IsOver(over)
    ensures IsNumber(start) && (!IsInexact(F, q) || !IsPositive(start) ==> z == start)
    ensures IsInexact(F, q) && IsPositive(start) ==> IsReadRight(F, q, z)
    ensures !IsInexact(F, q) ==> (IsReadRight(F, q, z) <==> -22 <= q <= 22 || HasRoom(F, q))
    ensures IsOrdinary(F, q) ==> IsPositive(start)
  {
    var x := convert(F);
    start := Pow10n(x, q, times, over);
    ScaledIsNumber(x, q, times, over);
    if !IsInexact(F, q) {
      ScaledIsOnce(F, q, x, times, over);
    }
    if IsOrdinary(F, q) {
      OrdinaryIsPositive(F, q, x, times, over);
    }
    z := ReadReal(F, q, start);
  }
}
