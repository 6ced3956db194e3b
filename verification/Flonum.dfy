/**
 Printing flonums (src/number.c, `double_print`): free-format digit generation with big integers.
 The flonum is `r / s`, and what is printed for it lies between `mm / s` below it and `mp / s` above it.
 */
module Flonum {
  import opened Arith
  import opened Modular
  import opened Radix

  /** `mp` is twice `mm` when the neighbour below is closer; `even` says whether the end points of the
      interval belong to it. */
  datatype Interval = Interval(r: nat, s: nat, mm: nat, mp2: bool, even: bool) {
    function Mp(): nat {
      if mp2 then 2 * mm else mm
    }

    /** The decimal N / T lies in the interval. */
    predicate Inside(N: int, T: int) {
      if even then (r - mm) * T <= N * s <= (r + Mp()) * T
      else (r - mm) * T < N * s < (r + Mp()) * T
    }

    /** The whole interval lies below one. */
    predicate BelowOne() {
      if even then r + Mp() < s else r + Mp() <= s
    }
  }

  /** `tc1`: the digits so far are already close enough from below. */
  predicate LowEnough(even: bool, r: nat, mm: nat) {
    if even then r <= mm else r < mm
  }

  /** `tc2`: one more in the last digit is close enough from above. */
  predicate HighEnough(even: bool, r: nat, mp: nat, s: nat) {
    if even then r + mp >= s else r + mp > s
  }

  /** The state after `T == 10^i` digits with value `D`: what is left is `r`, and both margins have grown. */
  ghost predicate Generating(v: Interval, T: int, D: int, r: nat, mm: nat) {
    && T > 0 && r < v.s && mm == v.mm * T
    && v.r * T == D * v.s + r
  }

  lemma GenerateStep(v: Interval, T: int, D: int, r: nat, mm: nat, q: int, r': int)
    requires v.s > 0 && Generating(v, T, D, r, mm) && 10 * r == v.s * q + r' && 0 <= r' < v.s
    ensures 0 <= q <= 9 && Generating(v, 10 * T, 10 * D + q, r', 10 * mm)
  {
    if q > 9 {
      MulMono(v.s, 10, q);
    }
    if q < 0 {
      MulMono(v.s, q, -1);
    }
    MulAssoc(v.r, 10, T);
    MulAssoc(10, v.r, T);
    MulAssoc(v.mm, 10, T);
    MulAssoc(10, v.mm, T);
    MulDist(v.s, 10 * D, q);
    MulAssoc(10, D, v.s);
  }

  /** Rounding the digit nine up never happens: the interval would reach the next digit before. */
  lemma NineIsNotRounded(v: Interval, r: nat, mm: nat, q: int, r': int)
    requires v.s > 0 && 10 * r == v.s * q + r' && 0 <= r' < v.s && q <= 9
    requires var mp := if v.mp2 then 2 * mm else mm; !HighEnough(v.even, r, mp, v.s)
    requires var mp' := if v.mp2 then 2 * (10 * mm) else 10 * mm; HighEnough(v.even, r', mp', v.s)
    ensures q <= 8
  {
  }

  lemma MarginScaled(v: Interval, T: int, mm: nat)
    requires mm == v.mm * T
    ensures (if v.mp2 then 2 * mm else mm) == v.Mp() * T
  {
  }

  lemma InsideByProducts(v: Interval, N: int, T: int, rT: int, mmT: int, mpT: int, Ns: int)
    requires rT == v.r * T && mmT == v.mm * T && mpT == v.Mp() * T && Ns == N * v.s
    ensures v.Inside(N, T) <==> if v.even then rT - mmT <= Ns <= rT + mpT else rT - mmT < Ns < rT + mpT
  {
  }

  /** While neither test holds, no decimal with this many digits lies in the interval. */
  lemma NoneSoShort(v: Interval, T: int, D: int, r: nat, mm: nat, N: int)
    requires v.s > 0 && Generating(v, T, D, r, mm)
    requires !LowEnough(v.even, r, mm) && !HighEnough(v.even, r, if v.mp2 then 2 * mm else mm, v.s)
    ensures !v.Inside(N, T)
  {
    MarginScaled(v, T, mm);
    InsideByProducts(v, N, T, v.r * T, mm, v.Mp() * T, N * v.s);
    if N <= D {
      MulMono(v.s, N, D);
    } else {
      MulMono(v.s, D + 1, N);
      MulDist(v.s, D, 1);
    }
  }

  /** Stopping on either test leaves a decimal in the interval. */
  lemma StopsInside(v: Interval, T: int, D: int, r: nat, mm: nat)
    requires v.s > 0 && v.mm > 0 && Generating(v, T, D, r, mm)
    ensures LowEnough(v.even, r, mm) ==> v.Inside(D, T)
    ensures HighEnough(v.even, r, if v.mp2 then 2 * mm else mm, v.s) ==> v.Inside(D + 1, T)
  {
    MarginScaled(v, T, mm);
    MulDist(v.s, D, 1);
    MulMono(T, 1, v.mm);
    InsideByProducts(v, D, T, v.r * T, mm, v.Mp() * T, D * v.s);
    InsideByProducts(v, D + 1, T, v.r * T, mm, v.Mp() * T, D * v.s + v.s);
  }

  /** How a digit continues or ends the number: `tc1`, `tc2` and `tc3` of the source. */
  datatype Choice = Continue(digit: nat) | Stop(digit: nat)

  function Choose(even: bool, q: nat, r: nat, mm: nat, mp: nat, s: nat): Choice {
    var tc1, tc2 := LowEnough(even, r, mm), HighEnough(even, r, mp, s);
    if !tc1 then (if !tc2 then Continue(q) else Stop(q + 1))
    else if !tc2 then Stop(q)
    else if (if even then r + r <= s else r + r < s) then Stop(q)
    else Stop(q + 1)
  }

  ghost predicate NoShorter(v: Interval, i: nat) {
    forall j: nat, N: int {:trigger v.Inside(N, Pow(10, j))} :: j <= i ==> !v.Inside(N, Pow(10, j))
  }

  /** What digit generation promises: decimal digits, a value in the interval, none with fewer digits, and none
      with as many that is closer. */
  ghost predicate IsShortest(v: Interval, ds: seq<nat>) {
    && |ds| > 0 && AreDigits(ds, 10)
    && v.Inside(Undigits(ds, 10), Pow(10, |ds|))
    && NoShorter(v, |ds| - 1)
    && IsClosest(v, Undigits(ds, 10), Pow(10, |ds|))
  }

  /** How far N / T is from the flonum, as a multiple of 1 / (s * T). */
  function Distance(v: Interval, N: int, T: int): nat {
    Abs(N * v.s - v.r * T)
  }

  /** The first of two numbers is closer, or as close and the one to take: the lower one for an even significand,
      and the
      higher one for an odd one. */
  predicate IsPreferred(even: bool, N: int, M: int, distance: nat, distance': nat) {
    distance < distance' || (distance == distance' && (N == M || if even then N < M else M < N))
  }

  /** No decimal of this length that lies in the interval is closer to the flonum, or as close and the one to take. */
  ghost predicate IsClosest(v: Interval, N: int, T: int) {
    forall M: int {:trigger v.Inside(M, T)} :: v.Inside(M, T) ==>
      IsPreferred(v.even, N, M, Distance(v, N, T), Distance(v, M, T))
  }

  function Abs(x: int): nat {
    if x < 0 then -x else x
  }

  /** The same on products: `rT` lies `r` above the digits so far and `s - r` below the next decimal. */
  lemma ClosestByProducts(even: bool, q: nat, r: nat, mm: nat, mp: nat, s: nat, choice: Choice, rT: int, Ds: int,
      Ms: int)
    requires r < s && rT == Ds + r && choice == Choose(even, q, r, mm, mp, s) && choice.Stop?
    requires Ms <= Ds || Ds + s <= Ms
    requires if even then rT - mm <= Ms <= rT + mp else rT - mm < Ms < rT + mp
    ensures var Es := Ds + if choice.digit == q then 0 else s; IsPreferred(even, Es, Ms, Abs(Es - rT), Abs(Ms - rT))
  {
  }

  lemma PreferredByProducts(even: bool, N: int, M: int, s: int, distance: nat, distance': nat)
    requires s > 0 && IsPreferred(even, N * s, M * s, distance, distance')
    ensures IsPreferred(even, N, M, distance, distance')
  {
    MulOrder(N, M, s);
    MulOrder(M, N, s);
  }

  /** The digit that ends the number leaves the closest decimal. */
  lemma StopsClosest(v: Interval, T: int, D: int, r: nat, mm: nat, q: nat, choice: Choice)
    requires v.s > 0 && Generating(v, T, D, r, mm)
    requires choice == Choose(v.even, q, r, mm, if v.mp2 then 2 * mm else mm, v.s) && choice.Stop?
    ensures IsClosest(v, D + choice.digit - q, T)
  {
    forall M: int | v.Inside(M, T)
      ensures IsPreferred(v.even, D + choice.digit - q, M, Distance(v, D + choice.digit - q, T), Distance(v, M, T))
    {
      StopsCloser(v, T, D, r, mm, q, choice, D + choice.digit - q, M);
    }
  }

  lemma StopsCloser(v: Interval, T: int, D: int, r: nat, mm: nat, q: nat, choice: Choice, E: int, M: int)
    requires v.s > 0 && Generating(v, T, D, r, mm) && v.Inside(M, T) && E == D + choice.digit - q
    requires choice == Choose(v.even, q, r, mm, if v.mp2 then 2 * mm else mm, v.s) && choice.Stop?
    ensures IsPreferred(v.even, E, M, Distance(v, E, T), Distance(v, M, T))
  {
    MarginScaled(v, T, mm);
    InsideByProducts(v, M, T, v.r * T, mm, v.Mp() * T, M * v.s);
    StopsByProducts(v.even, q, r, mm, if v.mp2 then 2 * mm else mm, v.s, choice, v.r * T, D, E, M);
  }

  lemma StopsByProducts(even: bool, q: nat, r: nat, mm: nat, mp: nat, s: nat, choice: Choice, rT: int, D: int, E: int,
      M: int)
    requires r < s && rT == D * s + r && choice == Choose(even, q, r, mm, mp, s) && choice.Stop?
        && E == D + choice.digit - q
    requires if even then rT - mm <= M * s <= rT + mp else rT - mm < M * s < rT + mp
    ensures IsPreferred(even, E, M, Abs(E * s - rT), Abs(M * s - rT))
  {
    var Es := D * s + if choice.digit == q then 0 else s;
    assert E * s == Es by {
      MulDist(s, D, choice.digit - q);
    }
    if M <= D {
      MulMono(s, M, D);
    } else {
      MulMono(s, D + 1, M);
      MulDist(s, D, 1);
    }
    ClosestByProducts(even, q, r, mm, mp, s, choice, rT, D * s, M * s);
    PreferredByProducts(even, E, M, s, Abs(E * s - rT), Abs(M * s - rT));
  }

  lemma ExtendNoShorter(v: Interval, ds: seq<nat>, T: int, D: int, r: nat, mm: nat)
    requires v.s > 0 && T == Pow(10, |ds|) && Generating(v, T, D, r, mm)
    requires !LowEnough(v.even, r, mm) && !HighEnough(v.even, r, if v.mp2 then 2 * mm else mm, v.s)
    requires |ds| > 0 ==> NoShorter(v, |ds| - 1)
    ensures NoShorter(v, |ds|)
  {
    forall j: nat, N: int | j <= |ds| ensures !v.Inside(N, Pow(10, j)) {
      if j == |ds| {
        NoneSoShort(v, T, D, r, mm, N);
      }
    }
  }

  // ----- the text -----

  function Chars(ds: seq<nat>): (s: string)
    requires forall i :: 0 <= i < |ds| ==> ds[i] < 10
  {
    seq(|ds|, i requires 0 <= i < |ds| => '0' + ds[i] as char)
  }

  /** What has been written after the digits `ds` while there are more to come. */
  function Shown(ds: seq<nat>, point: int): string
    requires forall i :: 0 <= i < |ds| ==> ds[i] < 10
  {
    if 0 < point <= |ds| then Chars(ds[..point]) + "." + Chars(ds[point..]) else Chars(ds)
  }

  lemma ShownNext(ds: seq<nat>, d: nat, point: int)
    requires AreDigits(ds, 10) && d < 10
    ensures AreDigits(ds + [d], 10)
    ensures var c := ['0' + d as char];
            && Shown(ds + [d], point) == Shown(ds, point) + c + (if |ds| + 1 == point then "." else "")
            && (|ds| + 1 <= point ==> Shown(ds, point) + c == Chars(ds + [d]))
  {
    var more := ds + [d];
    if 0 < point <= |ds| {
      assert more[..point] == ds[..point] && more[point..] == ds[point..] + [d];
      assert Chars(ds[point..] + [d]) == Chars(ds[point..]) + ['0' + d as char];
    } else {
      assert Chars(more) == Chars(ds) + ['0' + d as char];
      if |more| == point {
        assert more[..point] == more && Chars(more[point..]) == "";
      }
    }
  }

  predicate ReachesTenth(v: Interval) {
    HighEnough(v.even, 10 * v.r, 10 * v.Mp(), v.s)
  }

  /** The first digit is not zero whenever the interval reaches a tenth. */
  ghost predicate IsNormal(v: Interval, ds: seq<nat>) {
    |ds| > 0 && ReachesTenth(v) ==> ds[0] > 0
  }

  ghost predicate IsRunning(v: Interval, ds: seq<nat>, r: nat, mm: nat) {
    && AreDigits(ds, 10)
    && mm > 0 && Generating(v, Pow(10, |ds|), Undigits(ds, 10), r, mm)
    && !LowEnough(v.even, r, mm) && !HighEnough(v.even, r, if v.mp2 then 2 * mm else mm, v.s)
    && (|ds| > 0 ==> NoShorter(v, |ds| - 1))
    && IsNormal(v, ds)
  }

  lemma Advance(v: Interval, ds: seq<nat>, r: nat, mm: nat, q: nat, r': nat, mp': nat, choice: Choice)
    requires v.s > 0 && 0 < v.mm < v.r && IsRunning(v, ds, r, mm) && 10 * r == v.s * q + r' && r' < v.s
    requires mp' == (if v.mp2 then 2 * (10 * mm) else 10 * mm) && choice == Choose(v.even, q, r', 10 * mm, mp', v.s)
    ensures choice.digit < 10 && NoShorter(v, |ds|)
    ensures Generating(v, 10 * Pow(10, |ds|), 10 * Undigits(ds, 10) + q, r', 10 * mm)
  {
    var T, D := Pow(10, |ds|), Undigits(ds, 10);
    GenerateStep(v, T, D, r, mm, q, r');
    ExtendNoShorter(v, ds, T, D, r, mm);
    if HighEnough(v.even, r', mp', v.s) {
      NineIsNotRounded(v, r, mm, q, r');
    }
  }

  lemma StaysNormal(v: Interval, ds: seq<nat>, r: nat, mm: nat, q: nat, r': nat, mp': nat, choice: Choice)
    requires v.s > 0 && 0 < v.mm < v.r && IsRunning(v, ds, r, mm) && 10 * r == v.s * q + r' && r' < v.s
    requires mp' == (if v.mp2 then 2 * (10 * mm) else 10 * mm) && choice == Choose(v.even, q, r', 10 * mm, mp', v.s)
    ensures IsNormal(v, ds + [choice.digit])
  {
  }

  lemma Continues(v: Interval, ds: seq<nat>, q: nat, r: nat, mm: nat)
    requires AreDigits(ds, 10) && q < 10 && mm > 0
    requires Generating(v, 10 * Pow(10, |ds|), 10 * Undigits(ds, 10) + q, r, mm)
    requires !LowEnough(v.even, r, mm) && !HighEnough(v.even, r, if v.mp2 then 2 * mm else mm, v.s)
    requires NoShorter(v, |ds|) && IsNormal(v, ds + [q])
    ensures IsRunning(v, ds + [q], r, mm)
  {
  }

  lemma Stops(v: Interval, ds: seq<nat>, d: nat, T: int, D: int)
    requires AreDigits(ds, 10) && d < 10 && T == 10 * Pow(10, |ds|) && D == 10 * Undigits(ds, 10) + d
    requires v.Inside(D, T) && NoShorter(v, |ds|) && IsClosest(v, D, T)
    ensures IsShortest(v, ds + [d])
  {
  }

  ghost predicate IsNext(v: Interval, ds: seq<nat>, choice: Choice, r: nat, mm: nat) {
    && choice.digit < 10 && AreDigits(ds + [choice.digit], 10)
    && match choice
       case Continue(d) => IsRunning(v, ds + [d], r, mm)
       case Stop(d) => IsShortest(v, ds + [d]) && IsNormal(v, ds + [d])
  }

  lemma Round(v: Interval, ds: seq<nat>, r: nat, mm: nat, q: nat, r': nat, mp': nat, choice: Choice)
    requires v.s > 0 && 0 < v.mm < v.r && IsRunning(v, ds, r, mm) && 10 * r == v.s * q + r' && r' < v.s
    requires mp' == (if v.mp2 then 2 * (10 * mm) else 10 * mm) && choice == Choose(v.even, q, r', 10 * mm, mp', v.s)
    ensures IsNext(v, ds, choice, r', 10 * mm)
  {
    Advance(v, ds, r, mm, q, r', mp', choice);
    StaysNormal(v, ds, r, mm, q, r', mp', choice);
    if choice.Continue? {
      Continues(v, ds, q, r', 10 * mm);
    } else {
      StopsInside(v, 10 * Pow(10, |ds|), 10 * Undigits(ds, 10) + q, r', 10 * mm);
      StopsClosest(v, 10 * Pow(10, |ds|), 10 * Undigits(ds, 10) + q, r', 10 * mm, q, choice);
      Stops(v, ds, choice.digit, 10 * Pow(10, |ds|), 10 * Undigits(ds, 10) + choice.digit);
    }
  }

  method Quotient(a: nat, b: nat) returns (q: nat, r: nat)
    requires b > 0
    ensures a == b * q + r && r < b
  {
    q, r := a / b, a % b;
  }

  /** One round of the digit loop. */
  method NextDigit(v: Interval, ghost ds: seq<nat>, r: nat, mm: nat) returns (choice: Choice, r': nat, mm': nat)
    requires v.s > 0 && 0 < v.mm < v.r && IsRunning(v, ds, r, mm)
    ensures mm' == 10 * mm && IsNext(v, ds, choice, r', mm')
  {
    var q;
    q, r' := Quotient(10 * r, v.s);
    mm' := 10 * mm;
    var mp' := if v.mp2 then 2 * mm' else mm';
    choice := Choose(v.even, q, r', mm', mp', v.s);
    Round(v, ds, r, mm, q, r', mp', choice);
  }

  /** The digits, with the decimal point after the first `point` of them when more follow. */
  method Generate(v: Interval, point: int) returns (ds: seq<nat>, text: string)
    requires v.s > 0 && 0 < v.mm < v.r && v.BelowOne()
    ensures IsShortest(v, ds) && IsNormal(v, ds)
    ensures text == if |ds| <= point then Chars(ds) else Shown(ds, point)
  {
    var r: nat, mm: nat := v.r, v.mm;
    ds, text := [], "";
    while true
      invariant IsRunning(v, ds, r, mm) && text == Shown(ds, point)
      decreases v.s - mm
    {
      var choice;
      choice, r, mm := NextDigit(v, ds, r, mm);
      ShownNext(ds, choice.digit, point);
      ds, text := ds + [choice.digit], text + ['0' + choice.digit as char];
      if choice.Stop? {
        return;
      }
      if |ds| == point {
        text := text + ".";
      }
    }
  }

  // ----- scaling -----

  const TWO_52: nat := 0x10_0000_0000_0000

  function Shift(f: nat, n: nat): (r: nat)
    ensures r == f * Pow2(n)
  {
    MulMono(f, 0, Pow2(n));
    f * Pow2(n)
  }

  /** The interval of the flonum f * 2^e, as `double_print` sets it up. */
  function Start(f: nat, e: int): Interval {
    if e >= 0 then
      if f != TWO_52 then Interval(Shift(f, e + 1), 2, Pow2(e), false, f % 2 == 0)
      else Interval(Shift(f, e + 2), 4, Pow2(e), true, f % 2 == 0)
    else
      if e == -1023 || f != TWO_52 then Interval(2 * f, Pow2(-e + 1), 1, false, f % 2 == 0)
      else Interval(4 * f, Pow2(-e + 2), 1, true, f % 2 == 0)
  }

  /** The unit 2^e of the significand as a fraction. */
  function UnitTop(e: int): nat {
    if e >= 0 then Pow2(e) else 1
  }

  function UnitBottom(e: int): nat {
    if e >= 0 then 1 else Pow2(-e)
  }

  /** The ends of the interval are where the source means them: half a unit above the flonum, and half a
      unit, or a quarter when the flonum below is twice as close, under it. */
  lemma StartIsFlonum(f: nat, e: int)
    requires f > 0
    ensures var v, top, bottom := Start(f, e), UnitTop(e), UnitBottom(e);
            && v.s > 0 && 0 < v.mm < v.r && (v.even <==> f % 2 == 0)
            && v.r * bottom == f * top * v.s
            && 2 * v.Mp() * bottom == top * v.s
            && (if v.mp2 then 4 else 2) * v.mm * bottom == top * v.s
            && (v.mp2 <==> f == TWO_52 && e != -1023)
  {
    if e >= 0 {
      Pow2Step(e + 2);
      Pow2Step(e + 1);
      MulMono(Pow2(e), 1, f);
      MulAssoc(f, Pow2(e), 2);
      MulAssoc(f, Pow2(e), 4);
    } else {
      Pow2Step(-e + 2);
      Pow2Step(-e + 1);
      MulAssoc(2, f, Pow2(-e));
      MulAssoc(4, f, Pow2(-e));
    }
  }

  const LEAST_EXPONENT: int := -1074

  /** The margin below never exceeds half the distance to the flonum below, except for 2^52 * 2^-1023, which
      the source takes for a flonum with equal distances on both sides. */
  lemma MarginBelow(f: nat, e: int)
    requires f > 0 && LEAST_EXPONENT <= e
    ensures var v := Start(f, e);
            var halves := if f == TWO_52 && e > LEAST_EXPONENT then 4 else 2;
            halves * v.mm * UnitBottom(e) <= UnitTop(e) * v.s <==> !(f == TWO_52 && e == -1023)
  {
    StartIsFlonum(f, e);
  }

  /** Dividing the interval by 10^k. */
  function Scaled(v: Interval, k: int): Interval {
    if k >= 0 then v.(s := ScaleBy(v.s, k)) else v.(r := ScaleBy(v.r, -k), mm := ScaleBy(v.mm, -k))
  }

  function ScaleBy(x: nat, k: nat): (r: nat)
    ensures r == x * Pow(10, k) && (x > 0 ==> r > 0)
  {
    PowPositive(10, k);
    MulMono(Pow(10, k), 0, x);
    if x > 0 then MulMono(Pow(10, k), 1, x); x * Pow(10, k) else x * Pow(10, k)
  }

  /** The decimal N * 10^j lies in the interval. */
  ghost predicate Holds(v: Interval, N: int, j: int) {
    if j >= 0 then v.Inside(N * Pow(10, j), 1) else v.Inside(N, Pow(10, -j))
  }

  lemma MulOrder(a: int, b: int, c: int)
    requires c > 0
    ensures a * c <= b * c <==> a <= b
    ensures a * c < b * c <==> a < b
  {
  }

  lemma InsideCancel(v: Interval, N: int, T: int, c: int)
    requires c > 0
    ensures v.Inside(N * c, T * c) <==> v.Inside(N, T)
  {
  }

  /** A decimal may be written with more trailing zeros. */
  lemma DecimalShift(v: Interval, N: int, j: int, n: nat)
    ensures Holds(v, N * Pow(10, n), j - n) <==> Holds(v, N, j)
  {
    PowPositive(10, n);
    if j >= n {
      PowAdd(10, n, j - n);
      MulAssoc(N, Pow(10, n), Pow(10, j - n));
    } else if j >= 0 {
      PowPositive(10, n - j);
      PowAdd(10, j, n - j);
      MulAssoc(N, Pow(10, j), Pow(10, n - j));
      InsideCancel(v, N * Pow(10, j), 1, Pow(10, n - j));
    } else {
      PowAdd(10, -j, n);
      InsideCancel(v, N, Pow(10, -j), Pow(10, n));
    }
  }

  lemma ScaledBottom(v: Interval, w: Interval, c: int, N: int, T: int)
    requires w == v.(s := w.s) && w.s == v.s * c
    ensures w.Inside(N, T) <==> v.Inside(N * c, T)
  {
  }

  lemma ScaledTop(v: Interval, w: Interval, c: int, N: int, T: int)
    requires w == v.(r := w.r, mm := w.mm) && w.r == v.r * c && w.mm == v.mm * c
    ensures w.Inside(N, T) <==> v.Inside(N, c * T)
  {
  }

  lemma ScaledHolds(v: Interval, k: int, N: int, i: nat)
    ensures Scaled(v, k).Inside(N, Pow(10, i)) <==> Holds(v, N, k - i)
  {
    if k >= 0 {
      ScaledBottom(v, Scaled(v, k), Pow(10, k), N, Pow(10, i));
      DecimalShift(v, N, k - i, k);
    } else {
      ScaledTop(v, Scaled(v, k), Pow(10, -k), N, Pow(10, i));
      PowAdd(10, -k, i);
    }
  }

  // ----- the whole number -----

  function Zeros(n: nat): (ds: seq<nat>)
    ensures |ds| == n && forall i :: 0 <= i < n ==> ds[i] == 0
  {
    seq(n, _ => 0)
  }

  /** The digits before and after the decimal point. */
  function Split(ds: seq<nat>, point: int): (p: (seq<nat>, seq<nat>)) {
    if point <= 0 then ([0], Zeros(-point) + ds)
    else if |ds| <= point then (ds + Zeros(point - |ds|), [0])
    else (ds[..point], ds[point..])
  }

  lemma {:induction false} LeadingZeros(ds: seq<nat>, n: nat)
    ensures Undigits(Zeros(n) + ds, 10) == Undigits(ds, 10)
    decreases |ds| + n
  {
    if ds != [] {
      LeadingZeros(ds[..|ds| - 1], n);
      assert (Zeros(n) + ds)[..n + |ds| - 1] == Zeros(n) + ds[..|ds| - 1];
    } else if n > 0 {
      LeadingZeros(ds, n - 1);
      assert (Zeros(n) + ds)[..n - 1] == Zeros(n - 1) + ds;
    }
  }

  lemma {:induction false} TrailingZeros(ds: seq<nat>, n: nat)
    ensures Undigits(ds + Zeros(n), 10) == Undigits(ds, 10) * Pow(10, n)
    decreases n
  {
    if n == 0 {
      assert ds + Zeros(n) == ds;
    } else {
      TrailingZeros(ds, n - 1);
      assert (ds + Zeros(n))[..|ds| + n - 1] == ds + Zeros(n - 1);
      MulAssoc(Undigits(ds, 10), Pow(10, n - 1), 10);
    }
  }

  /** Placing the decimal point changes nothing but the number of trailing zeros. */
  lemma SplitValue(ds: seq<nat>, point: int)
    requires ds != []
    ensures var (ip, fp) := Split(ds, point);
            && |ip| > 0 && |fp| > 0 && |fp| - |ds| + point >= 0
            && Undigits(ip + fp, 10) == Undigits(ds, 10) * Pow(10, |fp| - |ds| + point)
  {
    var (ip, fp) := Split(ds, point);
    if point <= 0 {
      LeadingZeros(ds, -point + 1);
      assert ip + fp == Zeros(-point + 1) + ds;
    } else if |ds| <= point {
      TrailingZeros(ds, point - |ds| + 1);
      assert ip + fp == ds + Zeros(point - |ds| + 1);
    } else {
      assert ip + fp == ds;
    }
  }

  /** The estimate of the source: at most one too low. */
  predicate IsEstimate(v: Interval, est: int) {
    var w := Scaled(v, est);
    w.(s := 10 * w.s).BelowOne()
  }

  /** `w` is `v` divided by 10^k. */
  ghost predicate IsScaled(v: Interval, w: Interval, k: int) {
    forall N: int, i: nat {:trigger w.Inside(N, Pow(10, i))} :: w.Inside(N, Pow(10, i)) <==> Holds(v, N, k - i)
  }

  method Fixup(v: Interval, est: int) returns (w: Interval, k: int)
    requires v.s > 0 && 0 < v.mm < v.r && IsEstimate(v, est)
    ensures w.s > 0 && 0 < w.mm < w.r && w.BelowOne() && IsScaled(v, w, k) && IsQuotient(v, w, k)
    ensures w.mp2 == v.mp2 && w.even == v.even && w.r * v.mm == v.r * w.mm
        && (ReachesTenth(Scaled(v, est)) ==> ReachesTenth(w))
  {
    w, k := Scaled(v, est), est;
    var scaled := w;
    if est < 0 {
      PowPositive(10, -est);
      MulOrder(v.mm, v.r, Pow(10, -est));
      MulAssoc(v.r, Pow(10, -est), v.mm);
      MulAssoc(v.r, v.mm, Pow(10, -est));
    }
    if w.r >= w.s || HighEnough(w.even, w.r, w.Mp(), w.s) {
      w, k := w.(s := 10 * w.s), k + 1;
    }
    forall N: int, i: nat ensures w.Inside(N, Pow(10, i)) <==> Holds(v, N, k - i) {
      ScaledHolds(v, est, N, i);
      if k == est + 1 {
        ScaledBottom(scaled, w, 10, N, Pow(10, i));
        ScaledHolds(v, est, N * 10, i);
        DecimalShift(v, N, k - i, 1);
      }
    }
    QuotientOf(v, est, w, k);
  }

  /** The value of `w` is that of `v` divided by 10^k. */
  ghost predicate IsQuotient(v: Interval, w: Interval, k: int) {
    if k >= 0 then w.r * (v.s * Pow(10, k)) == v.r * w.s else w.r * v.s == (v.r * Pow(10, -k)) * w.s
  }

  lemma QuotientOf(v: Interval, est: int, w: Interval, k: int)
    requires (k == est && w == Scaled(v, est))
        || (k == est + 1 && w.r == Scaled(v, est).r && w.s == 10 * Scaled(v, est).s)
    ensures IsQuotient(v, w, k)
  {
  }

  /** Nothing with a larger last place lies in the interval. */
  ghost predicate NoneCoarser(v: Interval, j: int) {
    forall N: int, j': int {:trigger Holds(v, N, j')} :: j' > j ==> !Holds(v, N, j')
  }

  lemma ShortestHolds(v: Interval, w: Interval, k: int, ds: seq<nat>)
    requires IsScaled(v, w, k) && IsShortest(w, ds)
    ensures Holds(v, Undigits(ds, 10), k - |ds|) && NoneCoarser(v, k - |ds|)
  {
    forall N: int, j: int | j > k - |ds| ensures !Holds(v, N, j) {
      if j <= k {
        assert !w.Inside(N, Pow(10, k - j));
      } else {
        assert !w.Inside(N * Pow(10, j - k), Pow(10, 0));
        DecimalShift(v, N, j, j - k);
      }
    }
  }

  lemma SplitText(ds: seq<nat>, point: int)
    requires AreDigits(ds, 10)
    ensures var (ip, fp) := Split(ds, point);
            && AreDigits(ip, 10) && AreDigits(fp, 10)
            && Chars(ip) + "." + Chars(fp) ==
               if point <= 0 then "0." + Chars(Zeros(-point)) + Shown(ds, point)
               else if |ds| <= point then Chars(ds) + Chars(Zeros(point - |ds|)) + ".0"
               else Shown(ds, point)
  {
    assert Chars([0]) == "0";
    if point <= 0 {
      assert Chars(Zeros(-point) + ds) == Chars(Zeros(-point)) + Chars(ds);
    } else if |ds| <= point {
      assert Chars(ds + Zeros(point - |ds|)) == Chars(ds) + Chars(Zeros(point - |ds|));
    }
  }

  /** Digits with the decimal point, padded with zeros on either side of it. */
  method Render(w: Interval, point: int) returns (text: string, ds: seq<nat>)
    requires w.s > 0 && 0 < w.mm < w.r && w.BelowOne()
    ensures IsShortest(w, ds) && IsNormal(w, ds)
    ensures var (ip, fp) := Split(ds, point);
            AreDigits(ip, 10) && AreDigits(fp, 10) && text == Chars(ip) + "." + Chars(fp)
  {
    var front, shown := "", "";
    if point <= 0 {
      front := "0." + Chars(Zeros(-point));
    }
    ds, shown := Generate(w, point);
    text := front + shown;
    SplitText(ds, point);
    if |ds| <= point {
      text := text + Chars(Zeros(point - |ds|)) + ".0";
    }
  }

  /** What is printed, as a decimal with its exponent, lies in the interval. It is the digits `ds` ending at
      the place `last`, and no decimal ending at a larger place lies in the interval. */
  ghost predicate IsPrinted(v: Interval, ip: seq<nat>, fp: seq<nat>, exponent: int, ds: seq<nat>, last: int) {
    && Holds(v, Undigits(ip + fp, 10), exponent - |fp|)
    && last >= exponent - |fp|
    && Undigits(ip + fp, 10) == Undigits(ds, 10) * Pow(10, last - (exponent - |fp|))
    && NoneCoarser(v, last)
  }

  lemma Prints(v: Interval, w: Interval, k: int, ds: seq<nat>, point: int, exponent: int)
    requires IsScaled(v, w, k) && IsShortest(w, ds) && point + exponent == k
    ensures var (ip, fp) := Split(ds, point); IsPrinted(v, ip, fp, exponent, ds, k - |ds|)
  {
    var (ip, fp) := Split(ds, point);
    SplitValue(ds, point);
    ShortestHolds(v, w, k, ds);
    DecimalShift(v, Undigits(ds, 10), k - |ds|, |fp| - |ds| + point);
  }

  // ----- the closest decimal -----

  /** How far the decimal N * 10^j is from the flonum, as a multiple of 1 / s, or of 1 / (s * 10^-j). */
  function Miss(v: Interval, N: int, j: int): nat {
    if j >= 0 then Distance(v, N * Pow(10, j), 1) else Distance(v, N, Pow(10, -j))
  }

  /** Of the decimals in the interval that end at this place, none is closer to the flonum, or as close and the one to
      take. */
  ghost predicate IsClosestAt(v: Interval, N: int, j: int) {
    forall M: int {:trigger Holds(v, M, j)} :: Holds(v, M, j) ==>
        IsPreferred(v.even, N, M, Miss(v, N, j), Miss(v, M, j))
  }

  /** Distances on two scales have the same order. */
  lemma SameOrder(P: int, Q: int, X: int, Y: int, N: int, M: int)
    requires P > 0 && X > 0 && P * Y == Q * X
    ensures Abs(N * P - Q) <= Abs(M * P - Q) <==> Abs(N * X - Y) <= Abs(M * X - Y)
  {
    Rescaled(P, Q, X, Y, N);
    Rescaled(P, Q, X, Y, M);
    MulOrder(Abs(N * P - Q), Abs(M * P - Q), X);
    MulOrder(Abs(N * X - Y), Abs(M * X - Y), P);
  }

  lemma Rescaled(P: int, Q: int, X: int, Y: int, N: int)
    requires P > 0 && X > 0 && P * Y == Q * X
    ensures Abs(N * P - Q) * X == Abs(N * X - Y) * P
  {
    assert (N * P - Q) * X == (N * X - Y) * P by {
      MulAssoc(N, P, X);
      MulAssoc(N, X, P);
    }
    if N * P - Q < 0 {
      MulOrder(N * P - Q, 0, X);
      MulOrder(N * X - Y, 0, P);
    } else {
      MulOrder(0, N * P - Q, X);
      MulOrder(0, N * X - Y, P);
    }
  }

  /** The two scales of `w` and of `v`, at the place k - n. */
  lemma ScalesAgree(v: Interval, w: Interval, k: int, n: nat)
    requires IsQuotient(v, w, k)
    ensures if k >= n then w.s * v.r == (w.r * Pow(10, n)) * (Pow(10, k - n) * v.s)
            else w.s * (v.r * Pow(10, n - k)) == (w.r * Pow(10, n)) * v.s
  {
    if k >= n {
      PowAdd(10, n, k - n);
      Regroup(w.r, Pow(10, n), Pow(10, k - n), v.s);
    } else if k >= 0 {
      PowAdd(10, k, n - k);
      Regroup(w.r, Pow(10, k), Pow(10, n - k), v.s);
      calc {
        w.s * (v.r * Pow(10, n - k));
        { MulAssoc(w.s, v.r, Pow(10, n - k)); }
        (w.r * (v.s * Pow(10, k))) * Pow(10, n - k);
        { MulAssoc(w.r, v.s * Pow(10, k), Pow(10, n - k)); MulAssoc(v.s, Pow(10, k), Pow(10, n - k)); }
        w.r * (v.s * Pow(10, n));
        { MulAssoc(w.r, Pow(10, n), v.s); }
        (w.r * Pow(10, n)) * v.s;
      }
    } else {
      PowAdd(10, -k, n);
      calc {
        w.s * (v.r * Pow(10, n - k));
        { MulAssoc(v.r, Pow(10, -k), Pow(10, n)); }
        w.s * ((v.r * Pow(10, -k)) * Pow(10, n));
        { MulAssoc(w.s, v.r * Pow(10, -k), Pow(10, n)); }
        (w.r * v.s) * Pow(10, n);
        { MulAssoc(w.r, v.s, Pow(10, n)); MulAssoc(w.r, Pow(10, n), v.s); }
        (w.r * Pow(10, n)) * v.s;
      }
    }
  }

  lemma Regroup(a: int, b: int, c: int, d: int)
    ensures a * (d * (b * c)) == (a * b) * (c * d)
  {
    MulAssoc(a, b, c * d);
    MulAssoc(b, c, d);
  }

  lemma ClosestHolds(v: Interval, w: Interval, k: int, N: int, n: nat)
    requires v.s > 0 && w.s > 0 && w.even == v.even && IsScaled(v, w, k) && IsQuotient(v, w, k)
    requires IsClosest(w, N, Pow(10, n))
    ensures IsClosestAt(v, N, k - n)
  {
    var j := k - n;
    ScalesAgree(v, w, k, n);
    forall M: int | Holds(v, M, j) ensures IsPreferred(v.even, N, M, Miss(v, N, j), Miss(v, M, j)) {
      assert w.Inside(M, Pow(10, n));
      if j >= 0 {
        PowPositive(10, j);
        MulOrder(0, Pow(10, j), v.s);
        MulAssoc(N, Pow(10, j), v.s);
        MulAssoc(M, Pow(10, j), v.s);
        SameOrder(w.s, w.r * Pow(10, n), Pow(10, j) * v.s, v.r, N, M);
        SameOrder(w.s, w.r * Pow(10, n), Pow(10, j) * v.s, v.r, M, N);
      } else {
        SameOrder(w.s, w.r * Pow(10, n), v.s, v.r * Pow(10, -j), N, M);
        SameOrder(w.s, w.r * Pow(10, n), v.s, v.r * Pow(10, -j), M, N);
      }
    }
  }

  // ----- the number of digits -----

  /** The interval of a flonum whose significand is `f`, after scaling. */
  ghost predicate IsSized(w: Interval, f: nat) {
    && 0 < f < 2 * TWO_52 && w.s > 0 && w.mm > 0 && (w.mp2 ==> f == TWO_52)
    && w.r == (if w.mp2 then 4 else 2) * f * w.mm
  }

  lemma ScaledIsSized(v: Interval, w: Interval, f: nat)
    requires IsSized(v, f) && w.s > 0 && w.mm > 0 && w.mp2 == v.mp2 && w.r * v.mm == v.r * w.mm
    ensures IsSized(w, f)
  {
    var c := (if v.mp2 then 4 else 2) * f;
    MulAssoc(c, v.mm, w.mm);
    MulAssoc(c, w.mm, v.mm);
    if w.r != c * w.mm {
      MulOrder(w.r, c * w.mm, v.mm);
      MulOrder(c * w.mm, w.r, v.mm);
    }
  }

  lemma StartIsSized(f: nat, e: int)
    requires 0 < f < 2 * TWO_52
    ensures IsSized(Start(f, e), f)
  {
    if e >= 0 {
      Pow2Step(e + 2);
      Pow2Step(e + 1);
      MulAssoc(f, 2, Pow2(e));
      MulAssoc(f, 4, Pow2(e));
    }
  }

  /** A range of more than one holds an integer. */
  lemma HoldsInteger(low: int, high: int, s: int) returns (N: int)
    requires s > 0 && low + s < high
    ensures low < N * s < high
  {
    N := (high - 1) / s;
    DivisionIs(high - 1, s, N);
  }

  lemma DivisionIs(a: int, s: int, q: int)
    requires s > 0 && q == a / s
    ensures q * s <= a < q * s + s
  {
  }

  /** Once the interval reaches a tenth, 17 places are enough. */
  lemma SeventeenSuffice(w: Interval, f: nat, T: int) returns (N: int)
    requires IsSized(w, f) && ReachesTenth(w) && T == 100_000_000_000_000_000
    ensures w.Inside(N, T)
  {
    var low, high := (w.r - w.mm) * T, (w.r + w.Mp()) * T;
    IntervalIsWide(w, f, T);
    N := HoldsInteger(low, high, w.s);
  }

  lemma IntervalIsWide(w: Interval, f: nat, T: int)
    requires IsSized(w, f) && ReachesTenth(w) && T == 100_000_000_000_000_000
    ensures (w.r - w.mm) * T + w.s < (w.r + w.Mp()) * T
  {
    MulMono(w.mm, f, 2 * TWO_52 - 1);
    MulAssoc(2, f, w.mm);
    MulAssoc(4, f, w.mm);
    WideByProducts(w.r, w.mm, w.Mp(), w.s, f * w.mm, w.mp2, T);
  }

  lemma WideByProducts(r: int, mm: int, mp: int, s: int, fm: int, mp2: bool, T: int)
    requires mm > 0 && mp == (if mp2 then 2 * mm else mm) && s <= 10 * r + 10 * mp && T == 100_000_000_000_000_000
    requires if mp2 then r == 4 * fm && fm == TWO_52 * mm else r == 2 * fm && fm <= (2 * TWO_52 - 1) * mm
    ensures (r - mm) * T + s < (r + mp) * T
  {
  }

  lemma AtMostSeventeen(w: Interval, f: nat, ds: seq<nat>)
    requires IsSized(w, f) && ReachesTenth(w) && IsShortest(w, ds)
    ensures |ds| <= 17
  {
    PowAdd(10, 8, 9);
    assert Pow(10, 8) == 100_000_000 && Pow(10, 9) == 1_000_000_000;
    var N := SeventeenSuffice(w, f, Pow(10, 17));
  }

  /** `double_print` of the flonum f * 2^e: the text before the exponent, the exponent (none if zero), and the
      digits and scale they come from. */
  method DoublePrint(f: nat, e: int, est: int) returns (text: string, exponent: int, ds: seq<nat>, k: int)
    requires f > 0 && IsEstimate(Start(f, e), est)
    ensures exponent == (if -3 < k < 10 then 0 else k - 1)
    ensures var (ip, fp) := Split(ds, k - exponent);
            && AreDigits(ip, 10) && AreDigits(fp, 10) && text == Chars(ip) + "." + Chars(fp)
            && IsPrinted(Start(f, e), ip, fp, exponent, ds, k - |ds|)
    ensures IsClosestAt(Start(f, e), Undigits(ds, 10), k - |ds|)
    ensures ds != [] && (ReachesTenth(Scaled(Start(f, e), est)) ==> ds[0] > 0)
    ensures f < 2 * TWO_52 && ReachesTenth(Scaled(Start(f, e), est)) ==> |ds| <= 17 && |text| <= 21
  {
    StartIsFlonum(f, e);
    var w;
    w, k := Fixup(Start(f, e), est);
    var point;
    if -3 < k < 10 {
      point, exponent := k, 0;
    } else {
      point, exponent := 1, k - 1;
    }
    text, ds := Render(w, point);
    Prints(Start(f, e), w, k, ds, point, exponent);
    ClosestHolds(Start(f, e), w, k, Undigits(ds, 10), |ds|);
    if f < 2 * TWO_52 && ReachesTenth(Scaled(Start(f, e), est)) {
      StartIsSized(f, e);
      ScaledIsSized(Start(f, e), w, f);
      AtMostSeventeen(w, f, ds);
    }
  }
}
