/** Flonums that are printed and read (src/number.c, `double_print` and `read_real`). */
module FlonumText {
  import opened Arith
  import opened Modular
  import opened Radix
  import opened Flonum
  import opened FlonumGrid
  import opened FlonumReader
  import opened FlonumPower

  // ----- the text -----

  lemma {:induction false} UndigitsJoin(a: seq<nat>, b: seq<nat>)
    ensures Undigits(a + b, 10) == Undigits(a, 10) * Pow(10, |b|) + Undigits(b, 10)
    decreases |b|
  {
    if b == [] {
      assert a + b == a;
    } else {
      var b' := b[..|b| - 1];
      UndigitsJoin(a, b');
      assert (a + b)[..|a + b| - 1] == a + b';
      MulAssoc(Undigits(a, 10), Pow(10, |b'|), 10);
    }
  }

  /** Digits are read up to a character that is none. */
  lemma {:induction false} ScanOfChars(ds: seq<nat>, rest: string, digread: bool)
    requires AreDigits(ds, 10) && (rest == "" || rest[0] == '.')
    ensures Scan(Chars(ds) + rest, 10, digread, false) == ds
    decreases |ds|
  {
    var text := Chars(ds) + rest;
    if ds == [] {
      assert text == rest;
    } else {
      assert text[0] == '0' + ds[0] as char && text[1..] == Chars(ds[1..]) + rest;
      ScanOfChars(ds[1..], rest, true);
    }
  }

  /** `read_real` up to the exponent: the part before the point, then the part behind it onto the first. */
  method ReadText(text: string, longMax: nat, limit: nat, ghost ip: seq<nat>, ghost fp: seq<nat>)
    returns (fraction: nat, fracdigs: nat)
    requires AreDigits(ip, 10) && AreDigits(fp, 10) && text == Chars(ip) + "." + Chars(fp)
    requires 0x7FFF_FFFF <= longMax && IsRoundedLimit(limit, 10, longMax)
    ensures fraction == Undigits(ip + fp, 10) && fracdigs == |fp|
  {
    FrontsOfText(text, ip, fp);
    UndigitsJoin(ip, fp);
    var l := InitLimits(10, longMax, limit);
    var value, pos := ReadFront(text, 10, l, WordMax(longMax), false, 0, false);
    var intpart: nat := value;
    value, fracdigs := ReadFront(text[pos + 1..], 10, l, WordMax(longMax), true, intpart, false);
    fraction := value;
  }

  lemma FrontsOfText(text: string, ip: seq<nat>, fp: seq<nat>)
    requires AreDigits(ip, 10) && AreDigits(fp, 10) && text == Chars(ip) + "." + Chars(fp)
    ensures Front(text, 10, false, false) == ip && |ip| < |text| && Front(text[|ip| + 1..], 10, true, false) == fp
  {
    var rest := text[|ip| + 1..];
    assert text == Chars(ip) + ("." + Chars(fp));
    ScanOfChars(ip, "." + Chars(fp), false);
    FrontIsScan(text, 10, false);
    assert rest == Chars(fp) + "" && rest[0..] == rest;
    ScanOfChars(fp, "", true);
  }

  // ----- what comes back -----

  /** When a number that is no zero and no infinity is read right: `algorithmR` was given a positive flonum to start
      from, or one operation was enough, as it is up to the 22nd power of ten and where the 23rd leaves room. */
  predicate IsReadable(F: nat, q: int, start: Double) {
    if IsInexact(F, q) then IsPositive(start) else -22 <= q <= 22 || HasRoom(F, q)
  }

  lemma ReadableIsRight(F: nat, q: int, start: Double, z: Double, f: nat, e: int)
    requires IsReadRight(F, q, Finite(f, e)) && f > 0
    requires start.Finite? ==> IsDouble(start.m, start.k)
    requires IsInexact(F, q) && IsPositive(start) ==> IsReadRight(F, q, z)
    requires !IsInexact(F, q) || !IsPositive(start) ==> z == start
    requires !IsInexact(F, q) ==> (IsReadRight(F, q, z) <==> -22 <= q <= 22 || HasRoom(F, q))
    ensures z == Finite(f, e) <==> IsReadable(F, q, start)
  {
    if IsReadRight(F, q, z) {
      RightIsUnique(Top(F, q), Bottom(q), z, Finite(f, e));
    }
  }

  /** What is printed for a flonum is nearest to it. */
  lemma PrintedIsRight(f: nat, e: int, F: nat, q: int)
    requires IsDouble(f, e) && f > 0 && !IsException(f, e) && Holds(Start(f, e), F, q)
    ensures IsReadRight(F, q, Finite(f, e))
  {
    if q >= 0 {
      InsideIsNearest(f, e, F * Pow(10, q), 1);
    } else {
      PowPositive(10, -q);
      InsideIsNearest(f, e, F, Pow(10, -q));
    }
  }

  // ----- how great the number is -----

  /** The number that a flonum is nearest to lies between the powers of two around the flonum. */
  lemma RightIsBetween(N: int, T: int, f: nat, e: int)
    requires T > 0 && IsDouble(f, e) && LEAST_EXPONENT < e < GREATEST_EXPONENT && IsRight(N, T, Finite(f, e))
    ensures T * Steps(e + 51) < N * Steps(0) < T * Steps(e + 53)
  {
    var u := Steps(e);
    TwoTo52();
    Pow2Add(52, e - LEAST_EXPONENT);
    Pow2Step(e + 52 - LEAST_EXPONENT);
    Pow2Step(e + 53 - LEAST_EXPONENT);
    MulMono(u, TWO_52, f);
    MulOrder(f, TWO_53, u);
    if N * Steps(0) <= T * Steps(e + 51) {
      RoundingStays(N, T, Finite(f, e), e + 51);
    }
    if T * Steps(e + 53) <= N * Steps(0) {
      RoundingReaches(N, T, Finite(f, e), e + 53);
    }
  }

  lemma BelowPower(N: int, T: int, b: nat)
    requires N * Steps(0) < T * Steps(b)
    ensures N < T * Pow2(b)
  {
    Pow2Add(b, -LEAST_EXPONENT);
    MulAssoc(T, Pow2(b), Steps(0));
    MulOrder(N, T * Pow2(b), Steps(0));
  }

  lemma AbovePower(N: int, T: int, a: int)
    requires 0 <= a <= -LEAST_EXPONENT && T * Steps(-a) < N * Steps(0)
    ensures T < N * Pow2(a)
  {
    Pow2Add(a, -a - LEAST_EXPONENT);
    MulAssoc(N, Pow2(a), Steps(-a));
    MulOrder(T, N * Pow2(a), Steps(-a));
  }

  /** Unless they are very great or very small, flonums are nearest to ordinary numbers. */
  lemma NearestAreOrdinary(f: nat, e: int, F: nat, q: int)
    requires IsDouble(f, e) && -1000 <= e <= 900 && IsReadRight(F, q, Finite(f, e)) && F < Pow2(80)
    ensures IsOrdinary(F, q)
  {
    var N, T := Top(F, q), Bottom(q);
    RightIsBetween(N, T, f, e);
    Pow2Mono(-949 - LEAST_EXPONENT, e + 51 - LEAST_EXPONENT);
    MulMono(T, Steps(-949), Steps(e + 51));
    AbovePower(N, T, 949);
    Pow2Mono(e + 53 - LEAST_EXPONENT, 980 - LEAST_EXPONENT);
    MulMono(T, Steps(e + 53), Steps(980));
    BelowPower(N, T, 980);
    Pow2Mono(949, 1030);
    MulMono(N, Pow2(949), Pow2(1030));
    Pow2Mono(80, 1000);
    ExponentIsSmall(F, q, N, T);
  }

  lemma ExponentIsSmall(F: nat, q: int, N: nat, T: nat)
    requires N == Top(F, q) && T == Bottom(q) && F < Pow2(80) && T < N * Pow2(949) && N < T * Pow2(980)
    ensures F > 0 && -330 <= q <= 330
  {
    if q > 330 && F > 0 {
      IsTooGreat(F, q);
    } else if q < -330 {
      IsTooSmall(F, -q);
    }
  }

  lemma IsTooGreat(F: nat, n: nat)
    requires n > 330 && F > 0
    ensures Pow2(980) <= F * Pow(10, n)
  {
    GreatPower(n);
    MulMono(Pow(10, n), 1, F);
    Pow2Mono(980, 1084);
  }

  lemma IsTooSmall(F: nat, n: nat)
    requires n > 330 && F < Pow2(80)
    ensures F * Pow2(949) <= Pow(10, n)
  {
    GreatPower(n);
    MulOrder(F, Pow2(80), Pow2(949));
    Pow2Add(80, 949);
    Pow2Mono(1029, 1084);
  }

  lemma GreatPower(n: nat)
    requires n > 330
    ensures Pow2(1084) <= Pow(10, n)
  {
    PowerAbove(331);
    PowMono(10, 331, n);
  }

  lemma {:induction false} UndigitsBelow(ds: seq<nat>)
    requires AreDigits(ds, 10)
    ensures Undigits(ds, 10) < Pow(10, |ds|)
    decreases |ds|
  {
    if ds != [] {
      UndigitsBelow(ds[..|ds| - 1]);
    }
  }

  /** A text of 21 characters has 20 digits. */
  lemma TextIsShort(text: string, ip: seq<nat>, fp: seq<nat>)
    requires AreDigits(ip, 10) && AreDigits(fp, 10) && text == Chars(ip) + "." + Chars(fp) && |text| <= 21
    ensures Undigits(ip + fp, 10) < Pow2(80)
  {
    UndigitsBelow(ip + fp);
    PowMono(10, |ip + fp|, 20);
    PowerBelow16(20);
  }

  // ----- printing and reading -----

  /** A flonum is printed and its text is read: the flonum comes back exactly when the text is readable.  Unless it is
      very great or very small, that is so for all but the numbers which one operation with 1.0e23 misses. */
  method PrintAndRead(f: nat, e: int, est: int, convert: nat -> Double, times: (Double, nat) -> Double,
      over: (Double, nat) -> Double, longMax: nat, limit: nat)
    returns (text: string, exponent: int, F: nat, q: int, start: Double, z: Double)
    requires IsDouble(f, e) && f > 0 && IsEstimate(Start(f, e), est)
    requires IsConversion(convert) && IsTimes(times) && IsOver(over)
    requires 0x7FFF_FFFF <= longMax && IsRoundedLimit(limit, 10, longMax)
    ensures !IsException(f, e) ==>
        IsReadRight(F, q, Finite(f, e)) && (z == Finite(f, e) <==> IsReadable(F, q, start))
    ensures ReachesTenth(Scaled(Start(f, e), est)) && -1000 <= e <= 900 ==>
        (z == Finite(f, e) <==> IsInexact(F, q) || -22 <= q <= 22 || HasRoom(F, q))
  {
    var ds, k;
    text, exponent, ds, k := DoublePrint(f, e, est);
    ghost var (ip, fp) := Split(ds, k - exponent);
    var fracdigs;
    F, fracdigs := ReadText(text, longMax, limit, ip, fp);
    q := exponent - fracdigs;
    start, z := ReadFlonum(F, q, convert, times, over);
    if !IsException(f, e) {
      PrintedIsRight(f, e, F, q);
      ReadableIsRight(F, q, start, z, f, e);
      if ReachesTenth(Scaled(Start(f, e), est)) && -1000 <= e <= 900 {
        TextIsShort(text, ip, fp);
        NearestAreOrdinary(f, e, F, q);
      }
    }
  }
}
