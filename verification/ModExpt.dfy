/**
 Modular exponentiation with any modulus (src/bignum.c): an even modulus is split into its odd part
 and a power of two, and the two results are combined by the Chinese remainder theorem.
 */
module ModExpt {
  import opened Arith
  import opened Modular
  import opened Bits
  import opened OddExpt
  import Gcd

  // ----- the extended Euclidean algorithm -----

  /** The loop variables of `bignum_mod_inverse`; `u1` and `v1` carry their sign in `sign`. */
  datatype Euclid = Euclid(u1: int, u3: int, v1: int, v3: int, sign: int)

  /** The remainders are multiples of `x` modulo `m`, the coefficients stay within `m`, and `x` is the
      combination `a`, `b` of the two remainders. */
  ghost predicate EuclidInv(x: int, m: int, s: Euclid, a: int, b: int)
    requires m > 0
  {
    && (s.sign == 1 || s.sign == -1)
    && 0 <= s.u1 <= m && 0 <= s.v1 && 0 <= s.u3 && 0 <= s.v3 && (s.u3 > 0 || s.v1 == 0)
    && Cong(s.sign * s.u1 * x, s.u3, m)
    && Cong(-s.sign * s.v1 * x, s.v3, m)
    && s.u1 * s.v3 + s.v1 * s.u3 == m
    && x == a * s.u3 + b * s.v3
  }

  /** The new coefficient produces the new remainder. */
  lemma RemainderProducts(x: int, su: int, sv: int, v3: int, q: int)
    ensures (su - q * sv) * x == su * x + -q * (sv * x) && -q * v3 == -(v3 * q)
  {
    MulDist(x, su, q * sv);
    MulAssoc(q, sv, x);
    MulDist(sv * x, 0, q);
  }

  lemma RemainderStep(x: int, m: int, su: int, sv: int, u3: int, v3: int, q: int, t3: int)
    requires m > 0 && Cong(su * x, u3, m) && Cong(sv * x, v3, m) && u3 == v3 * q + t3
    ensures Cong((su - q * sv) * x, t3, m)
  {
    RemainderProducts(x, su, sv, v3, q);
    CongMulLeft(-q, sv * x, v3, m);
    CongAdd(su * x, u3, -q * (sv * x), -q * v3, m);
  }

  lemma InvariantStep(u1: int, v1: int, u3: int, v3: int, q: int, t3: int)
    requires u3 == v3 * q + t3
    ensures v1 * t3 + (u1 + q * v1) * v3 == u1 * v3 + v1 * u3
  {
  }

  lemma CombinationStep(a: int, b: int, u3: int, v3: int, q: int, t3: int)
    requires u3 == v3 * q + t3
    ensures a * u3 + b * v3 == (a * q + b) * v3 + a * t3
  {
  }

  ghost function NextEuclid(s: Euclid, q: int, t3: int): Euclid {
    Euclid(s.v1, s.v3, s.u1 + q * s.v1, t3, -s.sign)
  }

  lemma EuclidStep(x: int, m: int, s: Euclid, a: int, b: int, q: int, t3: int)
    requires m > 0 && EuclidInv(x, m, s, a, b) && s.v3 > 0 && 0 <= t3 && 0 <= q && s.u3 == s.v3 * q + t3
    ensures EuclidInv(x, m, NextEuclid(s, q, t3), a * q + b, a)
  {
    MulMono(s.v1, 0, q);
    RemainderStep(x, m, s.sign * s.u1, -s.sign * s.v1, s.u3, s.v3, q, t3);
    assert s.sign * s.u1 - q * (-s.sign * s.v1) == s.sign * (s.u1 + q * s.v1) by {
      MulDist(s.sign, s.u1, q * s.v1);
      MulAssoc(q, -s.sign, s.v1);
      MulAssoc(-s.sign, q, s.v1);
      assert -s.sign * (q * s.v1) == -(s.sign * (q * s.v1));
    }
    InvariantStep(s.u1, s.v1, s.u3, s.v3, q, t3);
    CombinationStep(a, b, s.u3, s.v3, q, t3);
    assert s.v1 <= m by {
      MulMono(s.u1, 0, s.v3);
      if s.u3 > 0 { MulMono(s.v1, 1, s.u3); }
    }
  }

  /** `bignum_mod_inverse`: the result times `x` is a common divisor `g` of `x` and `m`, modulo `m`. */
  method ModInverse(x: nat, m: nat) returns (r: int, ghost g: int, ghost a: int, ghost c: int)
    requires m > 0
    ensures 0 <= r <= m && g > 0 && x == a * g && m == c * g && Cong(x * r, g, m)
  {
    var u1: int, u3: int, v1: int, v3: int, sign: int := 1, x, 0, m, 1;
    a := 1;
    ghost var b := 0;
    CongIntro(0, m, m, -1);
    while v3 != 0
      invariant EuclidInv(x, m, Euclid(u1, u3, v1, v3, sign), a, b)
      invariant v3 > 0 || u3 > 0
      decreases v3
    {
      var q, t3 := u3 / v3, u3 % v3;
      QuotientSign(u3, v3);
      EuclidStep(x, m, Euclid(u1, u3, v1, v3, sign), a, b, q, t3);
      a, b := a * q + b, a;
      u1, v1, u3, v3, sign := v1, u1 + q * v1, v3, t3, -sign;
    }
    g, c := u3, v1;
    r := if sign < 0 then m - u1 else u1;
    InverseSign(x, m, sign, u1, g);
  }

  lemma QuotientSign(u: int, v: int)
    requires u >= 0 && v > 0
    ensures u / v >= 0 && 0 <= u % v < v && u == v * (u / v) + u % v
  {
  }

  lemma SignedProduct(x: int, m: int, sign: int, u1: int)
    requires sign == 1 || sign == -1
    ensures x * (if sign < 0 then m - u1 else u1) - sign * u1 * x == m * if sign < 0 then x else 0
  {
    MulDist(x, m, u1);
  }

  lemma InverseSign(x: int, m: int, sign: int, u1: int, g: int)
    requires m > 0 && (sign == 1 || sign == -1) && Cong(sign * u1 * x, g, m)
    ensures Cong(x * (if sign < 0 then m - u1 else u1), g, m)
  {
    SignedProduct(x, m, sign, u1);
    CongIntro(x * (if sign < 0 then m - u1 else u1), sign * u1 * x, m, if sign < 0 then x else 0);
  }

  /** When some inverse exists, the common divisor is one. */
  lemma DivisorIsOne(x: int, m: int, i: int, g: int, a: int, c: int)
    requires m > 0 && g > 0 && x == a * g && m == c * g && Cong(x * i, 1, m)
    ensures g == 1
  {
    var k := CongElim(x * i, 1, m);
    assert g * (a * i - c * k) == 1 by {
      MulDist(g, a * i, c * k);
      MulAssoc(g, a, i);
      MulAssoc(g, c, k);
    }
    if g > 1 {
      var d := a * i - c * k;
      if d >= 1 { MulMono(g, 1, d); } else { MulMono(g, d, 0); }
    }
  }

  // ----- powers modulo a power of two -----

  /** For odd `x`, the exponent matters only modulo 2^(p-1) when computing modulo 2^p. */
  lemma {:induction false} OddPowerIsOne(x: int, k: nat)
    requires x % 2 == 1
    ensures Cong(Pow(x, Pow2(k)), 1, Pow2(k + 1))
  {
    if k == 0 {
      assert Pow(x, Pow2(0)) == x * Pow(x, 0);
      assert Pow2(1) == 2;
    } else {
      OddPowerIsOne(x, k - 1);
      var y, h := Pow(x, Pow2(k - 1)), Pow2(k);
      Pow2Step(k);
      Pow2Step(k + 1);
      PowAdd(x, Pow2(k - 1), Pow2(k - 1));
      var j := CongElim(y, 1, h);
      SquareOfOnePlus(y, h, j, Pow2(k - 1));
    }
  }

  lemma SquareOfOnePlus(y: int, h: int, j: int, half: int)
    requires y == 1 + h * j && h == 2 * half && half > 0
    ensures Cong(y * y, 1, 2 * h)
  {
    var s := h * j;
    SquareOfMultiple(h, j, half);
    MulDist(1 + s, 1, s);
    MulDist(s, 1, s);
    assert 2 * s == (2 * h) * j by { MulAssoc(2, h, j); }
    MulDist(2 * h, j, half * (j * j));
    CongIntro(y * y, 1, 2 * h, j + half * (j * j));
  }

  lemma SquareOfMultiple(h: int, j: int, half: int)
    requires h == 2 * half
    ensures (h * j) * (h * j) == (2 * h) * (half * (j * j))
  {
  }

  lemma ExponentCut(x: int, e: nat, p: nat)
    requires p > 0 && x % 2 == 1
    ensures Cong(Pow(x, e), Pow(x, e % Pow2(p - 1)), Pow2(p))
  {
    var N, M := Pow2(p - 1), Pow2(p);
    var q, r := e / N, e % N;
    QuotientSign(e, N);
    assert N * q >= 0 by { MulMono(N, 0, q); }
    PowAdd(x, N * q, r);
    PowPow(x, N, q);
    OddPowerIsOne(x, p - 1);
    CongPow(Pow(x, N), 1, q, M);
    PowOne(q);
    CongMul(Pow(x, N * q), 1, Pow(x, r), Pow(x, r), M);
  }

  /** Reading bit `i` of the exponent extends the part of it that was applied. */
  lemma ExponentGrows(e: nat, i: nat)
    ensures e % Pow2(i + 1) == Bit(e, i) * Pow2(i) + e % Pow2(i)
  {
    ReadBit(e, i + 1);
  }

  /** The loop state of `bignum_mod_expt2` after `i` bits. */
  ghost predicate Expt2Inv(x: int, e: nat, M: int, i: nat, base: int, result: int)
    requires M > 0
  {
    && Cong(base, Pow(x, Pow2(i)), M)
    && Cong(result, Pow(x, e % Pow2(i)), M)
  }

  lemma Expt2Multiplies(x: int, e: nat, M: int, i: nat, base: int, result: int)
    requires M > 0 && Expt2Inv(x, e, M, i, base, result)
    ensures Cong(if Bit(e, i) == 1 then (result * base) % M else result, Pow(x, e % Pow2(i + 1)), M)
  {
    ExponentGrows(e, i);
    if Bit(e, i) == 1 {
      PowAdd(x, e % Pow2(i), Pow2(i));
      CongMul(result, Pow(x, e % Pow2(i)), base, Pow(x, Pow2(i)), M);
      CongMod(result * base, M);
    }
  }

  lemma Expt2Squares(x: int, M: int, i: nat, base: int)
    requires M > 0 && Cong(base, Pow(x, Pow2(i)), M)
    ensures Cong((base * base) % M, Pow(x, Pow2(i + 1)), M)
  {
    Pow2Step(i + 1);
    PowAdd(x, Pow2(i), Pow2(i));
    CongMul(base, Pow(x, Pow2(i)), base, Pow(x, Pow2(i)), M);
    CongMod(base * base, M);
  }

  function Mod2(x: nat, p: nat): (r: nat)
    ensures r < Pow2(p) && Cong(r, x, Pow2(p))
  {
    CongMod(x, Pow2(p));
    x % Pow2(p)
  }

  /** `bignum_mod_expt2`: x^e modulo 2^p, with fewer exponent bits when `x` is odd. */
  method ModExpt2(x: nat, e: nat, ebits: nat, p: nat) returns (result: nat)
    requires p > 0 && e < Pow2(ebits)
    ensures result < Pow2(p) && Cong(result, Pow(x, e), Pow2(p))
  {
    var base := Mod2(x, p);
    result := 1;
    var offset, limit := 0, ebits;
    if x % 2 == 1 {
      limit := if p - 1 < limit then p - 1 else limit;
    }
    ghost var M := Pow2(p);
    Pow2Step(p);
    assert Pow2(0) == 1 && e % 1 == 0 && Pow(x, 1) == x * Pow(x, 0);
    while offset < limit
      invariant 0 <= offset <= limit && 0 <= result < M && 0 <= base
      invariant offset < limit || offset == 0 ==> Cong(base, Pow(x, Pow2(offset)), M)
      invariant Cong(result, Pow(x, e % Pow2(offset)), M)
    {
      Expt2Multiplies(x, e, M, offset, base, result);
      if Bit(e, offset) == 1 {
        MulMono(result, 0, base);
        result := Mod2(result * base, p);
      }
      offset := offset + 1;
      if offset < limit {
        Expt2Squares(x, M, offset - 1, base);
        MulMono(base, 0, base);
        base := Mod2(base * base, p);
      }
    }
    LimitSuffices(x, e, ebits, p, limit);
  }

  lemma LimitSuffices(x: nat, e: nat, ebits: nat, p: nat, limit: nat)
    requires p > 0 && e < Pow2(ebits)
    requires limit == ebits || (x % 2 == 1 && limit == p - 1)
    ensures Cong(Pow(x, e % Pow2(limit)), Pow(x, e), Pow2(p))
  {
    if limit == ebits {
      DivModUnique(e, Pow2(ebits), 0, e);
    } else {
      ExponentCut(x, e, p);
    }
  }

  // ----- the Chinese remainder theorem -----

  /** A difference that two coprime moduli divide is divisible by their product. */
  lemma CoprimeCong(s: int, t: int, m1: int, m2: int, y: int)
    requires m1 > 0 && m2 > 0 && Cong(s, t, m1) && Cong(s, t, m2) && Cong(m2 * y, 1, m1)
    ensures m1 * m2 > 0 && Cong(s, t, m1 * m2)
  {
    MulMono(m1, 1, m2);
    var d1 := CongElim(s, t, m1);
    var d2 := CongElim(s, t, m2);
    var k := CongElim(m2 * y, 1, m1);
    var d := s - t;
    assert d == (m1 * m2) * (d1 * y - d2 * k) by {
      assert d * (m2 * y) == (m1 * m2) * (d1 * y) by {
        MulAssoc(m1 * d1, m2, y);
        MulAssoc(m1, d1, m2);
        MulAssoc(m1, m2, d1);
        MulAssoc(m1 * m2, d1, y);
      }
      assert d * (m1 * k) == (m1 * m2) * (d2 * k) by {
        MulAssoc(m2 * d2, m1, k);
        MulAssoc(m2, d2, m1);
        MulAssoc(m2, m1, d2);
        MulAssoc(m1 * m2, d2, k);
        assert m2 * m1 == m1 * m2;
      }
      MulDist(m1 * m2, d1 * y, d2 * k);
      MulDist(d, m2 * y, m1 * k);
      assert m2 * y - m1 * k == 1;
    }
    CongIntro(s, t, m1 * m2, d1 * y - d2 * k);
  }

  /** The combination has the right remainder for the first modulus; the second is symmetric. */
  lemma CombinedCong(a1: int, a2: int, m1: int, m2: int, y1: int, y2: int)
    requires m1 > 0 && Cong(m2 * y1, 1, m1)
    ensures Cong(a1 * m2 * y1 + a2 * m1 * y2, a1, m1)
  {
    MulAssoc(a1, m2, y1);
    CongMulLeft(a1, m2 * y1, 1, m1);
    assert a2 * m1 * y2 == m1 * (a2 * y2) by {
      assert a2 * m1 == m1 * a2;
      MulAssoc(m1, a2, y2);
    }
    CongIntro(a1 * m2 * y1 + a2 * m1 * y2, a1 * m2 * y1, m1, a2 * y2);
  }

  lemma ChineseRemainder(z: int, a1: int, a2: int, m1: int, m2: int, y1: int, y2: int)
    requires m1 > 0 && m2 > 0 && Cong(m2 * y1, 1, m1) && Cong(m1 * y2, 1, m2)
    requires Cong(z, a1, m1) && Cong(z, a2, m2)
    ensures m1 * m2 > 0 && Cong(a1 * m2 * y1 + a2 * m1 * y2, z, m1 * m2)
  {
    var t := a1 * m2 * y1 + a2 * m1 * y2;
    CombinedCong(a1, a2, m1, m2, y1, y2);
    CombinedCong(a2, a1, m2, m1, y2, y1);
    CoprimeCong(t, z, m1, m2, y1);
  }

  // ----- the whole exponentiation -----

  /** `Sg_BignumFirstBitSet` and the shift: the odd part of a positive number and the power of two in it. */
  method SplitModulus(m: nat) returns (m1: nat, p: nat)
    requires m > 0
    ensures m1 % 2 == 1 && m == m1 * Pow2(p) && (m % 2 == 0 ==> p > 0)
  {
    m1, p := Strip(m);
    assert p == 0 ==> m == m1 * 1;
  }

  /** Each part of an even modulus has an inverse modulo the other. */
  method PartInverses(m1: nat, p: nat) returns (y1: int, y2: int)
    requires m1 % 2 == 1
    ensures Cong(Pow2(p) * y1, 1, m1) && Cong(m1 * y2, 1, Pow2(p))
  {
    ghost var i := RadixHasInverse(p, 1, m1);
    assert Pow(Pow2(p), 1) == Pow2(p) * Pow(Pow2(p), 0);
    ghost var g1, a1, c1;
    y1, g1, a1, c1 := ModInverse(Pow2(p), m1);
    DivisorIsOne(Pow2(p), m1, i, g1, a1, c1);
    ghost var g2, a2, c2;
    y2, g2, a2, c2 := ModInverse(m1, Pow2(p));
    ghost var j := OtherInverse(Pow2(p), m1, i);
    DivisorIsOne(m1, Pow2(p), j, g2, a2, c2);
  }

  lemma OtherInverse(x: int, m: int, i: int) returns (j: int)
    requires m > 0 && x > 0 && Cong(x * i, 1, m)
    ensures Cong(m * j, 1, x)
  {
    var k := CongElim(x * i, 1, m);
    j := -k;
    assert m * j == -(m * k);
    CongIntro(m * j, 1, x, -i);
  }

  /** The even branch of `bignum_mod_expt`. */
  method EvenModExpt(wordBits: nat, len: nat, x: nat, base: nat, e: nat, m: nat) returns (r: nat)
    requires (wordBits == 32 || wordBits == 64) && len > 0 && m > 0 && m < Pow(Pow2(wordBits), len)
    requires m % 2 == 0 && e > 0 && Cong(base, x, m)
    ensures r == Pow(x, e) % m
  {
    var m1, p := SplitModulus(m);
    PartsOf(m, m1, Pow2(p));
    CongPart(base, x, m, Pow2(p), m1);
    var ebits := BitSize(e);
    ghost var z := Pow(x, e);
    var a1 := 0;
    if m1 != 1 {
      var base2 := Remainder(x, m1);
      a1 := OddModExpt(wordBits, len, base2, e, m1);
      CongPow(base2, x, e, m1);
      CongMod(Pow(base2, e), m1);
    }
    assert Cong(z, a1, m1);
    var a2 := ModExpt2(base, e, ebits, p);
    CongPow(base, x, e, Pow2(p));
    var y1, y2 := PartInverses(m1, p);
    ChineseRemainder(z, a1, a2, m1, Pow2(p), y1, y2);
    var t := a1 * Pow2(p) * y1 + a2 * m1 * y2;
    r := t % m;
  }

  function Remainder(x: nat, m: nat): (r: nat)
    requires m > 0
    ensures r < m && Cong(r, x, m)
  {
    CongMod(x, m);
    x % m
  }

  lemma PartsOf(m: nat, m1: nat, m2: nat)
    requires m == m1 * m2 && m1 > 0 && m2 > 0
    ensures m1 <= m
  {
  }

  lemma CongPart(a: int, b: int, m: int, d: int, f: int)
    requires m > 0 && d > 0 && m == f * d && Cong(a, b, m)
    ensures Cong(a, b, d)
  {
    var k := CongElim(a, b, m);
    assert m * k == d * (f * k) by {
      assert f * d == d * f;
      MulAssoc(d, f, k);
    }
    CongIntro(a, b, d, f * k);
  }

  /** `bignum_mod_expt` for a base that is not negative and an exponent that is positive. */
  method PositiveModExpt(wordBits: nat, len: nat, x: nat, e: nat, m: nat) returns (r: nat)
    requires (wordBits == 32 || wordBits == 64) && len > 0 && m > 0 && m < Pow(Pow2(wordBits), len)
    requires e > 0
    ensures r == Pow(x, e) % m
  {
    var base := if x >= m then Remainder(x, m) else x;
    if m % 2 == 1 {
      r := OddModExpt(wordBits, len, base, e, m);
      CongPow(base, x, e, m);
    } else {
      r := EvenModExpt(wordBits, len, x, base, e, m);
    }
  }

  /** `Sg_BignumModExpt` for a base that is not negative.  The shortcut for a zero base answers 1, which is
      right only for exponent zero or modulus one; otherwise the result is x^e mod m, or its inverse when
      the exponent is negative and an inverse exists. */
  method BignumModExpt(wordBits: nat, len: nat, x: nat, e: int, m: nat) returns (r: int)
    requires (wordBits == 32 || wordBits == 64) && len > 0 && m > 0 && m < Pow(Pow2(wordBits), len)
    ensures e >= 0 ==> (r == Pow(x, e) % m <==> x != 0 || e == 0 || m == 1)
    ensures e < 0 ==> 0 <= r <= m && (x == 0 ==> r == if m == 1 then 0 else 1)
    ensures e < 0 && x > 0 ==> IsInverseUpToGcd(r, Pow(x, -e), m)
    ensures e < 0 && x > 0 && m > 1 ==> forall i :: Cong(x * i, 1, m) ==> r < m && Cong(r * Pow(x, -e), 1, m)
  {
    if e == 0 || x <= 1 {
      r := ShortcutAnswer(m);
      Shortcut(x, e, m);
      return;
    }
    if e > 0 {
      r := PositiveModExpt(wordBits, len, x, e, m);
    } else {
      var n: nat := -e;
      var power := PositiveModExpt(wordBits, len, x, n, m);
      ghost var g, a, c;
      r, g, a, c := ModInverse(power, m);
      GcdOfPower(Pow(x, n), m, power, r, g, a, c);
      forall i | m > 1 && Cong(x * i, 1, m) ensures r < m && Cong(r * Pow(x, n), 1, m) {
        InverseOfPower(x, n, m, i, power, r, g, a, c);
        InverseIsBelow(r, Pow(x, n), m);
      }
    }
  }

  lemma Shortcut(x: nat, e: int, m: nat)
    requires m > 0 && (e == 0 || x <= 1)
    ensures var r := ShortcutAnswer(m);
      && (e >= 0 ==> (r == Pow(x, e) % m <==> x != 0 || e == 0 || m == 1))
      && (e < 0 && x > 0 ==> Cong(r * Pow(x, -e), 1, m) && IsInverseUpToGcd(r, Pow(x, -e), m))
  {
    if x == 1 {
      PowOne(if e >= 0 then e else -e);
      if e < 0 {
        OneIsOwnInverse(m);
      }
    }
  }

  /** Times the number, `r` is the greatest common divisor of the number and the modulus: one,
      if there is an inverse. */
  ghost predicate IsInverseUpToGcd(r: int, y: int, m: int)
    requires m > 0
  {
    exists g :: Gcd.IsGcd(g, y % m, m) && Cong(r * y, g, m)
  }

  lemma OneIsOwnInverse(m: nat)
    requires m > 0
    ensures IsInverseUpToGcd(ShortcutAnswer(m), 1, m)
  {
    if m == 1 {
      GcdOfPower(1, m, 0, 0, 1, 0, 1);
    } else {
      DivModUnique(1, m, 0, 1);
      GcdOfPower(1, m, 1, 1, 1, 1, m);
    }
  }

  lemma GcdOfPower(y: int, m: nat, power: nat, r: int, g: int, a: int, c: int)
    requires m > 0 && power == y % m && g > 0 && power == a * g && m == c * g && Cong(power * r, g, m)
    ensures IsInverseUpToGcd(r, y, m)
  {
    var k := CongElim(power * r, g, m);
    assert Gcd.Witness(g, power, m, r, -k, a, c);
    CongMod(y, m);
    CongMul(power, y, r, r, m);
    assert y * r == r * y && Cong(r * y, g, m);
  }

  lemma InverseIsBelow(r: int, y: int, m: int)
    requires m > 1 && r <= m && Cong(r * y, 1, m)
    ensures r < m
  {
    if r == m {
      CongIntro(m * y, 0, m, y);
      CongMod(0, m);
      var k := CongElim(m * y, 1, m);
      MulDist(m, y, k);
      if y - k >= 1 { MulMono(m, 1, y - k); } else { MulMono(m, y - k, 0); }
    }
  }

  /** There is one inverse below the modulus. */
  lemma InverseIsUnique(r: int, r': int, y: int, m: int)
    requires m > 0 && 0 <= r < m && 0 <= r' < m && Cong(r * y, 1, m) && Cong(r' * y, 1, m)
    ensures r == r'
  {
    calc {
      (r * y) * r';
      { MulAssoc(r, y, r'); }
      r * (r' * y);
    }
    CongMul(r * y, 1, r', r', m);
    CongMulLeft(r, r' * y, 1, m);
    CongUnique(r, r', m);
  }

  lemma InverseOfPower(x: nat, n: nat, m: nat, i: int, power: nat, r: int, g: int, a: int, c: int)
    requires m > 0 && Cong(x * i, 1, m) && power == Pow(x, n) % m
    requires g > 0 && power == a * g && m == c * g && Cong(power * r, g, m)
    ensures Cong(r * Pow(x, n), 1, m)
  {
    CongMod(Pow(x, n), m);
    PowMul(x, i, n);
    CongPow(x * i, 1, n, m);
    PowOne(n);
    CongMul(power, Pow(x, n), Pow(i, n), Pow(i, n), m);
    DivisorIsOne(power, m, Pow(i, n), g, a, c);
    CongMul(power, Pow(x, n), r, r, m);
    assert Pow(x, n) * r == r * Pow(x, n);
  }

  /** The answer of `Sg_BignumModExpt` for exponent zero and for bases zero and one. */
  function ShortcutAnswer(m: nat): int {
    if m == 1 then 0 else 1
  }

  /** A zero base is answered wrongly for every positive exponent and every modulus above one. */
  method ZeroBaseIsWrong(wordBits: nat, len: nat, e: nat, m: nat) returns (r: int)
    requires (wordBits == 32 || wordBits == 64) && len > 0 && 1 < m < Pow(Pow2(wordBits), len) && e > 0
    ensures Pow(0, e) % m == 0 && r != 0
  {
    assert Pow(0, e) == 0 * Pow(0, e - 1);
    DivModUnique(0, m, 0, 0);
    r := BignumModExpt(wordBits, len, 0, e, m);
  }

  /** For one, 0^1 mod 2^64, whose modulus does not fit a fixnum. */
  method ZeroBaseExample() returns (r: int)
    ensures Pow(0, 1) % Pow2(64) == 0 && r != 0
  {
    var m := Pow2(64);
    assert m == 2 * Pow2(63);
    MulMono(m, 2, m);
    assert Pow(m, 2) == m * Pow(m, 1) == m * m;
    r := ZeroBaseIsWrong(64, 2, 1, m);
  }
}
