/** Congruences and powers. */
module Modular {
  import opened Arith

  predicate Cong(a: int, b: int, m: int)
    requires m > 0
  {
    a % m == b % m
  }

  lemma CongIntro(a: int, b: int, m: int, k: int)
    requires m > 0 && a == b + m * k
    ensures Cong(a, b, m)
  {
    var q, r := b / m, b % m;
    MulDist(m, q, k);
    DivModUnique(a, m, q + k, r);
  }

  lemma CongElim(a: int, b: int, m: int) returns (k: int)
    requires m > 0 && Cong(a, b, m)
    ensures a == b + m * k
  {
    k := a / m - b / m;
    MulDist(m, a / m, b / m);
  }

  lemma CongMod(a: int, m: int)
    requires m > 0
    ensures Cong(a % m, a, m)
  {
  }

  lemma CongUnique(a: int, b: int, m: int)
    requires m > 0 && Cong(a, b, m) && 0 <= a < m && 0 <= b < m
    ensures a == b
  {
  }

  lemma CongAdd(a: int, b: int, c: int, d: int, m: int)
    requires m > 0 && Cong(a, b, m) && Cong(c, d, m)
    ensures Cong(a + c, b + d, m)
  {
    var j := CongElim(a, b, m);
    var k := CongElim(c, d, m);
    MulDist(m, j, k);
    CongIntro(a + c, b + d, m, j + k);
  }

  lemma CongMulLeft(x: int, a: int, b: int, m: int)
    requires m > 0 && Cong(a, b, m)
    ensures Cong(x * a, x * b, m)
  {
    var k := CongElim(a, b, m);
    MulDist(x, b, m * k);
    assert x * (m * k) == m * (x * k) by {
      MulAssoc(x, m, k);
      MulAssoc(m, x, k);
    }
    CongIntro(x * a, x * b, m, x * k);
  }

  lemma CongMul(a: int, b: int, c: int, d: int, m: int)
    requires m > 0 && Cong(a, b, m) && Cong(c, d, m)
    ensures Cong(a * c, b * d, m)
  {
    CongMulLeft(a, c, d, m);
    CongMulLeft(d, a, b, m);
    assert a * d == d * a && b * d == d * b;
  }

  /** A factor that has an inverse can be cancelled. */
  lemma CongCancel(a: int, b: int, x: int, inverse: int, m: int)
    requires m > 0 && Cong(a * x, b * x, m) && Cong(x * inverse, 1, m)
    ensures Cong(a, b, m)
  {
    CongMul(a * x, b * x, inverse, inverse, m);
    CongMulLeft(a, x * inverse, 1, m);
    CongMulLeft(b, x * inverse, 1, m);
    MulAssoc(a, x, inverse);
    MulAssoc(b, x, inverse);
  }

  function Pow(x: int, n: nat): int
    decreases n, x
  {
    if n == 0 then 1 else x * Pow(x, n - 1)
  }

  lemma {:induction false} PowPositive(x: int, n: nat)
    requires x > 0
    ensures Pow(x, n) > 0
  {
    if n > 0 {
      PowPositive(x, n - 1);
      MulMono(x, 1, Pow(x, n - 1));
    }
  }

  lemma {:induction false} PowAdd(x: int, m: nat, n: nat)
    ensures Pow(x, m + n) == Pow(x, m) * Pow(x, n)
    decreases m
  {
    if m > 0 {
      PowAdd(x, m - 1, n);
      MulAssoc(x, Pow(x, m - 1), Pow(x, n));
    }
  }

  lemma {:induction false} PowMul(x: int, y: int, n: nat)
    ensures Pow(x * y, n) == Pow(x, n) * Pow(y, n)
    decreases n
  {
    if n > 0 {
      PowMul(x, y, n - 1);
      var p, q := Pow(x, n - 1), Pow(y, n - 1);
      assert (x * y) * (p * q) == (x * p) * (y * q) by {
        MulAssoc(x * y, p, q);
        MulAssoc(x * p, y, q);
        MulAssoc(x, y, p);
        MulAssoc(x, p, y);
      }
    }
  }

  lemma {:induction false} PowPow(x: int, m: nat, n: nat)
    ensures Pow(Pow(x, m), n) == Pow(x, m * n)
    decreases n
  {
    if n > 0 {
      PowPow(x, m, n - 1);
      MulDist(m, n - 1, 1);
      PowAdd(x, m, m * (n - 1));
    }
  }

  lemma {:induction false} PowOne(n: nat)
    ensures Pow(1, n) == 1
  {
    if n > 0 { PowOne(n - 1); }
  }

  lemma {:induction false} CongPow(a: int, b: int, n: nat, m: int)
    requires m > 0 && Cong(a, b, m)
    ensures Cong(Pow(a, n), Pow(b, n), m)
    decreases n
  {
    if n > 0 {
      CongPow(a, b, n - 1, m);
      CongMul(a, b, Pow(a, n - 1), Pow(b, n - 1), m);
    }
  }

  function Pow2(n: nat): (r: nat)
    ensures r > 0
  {
    PowPositive(2, n);
    Pow(2, n)
  }

  lemma Pow2Step(n: nat)
    requires n > 0
    ensures Pow2(n) == 2 * Pow2(n - 1)
  {
  }

  lemma Pow2Add(m: nat, n: nat)
    ensures Pow2(m + n) == Pow2(m) * Pow2(n)
  {
    PowAdd(2, m, n);
  }

  lemma {:induction false} Pow2Mono(m: nat, n: nat)
    requires m <= n
    ensures Pow2(m) <= Pow2(n)
    decreases n
  {
    if m < n {
      Pow2Mono(m, n - 1);
    }
  }
}
