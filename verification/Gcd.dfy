/** Greatest common divisors: Algorithm B of Knuth section 4.5.2, as in src/bignum.c. */
module Gcd {
  import opened Arith
  import opened Modular
  import opened Bits

  ghost predicate Witness(g: int, x: int, y: int, a: int, b: int, c: int, d: int) {
    g == a * x + b * y && x == c * g && y == d * g
  }

  /** `g` divides both numbers and is a combination of them. */
  ghost predicate IsGcd(g: int, x: int, y: int) {
    g > 0 && exists a, b, c, d :: Witness(g, x, y, a, b, c, d)
  }

  ghost predicate Divides(p: int, x: int) {
    exists k :: IsMultiple(x, p, k)
  }

  ghost predicate IsMultiple(x: int, p: int, k: int) {
    x == p * k
  }

  /** It is the greatest: the common divisors of two numbers are the divisors of their gcd. */
  lemma DivisorsOfGcd(g: int, x: int, y: int, p: int)
    requires IsGcd(g, x, y)
    ensures Divides(p, g) <==> Divides(p, x) && Divides(p, y)
  {
    var a, b, c, d :| Witness(g, x, y, a, b, c, d);
    if Divides(p, g) {
      var k :| IsMultiple(g, p, k);
      MulAssoc(p, k, c);
      MulAssoc(p, k, d);
      assert IsMultiple(x, p, k * c) && IsMultiple(y, p, k * d);
    }
    if Divides(p, x) && Divides(p, y) {
      var i, j :| IsMultiple(x, p, i) && IsMultiple(y, p, j);
      assert g == p * (a * i + b * j) by {
        MulDist(p, a * i, b * j);
        MulAssoc(a, p, i);
        MulAssoc(p, a, i);
        MulAssoc(b, p, j);
        MulAssoc(p, b, j);
      }
      assert IsMultiple(g, p, a * i + b * j);
    }
  }

  /** Two gcds of the same numbers are equal. */
  lemma GcdIsUnique(g: int, h: int, x: int, y: int)
    requires IsGcd(g, x, y) && IsGcd(h, x, y)
    ensures g == h
  {
    assert Divides(g, g) by { assert IsMultiple(g, g, 1); }
    assert Divides(h, h) by { assert IsMultiple(h, h, 1); }
    DivisorsOfGcd(g, x, y, g);
    DivisorsOfGcd(g, x, y, h);
    DivisorsOfGcd(h, x, y, g);
    DivisorsOfGcd(h, x, y, h);
    DividesIsLess(g, h);
    DividesIsLess(h, g);
  }

  lemma DividesIsLess(p: int, x: int)
    requires Divides(p, x) && p > 0 && x > 0
    ensures p <= x
  {
  }

  lemma GcdOfEqual(x: int)
    requires x > 0
    ensures IsGcd(x, x, x) && IsGcd(x, x, 0)
  {
    assert Witness(x, x, x, 1, 0, 1, 1);
    assert Witness(x, x, 0, 1, 0, 1, 0);
  }

  lemma GcdSwaps(g: int, x: int, y: int)
    requires IsGcd(g, x, y)
    ensures IsGcd(g, y, x)
  {
    var a, b, c, d :| Witness(g, x, y, a, b, c, d);
    assert Witness(g, y, x, b, a, d, c);
  }

  /** Adding a multiple of one number to the other. */
  lemma GcdAdds(g: int, x: int, y: int, q: int)
    requires IsGcd(g, x, y)
    ensures IsGcd(g, x + q * y, y)
  {
    var a, b, c, d :| Witness(g, x, y, a, b, c, d);
    assert a * (x + q * y) + (b - a * q) * y == a * x + b * y by {
      MulDist(a, x, q * y);
      MulDist(y, b, a * q);
      MulAssoc(a, q, y);
    }
    assert x + q * y == (c + q * d) * g by {
      MulDist(g, c, q * d);
      MulAssoc(q, d, g);
    }
    assert Witness(g, x + q * y, y, a, b - a * q, c + q * d, d);
  }

  /** Doubling one number next to an odd one. */
  lemma GcdDoubles(g: int, x: int, y: int)
    requires IsGcd(g, x, y) && x % 2 == 1
    ensures IsGcd(g, x, 2 * y)
  {
    var a, b, c, d :| Witness(g, x, y, a, b, c, d);
    var h := x / 2;
    assert x == 2 * h + 1;
    assert (a + b * y) * x + (-b * h) * (2 * y) == a * x + b * y by {
      MulDist(x, a, b * y);
      assert (b * y) * (2 * h + 1) == 2 * ((b * y) * h) + b * y
          by { MulDist(b * y, 2 * h, 1); MulAssoc(b * y, 2, h); MulAssoc(2, b * y, h); }
      assert (-b * h) * (2 * y) == -(2 * ((b * y) * h)) by {
        MulAssoc(-b * h, 2, y);
        MulAssoc(b, y, h);
        MulAssoc(b, h, y);
        assert y * h == h * y;
        assert (-b) * h == -(b * h);
        assert (-(b * h) * 2) * y == -(2 * ((b * h) * y)) by { MulAssoc(2, b * h, y); }
      }
    }
    assert 2 * y == (2 * d) * g by { MulAssoc(2, d, g); }
    assert Witness(g, x, 2 * y, a + b * y, -b * h, c, 2 * d);
  }

  lemma {:induction false} GcdShifts(g: int, x: int, y: int, z: nat)
    requires IsGcd(g, x, y) && x % 2 == 1
    ensures IsGcd(g, x, y * Pow2(z))
    decreases z
  {
    if z == 0 {
      assert y * Pow2(0) == y;
    } else {
      GcdShifts(g, x, y, z - 1);
      Pow2Step(z);
      MulAssoc(2, y, Pow2(z - 1));
      MulAssoc(y, 2, Pow2(z - 1));
      GcdDoubles(g, x, y * Pow2(z - 1));
    }
  }

  lemma GcdScales(g: int, x: int, y: int, s: int)
    requires IsGcd(g, x, y) && s > 0
    ensures IsGcd(g * s, x * s, y * s)
  {
    var a, b, c, d :| Witness(g, x, y, a, b, c, d);
    MulMono(s, 1, g);
    assert a * (x * s) + b * (y * s) == g * s by {
      MulAssoc(a, x, s);
      MulAssoc(b, y, s);
      MulDist(s, a * x, b * y);
    }
    MulAssoc(c, g, s);
    MulAssoc(d, g, s);
    assert Witness(g * s, x * s, y * s, a, b, c, d);
  }

  /** Every gcd of `u` and `v` is one of `x` and `y`. */
  ghost predicate Reduces(u: int, v: int, x: int, y: int) {
    forall g {:trigger IsGcd(g, u, v)} :: IsGcd(g, u, v) ==> IsGcd(g, x, y)
  }

  lemma ReducesRemainder(x: nat, y: nat, r: nat)
    requires y > 0 && r == x % y
    ensures Reduces(y, r, x, y)
  {
    assert x == r + x / y * y by { assert x / y * y == y * (x / y); }
    forall g | IsGcd(g, y, r) ensures IsGcd(g, x, y) {
      GcdSwaps(g, y, r);
      GcdAdds(g, r, y, x / y);
    }
  }

  /** `gcd_fixfix`: Euclid's algorithm on single words. */
  method GcdFixfix(x0: nat, y0: nat) returns (x: nat)
    requires x0 > 0
    ensures IsGcd(x, x0, y0)
  {
    x := x0;
    var y := y0;
    while y > 0
      invariant x > 0 && y >= 0 && Reduces(x, y, x0, y0)
      decreases y
    {
      var r := x % y;
      ReducesRemainder(x, y, r);
      x, y := y, r;
    }
    GcdOfEqual(x);
  }

  /** One of the numbers loses its trailing zeros while the other is odd. */
  lemma ReducesShift(u: nat, v: nat, odd: nat, z: nat)
    requires u % 2 == 1 && v == odd * Pow2(z)
    ensures Reduces(u, odd, u, v) && Reduces(odd, u, v, u)
  {
    forall g | IsGcd(g, u, odd) ensures IsGcd(g, u, v) {
      GcdShifts(g, u, odd, z);
    }
    forall g | IsGcd(g, odd, u) ensures IsGcd(g, v, u) {
      GcdSwaps(g, odd, u);
      GcdShifts(g, u, odd, z);
      GcdSwaps(g, u, v);
    }
  }

  lemma ReducesDifference(u: nat, v: nat)
    requires u > v
    ensures Reduces(u - v, v, u, v) && Reduces(v, u - v, v, u)
  {
    forall g | IsGcd(g, u - v, v) ensures IsGcd(g, u, v) {
      GcdAdds(g, u - v, v, 1);
    }
    forall g | IsGcd(g, v, u - v) ensures IsGcd(g, v, u) {
      GcdSwaps(g, v, u - v);
      GcdAdds(g, u - v, v, 1);
      GcdSwaps(g, u, v);
    }
  }

  /** Step B1: the power of two common to both numbers is taken out. */
  method TakeOutTwos(x: nat, y: nat) returns (u: nat, v: nat, k: nat, uOdd: bool)
    requires x > 0 && y > 0
    ensures u > 0 && v > 0 && x == u * Pow2(k) && y == v * Pow2(k)
    ensures if uOdd then u % 2 == 1 else v % 2 == 1
  {
    var o1, s1 := Strip(x);
    var o2, s2 := Strip(y);
    k := if s1 <= s2 then s1 else s2;
    uOdd := k == s1;
    DropTwos(x, o1, s1, k);
    DropTwos(y, o2, s2, k);
    u, v := x / Pow2(k), y / Pow2(k);
  }

  /** What is left of an odd multiple of 2^s after division by 2^k. */
  lemma DropTwos(x: nat, odd: nat, s: nat, k: nat)
    requires x == odd * Pow2(s) && odd > 0 && k <= s
    ensures x / Pow2(k) > 0 && x == x / Pow2(k) * Pow2(k) && (k == s ==> x / Pow2(k) == odd)
  {
    var q := odd * Pow2(s - k);
    Pow2Add(s - k, k);
    MulAssoc(odd, Pow2(s - k), Pow2(k));
    MulMono(odd, 1, Pow2(s - k));
    DivModUnique(x, Pow2(k), q, 0);
  }

  /** `binary_gcd`, with words in base `B`: shifts and differences until both numbers fit a word. */
  method BinaryGcd(B: nat, x: int, y: int) returns (r: nat)
    requires x != 0 && y != 0
    ensures IsGcd(r, if x < 0 then -x else x, if y < 0 then -y else y)
  {
    var ax: nat, ay: nat := if x < 0 then -x else x, if y < 0 then -y else y;
    var u0, v0, k, uOdd := TakeOutTwos(ax, ay);
    var u, v := u0, v0;
    var tIsU := !uOdd;
    while true
      invariant u > 0 && v > 0 && (if tIsU then v % 2 == 1 else u % 2 == 1)
      invariant Reduces(u, v, u0, v0)
      decreases u + v
    {
      if tIsU {
        var t, lb := Strip(u);
        ReducesShift(v, u, t, lb);
        MulMono(t, 1, Pow2(lb));
        u := t;
      } else {
        var t, lb := Strip(v);
        ReducesShift(u, v, t, lb);
        MulMono(t, 1, Pow2(lb));
        v := t;
      }
      if u < B && v < B {
        if u >= v {
          r := GcdFixfix(u, v);
        } else {
          r := GcdFixfix(v, u);
          GcdSwaps(r, v, u);
        }
        break;
      }
      if u == v {
        r := u;
        GcdOfEqual(u);
        break;
      }
      if u > v {
        ReducesDifference(u, v);
        u := u - v;
        tIsU := true;
      } else {
        ReducesDifference(v, u);
        v := v - u;
        tIsU := false;
      }
    }
    GcdScales(r, u0, v0, Pow2(k));
    r := r * Pow2(k);
  }
}
