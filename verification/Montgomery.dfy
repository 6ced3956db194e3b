/**
 Modular exponentiation with an odd modulus: Montgomery reduction (src/bignum.inc) and the
 sliding-window loop over it (src/bignum.c).  Word arrays are modelled by the numbers they
 hold, in base `B`; the number of words and every overflow out of them stay explicit.
 */
module Montgomery {
  import opened Arith
  import opened Modular

  // ----- the word inverse -----

  function NewtonStep(val: nat, t: nat, B: nat): (r: nat)
    requires B > 0
  {
    (t * (2 - val * t)) % B
  }

  /** One Newton step doubles the number of low bits to which `t` inverts `val`. */
  lemma NewtonDoubles(val: nat, t: nat, k: nat, w: nat)
    requires Cong(val * t, 1, Pow2(k)) && k <= w
    ensures var k' := if 2 * k <= w then 2 * k else w; Cong(val * NewtonStep(val, t, Pow2(w)), 1, Pow2(k'))
  {
    var k' := if 2 * k <= w then 2 * k else w;
    var B, D := Pow2(w), Pow2(k');
    var u := val * t;
    var j := CongElim(u, 1, Pow2(k));
    // val * t * (2 - val * t) == 1 - (1 - u)^2
    var s := t * (2 - val * t);
    assert val * s == u * (2 - u) by { MulAssoc(val, t, 2 - u); }
    assert u * (2 - u) == 1 - (u - 1) * (u - 1);
    var p := Pow2(k);
    assert (p * j) * (p * j) == (p * p) * (j * j) by {
      MulAssoc(p * j, p, j);
      MulAssoc(p, j, p);
      MulAssoc(p, p, j);
      MulAssoc(p * p, j, j);
    }
    Pow2Add(k, k);
    Pow2Add(k', 2 * k - k');
    assert (p * p) * (j * j) == D * (Pow2(2 * k - k') * (j * j)) by { MulAssoc(D, Pow2(2 * k - k'), j * j); }
    CongIntro(val * s, 1, D, -(Pow2(2 * k - k') * (j * j)));
    // the wrap-around to a word does not disturb it
    CongMod(s, B);
    var i := CongElim(s % B, s, B);
    Pow2Add(k', w - k');
    assert val * (s + B * i) == val * s + D * (val * (Pow2(w - k') * i)) by {
      MulDist(val, s, B * i);
      MulAssoc(D, Pow2(w - k'), i);
      MulAssoc(val, D, Pow2(w - k') * i);
      MulAssoc(D, val, Pow2(w - k') * i);
    }
    CongIntro(val * (s % B), val * s, D, val * (Pow2(w - k') * i));
  }

  lemma OddSquare(v: nat)
    requires v % 2 == 1
    ensures Cong(v * v, 1, 8)
  {
    var h := v / 2;
    assert v * v == 4 * (h * (h + 1)) + 1;
    assert (h * (h + 1)) % 2 == 0 by {
      var g := h / 2;
      if h % 2 == 0 {
        assert h * (h + 1) == 2 * (g * (h + 1)) by { MulAssoc(2, g, h + 1); }
      } else {
        assert h * (h + 1) == 2 * (h * (g + 1))
            by { assert h + 1 == 2 * (g + 1); MulAssoc(h, 2, g + 1); MulAssoc(2, h, g + 1); }
      }
    }
    CongIntro(v * v, 1, 8, h * (h + 1) / 2);
  }

  /** `inverse_mod_long`, for 32-bit and 64-bit words. */
  method InverseModLong(val: nat, w: nat) returns (t: nat)
    requires val % 2 == 1 && val < Pow2(w) && (w == 32 || w == 64)
    ensures t < Pow2(w) && Cong(val * t, 1, Pow2(w))
  {
    var B := Pow2(w);
    t := val;
    OddSquare(val);
    assert Pow2(3) == 8;
    NewtonDoubles(val, t, 3, w);
    t := NewtonStep(val, t, B);
    NewtonDoubles(val, t, 6, w);
    t := NewtonStep(val, t, B);
    NewtonDoubles(val, t, 12, w);
    t := NewtonStep(val, t, B);
    NewtonDoubles(val, t, 24, w);
    t := NewtonStep(val, t, B);
    if w == 64 {
      NewtonDoubles(val, t, 48, w);
      t := NewtonStep(val, t, B);
      NewtonDoubles(val, t, 64, w);
      t := NewtonStep(val, t, B);
      NewtonDoubles(val, t, 64, w);
      t := NewtonStep(val, t, B);
      NewtonDoubles(val, t, 64, w);
      t := NewtonStep(val, t, B);
    }
  }

  // ----- Montgomery reduction -----

  /** Base `B`, number of words, modulus and the word that makes each step divisible by `B`. */
  datatype Params = Params(B: nat, len: nat, m: nat, inv: nat) {
    ghost function R(): (r: nat)
      requires B > 0
      ensures r > 0
    {
      PowPositive(B, len);
      Pow(B, len)
    }

    ghost predicate Valid() {
      B > 1 && len > 0 && 0 < m < R() && Cong(inv * m, -1, B)
    }
  }

  /** Adding `k * m` clears the low word. */
  lemma LowWordCleared(n: nat, m: nat, inv: nat, B: nat)
    requires B > 1 && Cong(inv * m, -1, B)
    ensures var k := (inv * (n % B)) % B; Cong(n + k * m, 0, B)
  {
    var d := n % B;
    var k := (inv * d) % B;
    CongMod(inv * d, B);
    CongMulLeft(m, k, inv * d, B);
    CongMulLeft(d, inv * m, -1, B);
    assert m * (inv * d) == d * (inv * m) by {
      MulAssoc(m, inv, d);
      assert m * inv == inv * m;
    }
    CongMod(n, B);
    assert Cong(k * m, -d, B);
    CongAdd(n, d, k * m, -d, B);
  }

  /** The words after one step: what overflowed out of the top, and the rest without its cleared low word. */
  lemma ReduceStep(B: nat, low: nat, top: nat, n: nat, c: nat, km: nat, over: nat, rem: nat)
    requires B > 1 && low > 0 && top == B * low && rem < top && n + km == top * over + rem
    requires Cong(n + km, 0, B)
    ensures rem / B < low && B * (rem / B + (c + over) * low) == n + c * top + km
  {
    var n' := rem / B;
    assert top * over == B * (low * over) by { MulAssoc(B, low, over); }
    CongIntro(rem, n + km, B, -(low * over));
    CongMod(0, B);
    assert rem == B * n';
    assert B * ((c + over) * low) == c * top + over * top by {
      MulAssoc(B, low, c + over);
      MulDist(top, c, over);
    }
    MulDist(B, n', (c + over) * low);
    if n' >= low {
      MulMono(B, low, n');
    }
  }

  /** The total after some steps, scaled back, differs from the start by a multiple of the modulus. */
  lemma ScaledStep(B: nat, m: nat, t: nat, total: nat, total': nat, q: nat, k: nat, P: nat)
    requires total * P == t + q * m && B * total' == total + k * m && k < B && q < P
    ensures total' * (B * P) == t + (q + k * P) * m && q + k * P < B * P
  {
    assert total' * (B * P) == (total + k * m) * P by { MulAssoc(total', B, P); }
    assert (total + k * m) * P == total * P + (k * P) * m by {
      MulDist(P, total, k * m);
      MulAssoc(k, m, P);
      MulAssoc(k, P, m);
    }
    MulDist(m, q, k * P);
    MulMono(P, k, B - 1);
    MulDist(P, B, -1);
  }

  lemma TotalIsSmall(m: nat, R: nat, t: nat, total: nat, q: nat)
    requires m > 0 && R > 0 && total * R == t + q * m && q < R && t < m * R
    ensures total < 2 * m
  {
  }

  /** What the words and the overflow counter hold together, when `e` words are left. */
  ghost function Total(B: nat, e: nat, n: nat, c: nat): nat
    requires B > 0
  {
    PowPositive(B, e);
    n + c * Pow(B, e)
  }

  method Divide(a: nat, b: nat) returns (q: nat, r: nat)
    requires b > 0
    ensures a == b * q + r && r < b
  {
    q, r := a / b, a % b;
  }

  /** One turn of the reduction loop: `mp_mul_add` and `mp_add_one`, then the pointer moves up a word. */
  method ReduceWord(p: Params, n: nat, c: nat, len: nat) returns (n': nat, c': nat, ghost k: nat)
    requires p.Valid() && 0 < len && n < Pow(p.B, p.len + len)
    ensures n' < Pow(p.B, p.len + len - 1) && k < p.B
    ensures p.B * Total(p.B, p.len + len - 1, n', c') == Total(p.B, p.len + len, n, c) + k * p.m
  {
    var d := (p.inv * (n % p.B)) % p.B;
    k := d;
    LowWordCleared(n, p.m, p.inv, p.B);
    PowPositive(p.B, p.len + len);
    PowPositive(p.B, p.len + len - 1);
    var top := Pow(p.B, p.len + len);
    MulMono(p.m, 0, d);
    var sum := n + d * p.m;
    var over, rem := Divide(sum, top);
    ReduceStep(p.B, Pow(p.B, p.len + len - 1), top, n, c, d * p.m, over, rem);
    c' := c + over;
    n' := rem / p.B;
  }

  /** After `len` words are left, the total is `t` plus a multiple of `m`, divided by as many words. */
  ghost predicate Reduced(p: Params, t: nat, len: nat, total: nat, q: nat)
    requires p.Valid() && len <= p.len
  {
    total * Pow(p.B, p.len - len) == t + q * p.m && q < Pow(p.B, p.len - len)
  }

  lemma ReducedStep(p: Params, t: nat, len: nat, total: nat, q: nat, total': nat, k: nat)
    requires p.Valid() && 0 < len <= p.len && Reduced(p, t, len, total, q)
    requires k < p.B && p.B * total' == total + k * p.m
    ensures q + k * Pow(p.B, p.len - len) >= 0
    ensures Reduced(p, t, len - 1, total', q + k * Pow(p.B, p.len - len))
  {
    var P := Pow(p.B, p.len - len);
    PowPositive(p.B, p.len - len);
    MulMono(P, 0, k);
    ScaledStep(p.B, p.m, t, total, total', q, k, P);
  }

  lemma ReducedAtEnd(p: Params, t: nat, total: nat, q: nat)
    requires p.Valid() && t < p.m * p.R() && Reduced(p, t, 0, total, q)
    ensures total < 2 * p.m && Cong(total * p.R(), t, p.m)
  {
    TotalIsSmall(p.m, p.R(), t, total, q);
    assert q * p.m == p.m * q;
    CongIntro(total * p.R(), t, p.m, q);
  }

  lemma FitsDouble(p: Params, t: nat)
    requires p.Valid() && t < p.m * p.R()
    ensures t < Pow(p.B, p.len + p.len)
  {
    PowAdd(p.B, p.len, p.len);
    MulMono(p.R(), p.m, p.R());
  }

  /** The loop over the words. */
  method ReduceWords(p: Params, t: nat) returns (n: nat, c: nat, ghost total: nat, ghost q: nat)
    requires p.Valid() && t < p.m * p.R()
    ensures n < Pow(p.B, p.len) && total == Total(p.B, p.len, n, c) && Reduced(p, t, 0, total, q)
  {
    var len := p.len;
    n, c, total, q := t, 0, t, 0;
    FitsDouble(p, t);
    while len > 0
      invariant 0 <= len <= p.len && n < Pow(p.B, p.len + len)
      invariant total == Total(p.B, p.len + len, n, c) && Reduced(p, t, len, total, q)
    {
      ghost var k;
      n, c, k := ReduceWord(p, n, c, len);
      ghost var total' := Total(p.B, p.len + len - 1, n, c);
      ReducedStep(p, t, len, total, q, total', k);
      q, total := q + k * Pow(p.B, p.len - len), total';
      len := len - 1;
    }
  }

  lemma ScaledCong(r: int, total: int, R: int, t: int, m: int)
    requires m > 0 && Cong(r, total, m) && Cong(total * R, t, m)
    ensures Cong(r * R, t, m)
  {
    CongMulLeft(R, r, total, m);
    assert R * r == r * R && R * total == total * R;
  }

  /** `mp_mont_reduce`: divides by `R` modulo `m`, for every `t` below `m * R`. */
  method MontReduce(p: Params, t: nat) returns (r: nat)
    requires p.Valid() && t < p.m * p.R()
    ensures r < p.m && Cong(r * p.R(), t, p.m)
  {
    var n, c, total, q := ReduceWords(p, t);
    ReducedAtEnd(p, t, total, q);
    r := Subtract(p, n, c);
    ScaledCong(r, total, p.R(), t, p.m);
  }

  lemma SubtractOnce(n: int, c: int, R: int, j: int, m: int)
    ensures n - m + (j + 1) * m == n + j * m
    ensures (n - m + R) + (c - 1) * R + (j + 1) * m == n + c * R + j * m
  {
  }

  /** The two subtraction loops at the end of the reduction; a borrow is taken out of the overflow. */
  method Subtract(p: Params, n0: nat, c0: nat) returns (n: nat)
    requires p.Valid() && n0 < p.R()
    ensures n < p.m && Cong(n, n0 + c0 * p.R(), p.m)
  {
    n := n0;
    var c := c0;
    var R := Pow(p.B, p.len);
    ghost var j, jm := 0, 0;
    while c > 0
      invariant 0 <= n < R && c >= 0 && j >= 0 && jm == j * p.m
      invariant n + c * R + jm == n0 + c0 * R
      decreases c, n
    {
      SubtractOnce(n, c, R, j, p.m);
      if n < p.m {
        n := n - p.m + R;
        c := c - 1;
      } else {
        n := n - p.m;
      }
      j, jm := j + 1, jm + p.m;
    }
    while n >= p.m
      invariant 0 <= n && jm == j * p.m && n + jm == n0 + c0 * R
    {
      SubtractOnce(n, c, R, j, p.m);
      n := n - p.m;
      j, jm := j + 1, jm + p.m;
    }
    assert p.m * (-j) == -jm by { MulDist(p.m, 0, j); }
    CongIntro(n, n0 + c0 * R, p.m, -j);
  }
}
