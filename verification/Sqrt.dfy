/** Integer square roots (src/bignum.c, `bn_sqrt` and `Sg_BignumSqrt`). */
module Sqrt {
  import opened Arith
  import opened Modular
  import opened Bits

  predicate IsFloorSqrt(s: nat, n: nat) {
    s * s <= n < (s + 1) * (s + 1)
  }

  ghost predicate IsSquareOf(n: nat, r: nat) {
    n == r * r
  }

  ghost predicate IsSquare(n: nat) {
    exists r: nat :: IsSquareOf(n, r)
  }

  function NewtonNext(n: nat, s: nat): (t: nat)
    requires s > 0
  {
    (n / s + s) / 2
  }

  /** A Newton step never falls below the root. */
  lemma NewtonStaysAbove(n: nat, s: nat)
    requires s > 0
    ensures var t := NewtonNext(n, s); n < (t + 1) * (t + 1)
  {
    var q, r := n / s, n % s;
    var t, u := NewtonNext(n, s), n / s + 1;
    assert n < u * s by {
      assert n == s * q + r;
      MulDist(s, q, 1);
    }
    SquareOfSum(u, s);
    assert 2 * (t + 1) >= u + s;
    MulMono(u + s, u + s, 2 * (t + 1));
    MulMono(2 * (t + 1), u + s, 2 * (t + 1));
    MulSwap(2, t + 1, 2, t + 1);
  }

  lemma SquareOfSum(u: int, s: int)
    ensures (u + s) * (u + s) >= 4 * (u * s)
  {
    assert (u + s) * (u + s) == (u - s) * (u - s) + 4 * (u * s);
    assert (u - s) * (u - s) >= 0;
  }

  /** When the step does not go down, the root has been reached. */
  lemma NewtonStops(n: nat, s: nat)
    requires s > 0 && NewtonNext(n, s) >= s
    ensures s * s <= n
  {
  }

  /** The shifted start value is at or above the root. */
  lemma StartIsAbove(n: nat, b: nat)
    requires b > 0 && Pow2(b - 1) <= n
    ensures var s := n / Pow2((b - 1) / 2); s > 0 && n < (s + 1) * (s + 1)
  {
    var h := (b - 1) / 2;
    var P := Pow2(h);
    Pow2Add(h, h);
    Pow2Mono(2 * h, b - 1);
    QuotientIsAbove(n, P, n / P, n % P);
  }

  lemma QuotientIsAbove(n: nat, P: nat, s: int, r: int)
    requires n == P * s + r && 0 <= r < P && P * P <= n
    ensures s > 0 && n < (s + 1) * (s + 1)
  {
    if s < P {
      MulMono(P, s, P - 1);
      MulDist(P, P, 1);
    }
    MulMono(s + 1, P, s + 1);
    MulDist(P, s, 1);
  }

  /** `bn_sqrt`: Newton's iteration from above. */
  method BnSqrt(n: nat) returns (s: nat)
    requires n > 0
    ensures s > 0 && IsFloorSqrt(s, n)
  {
    var bitsize := BitSize(n);
    StartIsAbove(n, bitsize);
    s := n / Pow2((bitsize - 1) / 2);
    while true
      invariant s > 0 && n < (s + 1) * (s + 1)
      decreases s
    {
      var t := NewtonNext(n, s);
      NewtonStaysAbove(n, s);
      if t >= s {
        NewtonStops(n, s);
        return;
      }
      s := t;
    }
  }

  lemma FloorSqrtOfSquare(s: nat, n: nat, r: nat)
    requires IsFloorSqrt(s, n) && IsSquareOf(n, r)
    ensures r == s
  {
    if r < s {
      MulMono(r, r, s);
      MulDist(s, r, 1);
      MulMono(s, r + 1, s);
    } else if r > s {
      MulMono(s + 1, s + 1, r);
      MulMono(r, s + 1, r);
    }
  }

  datatype Root = Real(root: nat) | Imaginary(root: nat) | Inexact

  /** `Sg_BignumSqrt` for a nonzero number, given by sign and magnitude: exact just for squares.  The
      filter on the low words, in base `B`, rejects no square. */
  method BignumSqrt(B: nat, positive: bool, n: nat) returns (r: Root)
    requires B > 0 && n > 0
    ensures r.Inexact? <==> !IsSquare(n)
    ensures !r.Inexact? ==> IsSquareOf(n, r.root) && (r.Real? <==> positive)
  {
    var s := BnSqrt(n);
    LowWordFilter(B, s);
    if n % B == ((s % B) * (s % B)) % B {
      if n == s * s {
        assert IsSquareOf(n, s);
        return if positive then Real(s) else Imaginary(s);
      }
    }
    r := Inexact;
    forall q: nat | IsSquareOf(n, q) ensures false {
      FloorSqrtOfSquare(s, n, q);
    }
  }

  lemma LowWordFilter(B: nat, s: nat)
    requires B > 0
    ensures s * s >= 0 && (s * s) % B == ((s % B) * (s % B)) % B
  {
    CongMod(s, B);
    CongMul(s % B, s, s % B, s, B);
  }
}
