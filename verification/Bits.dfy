/** Binary digits of natural numbers. */
module Bits {
  import opened Arith
  import opened Modular

  function Bit(e: nat, i: nat): (b: nat)
    ensures b <= 1
  {
    (e / Pow2(i)) % 2
  }

  lemma DivModPow2(x: nat, n: nat)
    ensures x == x / Pow2(n) * Pow2(n) + x % Pow2(n) && x / Pow2(n) >= 0
  {
  }

  /** Splitting off the top bit of the unread part. */
  lemma ReadBit(x: nat, n: nat)
    requires n > 0
    ensures x % Pow2(n) == Bit(x, n - 1) * Pow2(n - 1) + x % Pow2(n - 1)
  {
    var L, H := Pow2(n - 1), Pow2(n);
    Pow2Step(n);
    var q, r := x / L, x % L;
    DivModPow2(x, n - 1);
    var h, b := q / 2, q % 2;
    assert x == H * h + (b * L + r) by {
      assert q * L == (2 * h + b) * L;
      MulDist(L, 2 * h, b);
      MulAssoc(L, 2, h);
      MulAssoc(2, L, h);
      MulAssoc(H, 1, h);
    }
    MulMono(L, b, 1);
    MulMono(L, 0, b);
    DivModUnique(x, H, h, b * L + r);
  }

  lemma NextBit(e: nat, n: nat)
    requires n > 0
    ensures e / Pow2(n - 1) == 2 * (e / Pow2(n)) + Bit(e, n - 1)
  {
    var L := Pow2(n - 1);
    Pow2Step(n);
    ReadBit(e, n);
    var q := 2 * (e / Pow2(n)) + Bit(e, n - 1);
    assert e == L * q + e % L by {
      DivModPow2(e, n);
      MulAssoc(L, 2, e / Pow2(n));
      MulDist(L, 2 * (e / Pow2(n)), Bit(e, n - 1));
      assert L * 2 == Pow2(n);
    }
    DivModUnique(e, L, q, e % L);
  }

  /** `Sg_BignumBitSize` of a positive number. */
  method BitSize(e: nat) returns (n: nat)
    requires e > 0
    ensures n > 0 && Pow2(n - 1) <= e < Pow2(n)
  {
    n := 1;
    while Pow2(n) <= e
      invariant n > 0 && Pow2(n - 1) <= e
      decreases e - Pow2(n - 1)
    {
      Pow2Step(n);
      n := n + 1;
    }
  }

  /** Shifts the trailing zeros out of a positive number, counting them. */
  method Strip(buf: nat) returns (k: nat, z: nat)
    requires buf > 0
    ensures k % 2 == 1 && buf == k * Pow2(z)
  {
    k, z := buf, 0;
    while k % 2 == 0
      invariant k > 0 && buf == k * Pow2(z)
      decreases k
    {
      MulAssoc(k / 2, 2, Pow2(z));
      Pow2Step(z + 1);
      k, z := k / 2, z + 1;
    }
  }
}
