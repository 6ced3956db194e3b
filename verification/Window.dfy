/**
 The bookkeeping of the sliding window (src/bignum.c, `odd_mod_expt_rec`), on exponents alone.

 The reading position runs `w` bits ahead of the squaring position.  Scaling the exponent by
 2^w turns the zeros shifted in behind its last bit into ordinary bits, so one equation covers
 the whole run.
 */
module Window {
  import opened Arith
  import opened Modular
  import opened Bits

  /** `p` is the exponent so far, `k` the pending multiplier at position `pos`, `buf` the window;
      `E` bits of the scaled exponent are still unread, and squaring is at position `sq`. */
  ghost predicate Accounts(ext: nat, w: nat, E: nat, p: nat, sq: nat, k: nat, pos: nat, pending: bool, buf: nat) {
    ext == p * Pow2(sq + w) + (if pending then k * Pow2(pos + w) else 0) + buf * Pow2(E) + ext % Pow2(E)
  }

  /** Scaling by 2^w moves every bit up by `w` and leaves zeros below. */
  lemma BitOfScaled(e: nat, w: nat, i: nat)
    ensures Bit(e * Pow2(w), i) == if i >= w then Bit(e, i - w) else 0
  {
    var x := e * Pow2(w);
    MulMono(Pow2(w), 0, e);
    if i >= w {
      Pow2Add(i - w, w);
      var P, Q := Pow2(i - w), Pow2(w);
      var q, r := e / P, e % P;
      DivModPow2(e, i - w);
      assert x == Pow2(i) * q + r * Q by {
        MulDist(Q, q * P, r);
        MulAssoc(q, P, Q);
      }
      MulMono(Q, r, P - 1);
      MulDist(Q, P, 1);
      MulMono(Q, 0, r);
      DivModUnique(x, Pow2(i), q, r * Q);
    } else {
      Pow2Add(i, w - i);
      var P := Pow2(i);
      Pow2Step(w - i);
      var q := e * Pow2(w - i);
      MulMono(Pow2(w - i), 0, e);
      assert x == P * q + 0 by { MulAssoc(e, P, Pow2(w - i)); MulAssoc(P, e, Pow2(w - i)); }
      DivModUnique(x, P, q, 0);
      assert q == 2 * (e * Pow2(w - i - 1)) by { MulAssoc(e, 2, Pow2(w - i - 1)); MulAssoc(2, e, Pow2(w - i - 1)); }
      MulMono(Pow2(w - i - 1), 0, e);
    }
  }

  /** Reading one more bit into the window. */
  lemma StepReads(ext: nat, w: nat, E: nat, p: nat, k: nat, pos: nat, pending: bool, buf: nat)
    requires E > 0 && Accounts(ext, w, E, p, E - 1, k, pos, pending, buf)
    ensures Accounts(ext, w, E - 1, p, E - 1, k, pos, pending, 2 * buf + Bit(ext, E - 1))
  {
    ReadBit(ext, E);
    Pow2Step(E);
    var L, b := Pow2(E - 1), Bit(ext, E - 1);
    assert buf * (2 * L) == (2 * buf) * L by { MulAssoc(buf, 2, L); }
    MulDist(L, 2 * buf, b);
  }

  /** A full window is moved to the pending multiplier, without its trailing zeros. */
  lemma StepSchedules(ext: nat, w: nat, E: nat, p: nat, k0: nat, pos0: nat, buf: nat, k: nat, pos: nat)
    requires Accounts(ext, w, E, p, E, k0, pos0, false, buf)
    requires pos + w >= E && buf == k * Pow2(pos + w - E)
    ensures Accounts(ext, w, E, p, E, k, pos, true, 0)
  {
    Pow2Add(pos + w - E, E);
    MulAssoc(k, Pow2(pos + w - E), Pow2(E));
  }

  /** Multiplying at the pending position adds the multiplier to the exponent. */
  lemma StepMultiplies(ext: nat, w: nat, E: nat, p: nat, k: nat, buf: nat)
    requires Accounts(ext, w, E, p, E, k, E, true, buf)
    ensures Accounts(ext, w, E, p + k, E, k, E, false, buf)
  {
  }

  /** Squaring doubles the exponent. */
  lemma StepSquares(ext: nat, w: nat, E: nat, p: nat, k: nat, pos: nat, pending: bool, buf: nat)
    requires E > 0 && Accounts(ext, w, E, p, E, k, pos, pending, buf)
    ensures Accounts(ext, w, E, 2 * p, E - 1, k, pos, pending, buf)
  {
  }

  lemma MultipleOfPow2(e: nat, w: nat, E: nat)
    requires E <= w
    ensures (e * Pow2(w)) % Pow2(E) == 0
  {
    Pow2Add(E, w - E);
    MulMono(Pow2(w), 0, e);
    MulMono(Pow2(w - E), 0, e);
    assert e * Pow2(w) == Pow2(E) * (e * Pow2(w - E)) + 0 by {
      MulAssoc(e, Pow2(E), Pow2(w - E));
      MulAssoc(Pow2(E), e, Pow2(w - E));
    }
    DivModUnique(e * Pow2(w), Pow2(E), e * Pow2(w - E), 0);
  }

  /** The window never reaches below the last bit of the exponent: if it did, its lowest one bit would
      be one of the zeros behind it. */
  lemma WindowAboveEnd(e: nat, w: nat, E: nat, p: nat, k: nat, z: nat)
    requires k % 2 == 1 && z < w
    requires e * Pow2(w) >= 0 && Accounts(e * Pow2(w), w, E, p, E, 0, 0, false, k * Pow2(z))
    ensures E + z >= w
  {
    if E + z < w {
      var ext, n := e * Pow2(w), E + z;
      MultipleOfPow2(e, w, E);
      MultipleOfPow2(e, w, n + 1);
      Pow2Add(z, E);
      assert k * Pow2(z) * Pow2(E) == k * Pow2(n) by { MulAssoc(k, Pow2(z), Pow2(E)); }
      Pow2Add(n + 1, E + w - (n + 1));
      var d := Pow2(E + w - (n + 1));
      Pow2Step(n + 1);
      var h := k / 2;
      assert ext == Pow2(n + 1) * (p * d + h) + Pow2(n) by {
        assert p * Pow2(E + w) == Pow2(n + 1) * (p * d) by {
          MulAssoc(p, Pow2(n + 1), d);
          MulAssoc(Pow2(n + 1), p, d);
        }
        assert k * Pow2(n) == Pow2(n + 1) * h + Pow2(n) by {
          assert k * Pow2(n) == (2 * h + 1) * Pow2(n);
          MulDist(Pow2(n), 2 * h, 1);
          MulAssoc(Pow2(n), 2, h);
          MulAssoc(2, Pow2(n), h);
        }
        MulDist(Pow2(n + 1), p * d, h);
      }
      DivModUnique(ext, Pow2(n + 1), p * d + h, Pow2(n));
    }
  }

  /** At the end nothing is pending and the window is empty, so the whole exponent was applied. */
  lemma Finished(e: nat, w: nat, p: nat, k: nat, buf: nat)
    requires e * Pow2(w) >= 0 && Accounts(e * Pow2(w), w, 0, p, 0, k, 0, false, buf) && buf < Pow2(w)
    ensures p == e && buf == 0
  {
    var P := Pow2(w);
    assert Pow2(0) == 1;
    assert e * P == P * p + buf;
    assert e * P == P * e + 0;
    DivModUnique(e * P, P, p, buf);
    DivModUnique(e * P, P, e, 0);
  }
}
