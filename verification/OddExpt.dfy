/** `odd_mod_expt` of src/bignum.c: x^e mod m for odd m, by Montgomery multiplication and a sliding window. */
module OddExpt {
  import opened Arith
  import opened Modular
  import opened Montgomery
  import opened Bits
  import opened Window

  /** A power of two has an inverse modulo every odd number. */
  lemma RadixHasInverse(w: nat, len: nat, m: nat) returns (rinv: int)
    requires m % 2 == 1
    ensures Cong(Pow(Pow2(w), len) * rinv, 1, m)
  {
    var h, n := (m + 1) / 2, w * len;
    MulMono(w, 0, len);
    rinv := Pow(h, n);
    PowPow(2, w, len);
    PowMul(2, h, n);
    CongIntro(2 * h, 1, m, 1);
    CongPow(2 * h, 1, n, m);
    PowOne(n);
  }

  /** `v` is x^n in Montgomery form. */
  ghost predicate IsPower(p: Params, v: nat, x: nat, n: nat)
    requires p.Valid()
  {
    v < p.m && Cong(v, Pow(x, n) * p.R(), p.m)
  }

  ghost predicate Invertible(p: Params, rinv: int)
    requires p.Valid()
  {
    Cong(p.R() * rinv, 1, p.m)
  }

  lemma ProductIsPower(p: Params, rinv: int, x: nat, a: nat, i: nat, b: nat, j: nat, r: nat)
    requires p.Valid() && Invertible(p, rinv) && IsPower(p, a, x, i) && IsPower(p, b, x, j)
    requires r < p.m && Cong(r * p.R(), a * b, p.m)
    ensures IsPower(p, r, x, i + j)
  {
    var R, m, X, Y := p.R(), p.m, Pow(x, i), Pow(x, j);
    CongMul(a, X * R, b, Y * R, m);
    PowAdd(x, i, j);
    assert (X * R) * (Y * R) == ((X * Y) * R) * R by {
      MulAssoc(X * R, Y, R);
      MulAssoc(X, R, Y);
      MulAssoc(X, Y, R);
    }
    CongCancel(r, (X * Y) * R, R, rinv, m);
  }

  lemma ProductFits(p: Params, a: nat, b: nat)
    requires p.Valid() && a < p.m && b < p.m
    ensures 0 <= a * b < p.m * p.R()
  {
    MulMono(a, 0, b);
    MulMono(a, b, p.m);
    MulMono(p.m, a + 1, p.R());
    MulDist(p.m, a, 1);
  }

  /** `mp_mul` or `mp_square`, then `mp_mont_reduce`. */
  method MontMul(p: Params, ghost rinv: int, ghost x: nat, a: nat, ghost i: nat, b: nat, ghost j: nat) returns (r: nat)
    requires p.Valid() && Invertible(p, rinv) && IsPower(p, a, x, i) && IsPower(p, b, x, j)
    ensures IsPower(p, r, x, i + j)
  {
    ProductFits(p, a, b);
    r := MontReduce(p, a * b);
    ProductIsPower(p, rinv, x, a, i, b, j, r);
  }

  ghost predicate IsTable(p: Params, table: seq<nat>, x: nat)
    requires p.Valid()
  {
    forall i {:trigger table[i]} :: 0 <= i < |table| ==> IsPower(p, table[i], x, 2 * i + 1)
  }

  /** The odd powers of the base, and its square. */
  method MakeTable(p: Params, ghost rinv: int, x: nat, size: nat) returns (table: seq<nat>, b: nat)
    requires p.Valid() && Invertible(p, rinv) && size > 0
    ensures |table| == size && IsTable(p, table, x) && IsPower(p, b, x, 2)
  {
    MulMono(x, 0, p.R());
    var R := Pow(p.B, p.len);
    var first := (x * R) % p.m;
    CongMod(x * R, p.m);
    assert Pow(x, 1) == x * Pow(x, 0);
    table := [first];
    b := MontMul(p, rinv, x, first, 1, first, 1);
    for i := 1 to size
      invariant |table| == i && IsTable(p, table, x)
    {
      var a := MontMul(p, rinv, x, b, 2, table[i - 1], 2 * (i - 1) + 1);
      table := table + [a];
    }
  }

  lemma StripBounds(buf: nat, k: nat, z: nat, w: nat)
    requires 0 < buf < Pow2(w + 1) && k % 2 == 1 && buf == k * Pow2(z)
    ensures z <= w && k < Pow2(w + 1)
  {
    MulMono(Pow2(z), 1, k);
    MulMono(k, 1, Pow2(z));
    if z > w {
      Pow2Mono(w + 1, z);
    }
  }

  /** The first `w + 1` bits of the exponent. */
  method FirstWindow(e: nat, ebits: nat, w: nat) returns (buf: nat)
    requires Pow2(ebits) > e && w < ebits
    ensures buf == e / Pow2(ebits - 1 - w)
  {
    buf := 0;
    var unread := ebits;
    DivModUnique(e, Pow2(ebits), 0, e);
    for i := 0 to w + 1
      invariant unread == ebits - i && buf == e / Pow2(unread)
    {
      NextBit(e, unread);
      buf := 2 * buf + Bit(e, unread - 1);
      unread := unread - 1;
    }
  }

  /** Between two turns of the main loop: `E` is the squaring position still to come, `A` the exponent of
      the accumulator, and the multiplier for x^k waits for position `pos` if that is below `E`. */
  ghost predicate Turn(e: nat, w: nat, E: nat, A: nat, k: nat, pos: nat, buf: nat) {
    && E > 0 && e * Pow2(w) >= 0
    && Accounts(e * Pow2(w), w, E, A, E - 1, k, pos, pos < E, buf)
    && buf < Pow2(w)
    && (pos < E ==> pos + w >= E && buf < Pow2(pos + w - E))
  }

  /** Inside a turn, after the next bit was read and before squaring. */
  ghost predicate Midway(e: nat, w: nat, E: nat, A: nat, k: nat, pos: nat, buf: nat) {
    && e * Pow2(w) >= 0
    && Accounts(e * Pow2(w), w, E, A, E, k, pos, pos <= E, buf)
    && (pos <= E ==> pos + w >= E && buf < Pow2(pos + w - E))
  }

  lemma Reads(e: nat, w: nat, E: nat, A: nat, k: nat, pos: nat, buf: nat, bit: nat)
    requires Turn(e, w, E, A, k, pos, buf)
    requires bit == if E - 1 >= w then Bit(e, E - 1 - w) else 0
    ensures Midway(e, w, E - 1, A, k, pos, 2 * buf + bit) && 2 * buf + bit < Pow2(w + 1)
  {
    BitOfScaled(e, w, E - 1);
    StepReads(e * Pow2(w), w, E, A, k, pos, pos < E, buf);
    if pos < E {
      Pow2Step(pos + w - E + 1);
    }
  }

  /** A full window finds no multiplier waiting. */
  lemma FullMeansFree(e: nat, w: nat, E: nat, A: nat, k: nat, pos: nat, buf: nat)
    requires Midway(e, w, E, A, k, pos, buf) && buf >= Pow2(w)
    ensures pos > E
  {
    if pos <= E {
      Pow2Mono(pos + w - E, w);
    }
  }

  lemma Schedules(e: nat, w: nat, E: nat, A: nat, k0: nat, pos0: nat, buf: nat, k: nat, z: nat)
    requires Midway(e, w, E, A, k0, pos0, buf) && pos0 > E && Pow2(w) <= buf < Pow2(w + 1)
    requires k % 2 == 1 && buf == k * Pow2(z)
    ensures z <= w && E + z >= w && k < Pow2(w + 1)
    ensures Midway(e, w, E, A, k, E + z - w, 0)
  {
    StripBounds(buf, k, z, w);
    if z < w {
      WindowAboveEnd(e, w, E, A, k, z);
    }
    StepSchedules(e * Pow2(w), w, E, A, k0, pos0, buf, k, E + z - w);
  }

  lemma Multiplies(e: nat, w: nat, E: nat, A: nat, k: nat, buf: nat)
    requires Midway(e, w, E, A, k, E, buf)
    ensures Done(e, w, E, A + k, k, E, buf)
  {
  }

  /** After the multiplication of a turn. */
  ghost predicate Done(e: nat, w: nat, E: nat, A: nat, k: nat, pos: nat, buf: nat) {
    && e * Pow2(w) >= 0
    && Accounts(e * Pow2(w), w, E, A, E, k, pos, pos < E, buf)
    && (pos < E ==> pos + w >= E && buf < Pow2(pos + w - E))
  }

  lemma Squares(e: nat, w: nat, E: nat, A: nat, k: nat, pos: nat, buf: nat)
    requires Done(e, w, E, A, k, pos, buf) && E > 0 && buf < Pow2(w)
    ensures Turn(e, w, E, 2 * A, k, pos, buf)
  {
  }

  lemma AllDone(e: nat, w: nat, A: nat, k: nat, pos: nat, buf: nat)
    requires Done(e, w, 0, A, k, pos, buf) && buf < Pow2(w)
    ensures A == e
  {
    Finished(e, w, A, k, buf);
  }

  /** The first window: its multiplier is pending, unless it is the top bit alone, which is applied and
      squared at once. */
  lemma Starts(e: nat, ebits: nat, w: nat, buf: nat, k: nat, z: nat)
    requires ebits > 1 && w < ebits && Pow2(ebits - 1) <= e < Pow2(ebits) && buf == e / Pow2(ebits - 1 - w)
    requires k % 2 == 1 && buf == k * Pow2(z)
    ensures 0 < buf && z <= w && k < Pow2(w + 1)
    ensures var E := ebits - 1; var pos := E - w + z;
      if pos == E then k == 1 && Turn(e, w, E, 2, k, pos, 0) else Turn(e, w, E, 0, k, pos, 0)
  {
    var E, ext, D := ebits - 1, e * Pow2(w), Pow2(ebits - 1 - w);
    MulMono(Pow2(w), 0, e);
    WindowRange(e, ebits, w, buf);
    StripBounds(buf, k, z, w);
    assert ext == buf * Pow2(E) + ext % Pow2(E) by { ScaledTop(e, w, E); }
    var pos := E - w + z;
    assert Accounts(ext, w, E, 0, E, k, pos, false, buf);
    StepSchedules(ext, w, E, 0, k, pos, buf, k, pos);
    if pos == E {
      TopBitAlone(w, buf, k);
      StepMultiplies(ext, w, E, 0, k, 0);
      StepSquares(ext, w, E, 1, k, pos, false, 0);
    } else {
      StepSquares(ext, w, E, 0, k, pos, true, 0);
    }
  }

  lemma TopBitAlone(w: nat, buf: nat, k: nat)
    requires buf < Pow2(w + 1) && k % 2 == 1 && buf == k * Pow2(w)
    ensures k == 1
  {
  }

  lemma WindowRange(e: nat, ebits: nat, w: nat, buf: nat)
    requires w < ebits && Pow2(ebits - 1) <= e < Pow2(ebits) && buf == e / Pow2(ebits - 1 - w)
    ensures Pow2(w) <= buf < Pow2(w + 1)
  {
    var D := Pow2(ebits - 1 - w);
    DivModPow2(e, ebits - 1 - w);
    Pow2Add(w, ebits - 1 - w);
    Pow2Add(w + 1, ebits - 1 - w);
    MulDist(D, Pow2(w), 1);
    if buf < Pow2(w) {
      MulMono(D, buf, Pow2(w) - 1);
    }
    var top := Pow2(w + 1);
    if buf >= top {
      MulMono(D, top, buf);
    }
  }

  /** The quotient of the scaled exponent is that of the exponent itself. */
  lemma ScaledTop(e: nat, w: nat, E: nat)
    requires w <= E
    ensures e * Pow2(w) >= 0 && e * Pow2(w) == e / Pow2(E - w) * Pow2(E) + (e * Pow2(w)) % Pow2(E)
  {
    var P, Q := Pow2(E - w), Pow2(w);
    MulMono(Q, 0, e);
    Pow2Add(E - w, w);
    DivModPow2(e, E - w);
    var q, r := e / P, e % P;
    assert e * Q == Pow2(E) * q + r * Q by {
      MulDist(Q, q * P, r);
      MulAssoc(q, P, Q);
    }
    MulMono(Q, r, P - 1);
    MulDist(Q, P, 1);
    MulMono(Q, 0, r);
    DivModUnique(e * Q, Pow2(E), q, r * Q);
  }

  /** `odd_mod_expt_rec`, for any window width below the size of the exponent. */
  method OddModExptRec(p: Params, ghost rinv: int, x: nat, e: nat, ebits0: nat, w: nat) returns (b: nat)
    requires p.Valid() && Invertible(p, rinv)
    requires ebits0 > 1 && w < ebits0 && Pow2(ebits0 - 1) <= e < Pow2(ebits0)
    ensures IsPower(p, b, x, e)
  {
    var table;
    var tblmask := Pow2(w);
    table, b := MakeTable(p, rinv, x, tblmask);
    var buf := FirstWindow(e, ebits0, w);
    WindowRange(e, ebits0, w, buf);
    var k, z := Strip(buf);
    Starts(e, ebits0, w, buf, k, z);
    var ebits := ebits0 - 1;
    var multpos: nat := ebits - w + z;
    Pow2Step(w + 1);
    var mult := table[k / 2];
    buf := 0;
    var isone := multpos != ebits;
    ghost var A: nat := if isone then 0 else 2;
    var unread: nat := ebits - w;
    while true
      invariant Turn(e, w, ebits, A, k, multpos, buf)
      invariant IsPower(p, mult, x, k)
      invariant if isone then A == 0 else IsPower(p, b, x, A)
      invariant unread == if ebits >= w then ebits - w else 0
      decreases ebits
    {
      var bit := 0;
      if unread > 0 {
        bit := Bit(e, unread - 1);
        unread := unread - 1;
      }
      Reads(e, w, ebits, A, k, multpos, buf, bit);
      ebits := ebits - 1;
      buf := 2 * buf + bit;
      if buf >= tblmask {
        FullMeansFree(e, w, ebits, A, k, multpos, buf);
        ghost var k0 := k;
        k, z := Strip(buf);
        Schedules(e, w, ebits, A, k0, multpos, buf, k, z);
        multpos := ebits + z - w;
        mult := table[k / 2];
        buf := 0;
      }
      if ebits == multpos {
        Multiplies(e, w, ebits, A, k, buf);
        if isone {
          b := mult;
          isone := false;
        } else {
          b := MontMul(p, rinv, x, b, A, mult, k);
        }
        A := A + k;
      }
      assert Done(e, w, ebits, A, k, multpos, buf);
      if ebits == 0 {
        AllDone(e, w, A, k, multpos, buf);
        return;
      }
      Squares(e, w, ebits, A, k, multpos, buf);
      if !isone {
        b := MontMul(p, rinv, x, b, A, b, A);
      }
      A := 2 * A;
    }
  }

  /** The table that chooses the window width from the size of the exponent. */
  function WindowBits(ebits: nat): (w: nat)
    ensures ebits > 0 ==> w < ebits
  {
    if ebits <= 7 then 0
    else if ebits <= 25 then 1
    else if ebits <= 81 then 2
    else if ebits <= 241 then 3
    else if ebits <= 673 then 4
    else if ebits <= 1793 then 5
    else 6
  }

  /** `odd_mod_expt`, with the result taken out of Montgomery form at the end. */
  method OddModExpt(wordBits: nat, len: nat, x: nat, e: nat, m: nat) returns (r: nat)
    requires (wordBits == 32 || wordBits == 64) && len > 0 && m % 2 == 1 && m < Pow(Pow2(wordBits), len)
    requires x < m && e > 0
    ensures r == Pow(x, e) % m
  {
    if e == 1 {
      assert Pow(x, 1) == x * Pow(x, 0);
      DivModUnique(x, m, 0, x);
      return x;
    }
    if x == 0 {
      assert Pow(x, e) == 0;
      return x;
    }
    var inv := ReductionWord(wordBits, m);
    var p := Params(Pow2(wordBits), len, m, inv);
    ghost var rinv := RadixHasInverse(wordBits, len, m);
    var ebits := BitSize(e);
    var w := WindowBits(ebits);
    if ebits == 17 {
      w := 0;
    }
    var b := OddModExptRec(p, rinv, x, e, ebits, w);
    MulMono(m, 1, p.R());
    r := MontReduce(p, b);
    OutOfForm(p, rinv, x, e, b, r);
  }

  lemma NegatedInverse(B: nat, m: nat, low: nat, inverse: int, inv: nat)
    requires B > 1 && Cong(low, m, B) && Cong(low * inverse, 1, B) && Cong(inv, -inverse, B)
    ensures Cong(inv * m, -1, B)
  {
    CongMul(inv, -inverse, m, low, B);
    CongMulLeft(-1, low * inverse, 1, B);
    assert (-inverse) * low == -1 * (low * inverse);
  }

  /** The word that `odd_mod_expt` passes on: minus the inverse of the low word of the modulus. */
  method ReductionWord(wordBits: nat, m: nat) returns (inv: nat)
    requires (wordBits == 32 || wordBits == 64) && m % 2 == 1
    ensures Cong(inv * m, -1, Pow2(wordBits)) && Pow2(wordBits) > 1
  {
    var B := Pow2(wordBits);
    Pow2Mono(1, wordBits);
    assert Pow2(1) == 2;
    var low := LowWord(m, wordBits);
    var inverse := InverseModLong(low, wordBits);
    inv := if inverse == 0 then 0 else B - inverse;
    ghost var i: int := inverse;
    CongIntro(inv, -i, B, if inverse == 0 then 0 else 1);
    NegatedInverse(B, m, low, i, inv);
  }

  function LowWord(m: nat, w: nat): (low: nat)
    requires m % 2 == 1 && w > 0
    ensures low % 2 == 1 && low < Pow2(w) && Cong(low, m, Pow2(w))
  {
    LowWordIsOdd(m, w);
    CongMod(m, Pow2(w));
    m % Pow2(w)
  }

  lemma LowWordIsOdd(m: nat, w: nat)
    requires m % 2 == 1 && w > 0
    ensures (m % Pow2(w)) % 2 == 1
  {
    Pow2Step(w);
    var q := m / Pow2(w);
    DivModPow2(m, w);
    assert q * Pow2(w) == 2 * (q * Pow2(w - 1)) by {
      MulAssoc(q, 2, Pow2(w - 1));
      MulAssoc(2, q, Pow2(w - 1));
    }
  }

  lemma OutOfForm(p: Params, rinv: int, x: nat, e: nat, b: nat, r: nat)
    requires p.Valid() && Invertible(p, rinv) && IsPower(p, b, x, e) && r < p.m && Cong(r * p.R(), b, p.m)
    ensures r == Pow(x, e) % p.m
  {
    CongCancel(r, Pow(x, e), p.R(), rinv, p.m);
    CongMod(Pow(x, e), p.m);
    CongUnique(r, Pow(x, e) % p.m, p.m);
  }
}
