/**
 Bitwise OR of signed numbers (src/bignum.c, `Sg_BignumLogIor`): sign and magnitude words are turned
 into two's complement, combined word by word, and turned back.
 */
module LogIor {
  import opened Arith
  import opened Modular
  import opened Words

  /** Bit `i` of the infinite two's complement form of `z`. */
  function TBit(z: int, i: nat): (b: int)
    ensures 0 <= b <= 1
  {
    (z / Pow2(i)) % 2
  }

  /** Bitwise OR of the low `n` bits. */
  function Or(a: int, b: int, n: nat): (r: nat)
    decreases n
  {
    if n == 0 then 0
    else (if a % 2 == 1 || b % 2 == 1 then 1 else 0) + 2 * Or(a / 2, b / 2, n - 1)
  }

  // ----- halves and bits -----

  lemma TBitHalf(z: int, i: nat)
    requires i > 0
    ensures TBit(z, i) == TBit(z / 2, i - 1)
  {
    var P, Q := Pow2(i - 1), Pow2(i);
    Pow2Step(i);
    var h, b := z / 2, z % 2;
    var q, r := h / P, h % P;
    assert z == Q * q + (2 * r + b) by {
      assert 2 * (P * q) == Q * q by { MulAssoc(2, P, q); }
    }
    DivModUnique(z, Q, q, 2 * r + b);
  }

  lemma TBitZero(z: int)
    ensures TBit(z, 0) == z % 2
  {
  }

  lemma {:induction false} OrRange(a: int, b: int, n: nat)
    ensures Or(a, b, n) < Pow2(n)
    decreases n
  {
    if n > 0 {
      OrRange(a / 2, b / 2, n - 1);
    }
  }

  lemma {:induction false} OrBit(a: int, b: int, n: nat, i: nat)
    requires i < n
    ensures TBit(Or(a, b, n), i) == if TBit(a, i) == 1 || TBit(b, i) == 1 then 1 else 0
    decreases n
  {
    var r := Or(a, b, n);
    if i == 0 {
      TBitZero(a);
      TBitZero(b);
      TBitZero(r);
    } else {
      OrBit(a / 2, b / 2, n - 1, i - 1);
      TBitHalf(a, i);
      TBitHalf(b, i);
      TBitHalf(r, i);
      assert r / 2 == Or(a / 2, b / 2, n - 1);
    }
  }

  /** The OR is at least as large as either operand, cut to the same width. */
  lemma {:induction false} OrAbove(a: int, b: int, n: nat)
    requires 0 <= b < Pow2(n)
    ensures Or(a, b, n) >= b
    decreases n
  {
    if n > 0 {
      OrAbove(a / 2, b / 2, n - 1);
    }
  }

  lemma {:induction false} OrSwaps(a: int, b: int, n: nat)
    ensures Or(a, b, n) == Or(b, a, n)
    decreases n
  {
    if n > 0 {
      OrSwaps(a / 2, b / 2, n - 1);
    }
  }

  /** Splitting the width at `m`. */
  lemma {:induction false} OrSplits(a: int, b: int, m: nat, n: nat)
    ensures Or(a, b, m + n) == Or(a, b, m) + Pow2(m) * Or(a / Pow2(m), b / Pow2(m), n)
    decreases m
  {
    if m == 0 {
      assert Pow2(0) == 1 && a / 1 == a && b / 1 == b;
    } else {
      OrSplits(a / 2, b / 2, m - 1, n);
      Pow2Step(m);
      HalfThenDivide(a, m);
      HalfThenDivide(b, m);
      var hi := Or(a / Pow2(m), b / Pow2(m), n);
      MulAssoc(2, Pow2(m - 1), hi);
      assert Or(a, b, m + n) == (if a % 2 == 1 || b % 2 == 1 then 1 else 0) + 2 * Or(a / 2, b / 2, m + n - 1);
    }
  }

  lemma HalfThenDivide(a: int, m: nat)
    requires m > 0
    ensures (a / 2) / Pow2(m - 1) == a / Pow2(m)
  {
    var P, Q := Pow2(m - 1), Pow2(m);
    Pow2Step(m);
    var h, b := a / 2, a % 2;
    var q, r := h / P, h % P;
    MulAssoc(2, P, q);
    DivModUnique(a, Q, q, 2 * r + b);
  }

  /** Only the low bits of the operands matter. */
  lemma {:induction false} OrLowBits(a: int, b: int, c: int, d: int, n: nat)
    requires Cong(a, c, Pow2(n)) && Cong(b, d, Pow2(n))
    ensures Or(a, b, n) == Or(c, d, n)
    decreases n
  {
    if n > 0 {
      HalfCong(a, c, n);
      HalfCong(b, d, n);
      OrLowBits(a / 2, b / 2, c / 2, d / 2, n - 1);
    }
  }

  lemma HalfCong(a: int, c: int, n: nat)
    requires n > 0 && Cong(a, c, Pow2(n))
    ensures a % 2 == c % 2 && Cong(a / 2, c / 2, Pow2(n - 1))
  {
    var k := CongElim(a, c, Pow2(n));
    Pow2Step(n);
    MulAssoc(2, Pow2(n - 1), k);
    assert a == c + 2 * (Pow2(n - 1) * k);
    CongIntro(a / 2, c / 2, Pow2(n - 1), k);
  }

  // ----- the signed results -----

  lemma {:induction false} TBitOfNegative(z: int, N: nat, i: nat)
    requires z < 0 <= z + Pow2(N) && i >= N
    ensures TBit(z, i) == 1
  {
    Pow2Mono(N, i);
    DivModUnique(z, Pow2(i), -1, z + Pow2(i));
  }

  lemma TBitOfSmall(z: int, N: nat, i: nat)
    requires 0 <= z < Pow2(N) && i >= N
    ensures TBit(z, i) == 0
  {
    Pow2Mono(N, i);
    DivModUnique(z, Pow2(i), 0, z);
  }

  lemma {:induction false} TBitCong(z: int, y: int, N: nat, i: nat)
    requires Cong(z, y, Pow2(N)) && i < N
    ensures TBit(z, i) == TBit(y, i)
    decreases i
  {
    HalfCong(z, y, N);
    if i == 0 {
      TBitZero(z);
      TBitZero(y);
    } else {
      TBitHalf(z, i);
      TBitHalf(y, i);
      TBitCong(z / 2, y / 2, N - 1, i - 1);
    }
  }

  /** `z` is the bitwise OR of `x` and `y` in infinite two's complement. */
  ghost predicate IsOr(z: int, x: int, y: int) {
    forall i: nat {:trigger TBit(z, i)} :: TBit(z, i) == if TBit(x, i) == 1 || TBit(y, i) == 1 then 1 else 0
  }

  /** If `y` is negative and fits `N` bits, then so does the OR with any number. */
  lemma OrWithNegative(x: int, y: int, N: nat)
    requires y < 0 < y + Pow2(N)
    ensures var z := Or(x, y, N); 0 < z < Pow2(N) && IsOr(z - Pow2(N), x, y)
  {
    var P: int, z: int := Pow2(N), Or(x, y, N);
    OrRange(x, y, N);
    CongIntro(y + P, y, P, 1);
    OrLowBits(x, y + P, x, y, N);
    OrAbove(x, y + P, N);
    CongIntro(z - P, z, P, -1);
    forall i: nat ensures TBit(z - P, i) == if TBit(x, i) == 1 || TBit(y, i) == 1 then 1 else 0 {
      if i < N {
        TBitCong(z - P, z, N, i);
        OrBit(x, y, N, i);
      } else {
        TBitOfNegative(y, N, i);
        TBitOfNegative(z - P, N, i);
      }
    }
  }

  /** Two numbers that are not negative. */
  lemma OrOfPositives(x: nat, y: nat, N: nat)
    requires x < Pow2(N) && y < Pow2(N)
    ensures IsOr(Or(x, y, N), x, y)
  {
    var z := Or(x, y, N);
    OrRange(x, y, N);
    forall i: nat ensures TBit(z, i) == if TBit(x, i) == 1 || TBit(y, i) == 1 then 1 else 0 {
      if i < N {
        OrBit(x, y, N, i);
      } else {
        TBitOfSmall(x, N, i);
        TBitOfSmall(y, N, i);
        TBitOfSmall(z, N, i);
      }
    }
  }

  /** The bits determine the number: there is only one OR. */
  lemma {:induction false} BitsDetermine(y: int, z: int, n: nat)
    requires forall i: nat :: TBit(y, i) == TBit(z, i)
    requires y < Pow2(n) && z < Pow2(n) && y + Pow2(n) >= 0 && z + Pow2(n) >= 0
    ensures y == z
    decreases n
  {
    assert TBit(y, 0) == TBit(z, 0);
    TBitZero(y);
    TBitZero(z);
    if n == 0 {
      assert Pow2(0) == 1;
    } else {
      Pow2Step(n);
      forall i: nat ensures TBit(y / 2, i) == TBit(z / 2, i) {
        TBitHalf(y, i + 1);
        TBitHalf(z, i + 1);
        assert TBit(y, i + 1) == TBit(z, i + 1);
      }
      BitsDetermine(y / 2, z / 2, n - 1);
    }
  }

  // ----- words -----

  /** The words, extended by ones or zeros, are the two's complement form of `X`. */
  ghost predicate Represents(ws: seq<nat>, ones: bool, X: int, w: nat) {
    && IsWords(ws, w)
    && X == Val(ws, w) - (if ones then Pow2(w * |ws|) else 0)
  }

  /** Word `i` of an extended word sequence, as the macro of the word loop reads it. */
  function Extended(ws: seq<nat>, ones: bool, w: nat, i: nat): nat {
    if i < |ws| then ws[i] else if ones then Pow2(w) - 1 else 0
  }

  ghost function Rest(ws: seq<nat>): seq<nat> {
    if ws == [] then [] else ws[1..]
  }

  /** The first word and the rest of a representation. */
  lemma RepresentsRest(ws: seq<nat>, ones: bool, X: int, w: nat)
    requires Represents(ws, ones, X, w)
    ensures X % Pow2(w) == Extended(ws, ones, w, 0)
    ensures Represents(Rest(ws), ones, X / Pow2(w), w)
  {
    var B := Pow2(w);
    if ws == [] {
      assert Pow2(w * 0) == 1;
      if ones {
        DivModUnique(X, B, -1, B - 1);
      } else {
        DivModUnique(X, B, 0, 0);
      }
    } else {
      MulDist(w, |ws| - 1, 1);
      Pow2Add(w, w * (|ws| - 1));
      var hi: int, H: int := Val(ws[1..], w), if ones then Pow2(w * (|ws| - 1)) else 0;
      MulDist(B, hi, H);
      DivModUnique(X, B, hi - H, ws[0]);
    }
  }

  lemma ExtendedRest(ws: seq<nat>, ones: bool, w: nat, i: nat)
    ensures Extended(ws, ones, w, i + 1) == Extended(Rest(ws), ones, w, i)
  {
  }

  /** Word-wise OR of two extended sequences is the OR of the numbers they represent. */
  lemma {:induction false} WordsOr(z: seq<nat>, xs: seq<nat>, xones: bool, X: int, ys: seq<nat>, yones: bool, Y: int,
      w: nat)
    requires Represents(xs, xones, X, w) && Represents(ys, yones, Y, w)
    requires forall i :: 0 <= i < |z| ==> z[i] == Or(Extended(xs, xones, w, i), Extended(ys, yones, w, i), w)
    ensures IsWords(z, w) && Val(z, w) == Or(X, Y, w * |z|)
    decreases |z|
  {
    if z != [] {
      var B, n := Pow2(w), |z| - 1;
      RepresentsRest(xs, xones, X, w);
      RepresentsRest(ys, yones, Y, w);
      forall i | 0 <= i < n ensures z[1..][i] ==
          Or(Extended(Rest(xs), xones, w, i), Extended(Rest(ys), yones, w, i), w) {
        ExtendedRest(xs, xones, w, i);
        ExtendedRest(ys, yones, w, i);
      }
      WordsOr(z[1..], Rest(xs), xones, X / B, Rest(ys), yones, Y / B, w);
      MulDist(w, n, 1);
      OrSplits(X, Y, w, w * n);
      CongMod(X, B);
      CongMod(Y, B);
      OrLowBits(X % B, Y % B, X, Y, w);
      OrRange(X, Y, w);
      forall i | 0 <= i < |z| ensures z[i] < B {
        assert i > 0 ==> z[i] == z[1..][i - 1];
      }
    }
  }

  // ----- the loops -----

  /** One word of the complement, with its carry. */
  lemma ComplementStep(v: int, u: int, P: int, B: int, c: int, c': int, d: int, a: int)
    requires v + c * P == P - u && d + c' * B == B - 1 - a + c
    ensures v + d * P + c' * (B * P) == B * P - (u + a * P)
  {
  }

  /** `mp_2scmpl`: complements every word and adds one, in place. */
  method TwosComplement(p: array<nat>, w: nat)
    requires IsWords(p[..], w) && Val(p[..], w) > 0
    modifies p
    ensures IsWords(p[..], w) && Val(p[..], w) == Pow2(w * p.Length) - Val(old(p[..]), w)
  {
    var B, c := Pow2(w), 1;
    ghost var was := p[..];
    assert Pow2(w * 0) == 1 && p[..0] == [] && was[..0] == [];
    for i := 0 to p.Length
      invariant 0 <= c <= 1
      invariant IsWords(p[..i], w) && p[i..] == was[i..]
      invariant Val(p[..i], w) + c * Pow2(w * i) == Pow2(w * i) - Val(was[..i], w)
    {
      ghost var before := p[..i];
      assert p[i] == p[i..][0] == was[i];
      var x := B - 1 - p[i];
      var d: nat := if x + c == B then 0 else x + c;
      var c' := if x + c == B then 1 else 0;
      p[i] := d;
      assert p[..i + 1] == before + [d] && was[..i + 1] == was[..i] + [was[i]];
      assert p[i + 1..] == was[i + 1..];
      ValAppend(before, d, w);
      ValAppend(was[..i], was[i], w);
      MulDist(w, i, 1);
      Pow2Add(w, w * i);
      ComplementStep(Val(before, w), Val(was[..i], w), Pow2(w * i), B, c, c', d, was[i]);
      c := c';
    }
    assert p[..p.Length] == p[..] && was[..p.Length] == was;
    ValRange(p[..], w);
  }

  /** The word loop of `bignum_ior`, from the top word down. */
  method IorWords(z: array<nat>, xs: seq<nat>, xones: bool, ys: seq<nat>, yones: bool, w: nat)
    modifies z
    ensures forall i :: 0 <= i < z.Length ==> z[i] == Or(Extended(xs, xones, w, i), Extended(ys, yones, w, i), w)
  {
    for i := z.Length downto 0
      invariant forall j :: i <= j < z.Length ==> z[j] == Or(Extended(xs, xones, w, j), Extended(ys, yones, w, j), w)
    {
      z[i] := Or(Extended(xs, xones, w, i), Extended(ys, yones, w, i), w);
    }
  }

  /** A sign and the words of the magnitude. */
  datatype Big = Big(sign: int, words: seq<nat>) {
    ghost predicate Valid(w: nat) {
      && IsWords(words, w)
      && (sign == 0 || sign == 1 || sign == -1)
      && (sign != 0 ==> Val(words, w) > 0)
    }

    function Value(w: nat): int {
      sign * Val(words, w)
    }
  }

  /** The two's complement words of a negative number. */
  method NegativeWords(x: Big, w: nat) returns (ws: seq<nat>)
    requires x.Valid(w) && x.sign == -1
    ensures |ws| == |x.words| && Represents(ws, true, x.Value(w), w)
  {
    var a := new nat[|x.words|](i requires 0 <= i < |x.words| => x.words[i]);
    assert a[..] == x.words;
    TwosComplement(a, w);
    ws := a[..];
  }

  /** Combines, and turns a negative result back into sign and magnitude. */
  method NegativeIor(n: nat, xs: seq<nat>, xones: bool, ghost X: int, ys: seq<nat>, yones: bool, ghost Y: int,
      w: nat) returns (z: Big)
    requires Represents(xs, xones, X, w) && Represents(ys, yones, Y, w)
    requires (Y < 0 < Y + Pow2(w * n)) || (X < 0 < X + Pow2(w * n))
    ensures |z.words| == n && z.Valid(w) && z.sign == -1 && IsOr(z.Value(w), X, Y)
  {
    var a := new nat[n];
    IorWords(a, xs, xones, ys, yones, w);
    WordsOr(a[..], xs, xones, X, ys, yones, Y, w);
    if Y < 0 < Y + Pow2(w * n) {
      OrWithNegative(X, Y, w * n);
    } else {
      OrWithNegative(Y, X, w * n);
      OrSwaps(X, Y, w * n);
      OrIsSymmetric(Or(X, Y, w * n) - Pow2(w * n), Y, X);
    }
    TwosComplement(a, w);
    z := Big(-1, a[..]);
  }

  lemma OrIsSymmetric(z: int, x: int, y: int)
    requires IsOr(z, x, y)
    ensures IsOr(z, y, x)
  {
  }

  lemma OrWithZero(x: int)
    ensures IsOr(x, x, 0) && IsOr(x, 0, x)
  {
  }

  lemma MagnitudeRepresents(x: Big, w: nat)
    requires x.Valid(w) && x.sign == 1
    ensures Represents(x.words, false, x.Value(w), w)
  {
  }

  /** `Sg_BignumLogIor`: the OR of any two signed numbers, in as many words as the source allocates. */
  method BignumLogIor(x: Big, y: Big, w: nat) returns (z: Big)
    requires x.Valid(w) && y.Valid(w)
    ensures z.Valid(w) && IsOr(z.Value(w), x.Value(w), y.Value(w))
  {
    if x.sign == 0 || y.sign == 0 {
      OrWithZero(x.Value(w));
      OrWithZero(y.Value(w));
      return if x.sign != 0 then x else y;
    }
    ghost var X, Y := x.Value(w), y.Value(w);
    ValRange(x.words, w);
    ValRange(y.words, w);
    if x.sign == 1 && y.sign == 1 {
      z := PositiveIor(x, y, w);
    } else if x.sign == 1 {
      var yy := NegativeWords(y, w);
      MagnitudeRepresents(x, w);
      z := NegativeIor(|y.words|, x.words, false, X, yy, true, Y, w);
    } else if y.sign == 1 {
      var xx := NegativeWords(x, w);
      MagnitudeRepresents(y, w);
      z := NegativeIor(|x.words|, xx, true, X, y.words, false, Y, w);
    } else {
      var xx := NegativeWords(x, w);
      var yy := NegativeWords(y, w);
      z := NegativeIor(if |x.words| < |y.words| then |x.words| else |y.words|, xx, true, X, yy, true, Y, w);
    }
  }

  method PositiveIor(x: Big, y: Big, w: nat) returns (z: Big)
    requires x.Valid(w) && y.Valid(w) && x.sign == 1 && y.sign == 1
    ensures z.Valid(w) && IsOr(z.Value(w), x.Value(w), y.Value(w))
  {
    var n := if |x.words| < |y.words| then |y.words| else |x.words|;
    var a := new nat[n];
    ghost var X, Y := x.Value(w), y.Value(w);
    IorWords(a, x.words, false, y.words, false, w);
    MagnitudeRepresents(x, w);
    MagnitudeRepresents(y, w);
    WordsOr(a[..], x.words, false, X, y.words, false, Y, w);
    FitsIn(x.words, w, n);
    FitsIn(y.words, w, n);
    OrOfPositives(X, Y, w * n);
    OrAbove(X, Y, w * n);
    z := Big(1, a[..]);
  }
}
