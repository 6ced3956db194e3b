/** Printing and reading numbers in a radix (src/bignum.c, src/number.c). */
module Radix {
  import opened Arith
  import opened Modular
  import opened Words

  // ----- digits -----

  /** The digits of `n`, most significant first; none for zero. */
  function Digits(n: nat, r: nat): (ds: seq<nat>)
    requires r >= 2
    decreases n
  {
    if n == 0 then [] else
      Quotient(n, r);
      Digits(n / r, r) + [n % r]
  }

  function Undigits(ds: seq<nat>, r: nat): (n: nat)
    requires r > 0
  {
    if ds == [] then 0 else
      var hi: nat := Undigits(ds[..|ds| - 1], r);
      MulMono(r, 0, hi);
      hi * r + ds[|ds| - 1]
  }

  ghost predicate AreDigits(ds: seq<nat>, r: nat) {
    forall i :: 0 <= i < |ds| ==> ds[i] < r
  }

  lemma Quotient(n: nat, r: nat)
    requires r >= 2
    ensures n / r >= 0 && 0 <= n % r < r && n == n / r * r + n % r
    ensures n > 0 ==> n / r < n
  {
  }

  lemma {:induction false} DigitsRoundTrip(n: nat, r: nat)
    requires r >= 2
    ensures Undigits(Digits(n, r), r) == n && AreDigits(Digits(n, r), r)
    decreases n
  {
    if n > 0 {
      Quotient(n, r);
      DigitsRoundTrip(n / r, r);
      var hi := Digits(n / r, r);
      assert (hi + [n % r])[..|hi|] == hi;
    }
  }

  /** Leading zeros up to `count` digits. */
  function Pad(ds: seq<nat>, count: int): seq<nat> {
    if |ds| < count then seq(count - |ds|, _ => 0) + ds else ds
  }

  // ----- splitting a number -----

  lemma ModOfSplit(q: nat, rem: nat, r: nat, e: nat)
    requires r >= 2 && e > 0 && rem < Pow(r, e)
    ensures var n := q * Pow(r, e) + rem;
      && n >= 0 && n % r == rem % r
      && rem / r >= 0 && rem / r < Pow(r, e - 1)
      && n / r == q * Pow(r, e - 1) + rem / r
  {
    PowPositive(r, e);
    PowPositive(r, e - 1);
    var n, P := q * Pow(r, e) + rem, Pow(r, e - 1);
    MulMono(Pow(r, e), 0, q);
    Quotient(rem, r);
    SplitProducts(q, rem, r, P, rem / r, rem % r);
    DivModUnique(n, r, q * P + rem / r, rem % r);
  }

  lemma SplitProducts(q: nat, rem: nat, r: nat, P: nat, d: int, m: int)
    requires rem == d * r + m && 0 <= m < r && rem < r * P
    ensures d < P && q * (r * P) + rem == r * (q * P + d) + m
  {
    MulAssoc(q, r, P);
    MulAssoc(r, q, P);
    MulDist(r, q * P, d);
    if d >= P {
      MulMono(r, P, d);
    }
  }

  lemma {:induction false} DigitsAreFew(n: nat, r: nat, e: nat)
    requires r >= 2 && n < Pow(r, e)
    ensures |Digits(n, r)| <= e
    decreases e
  {
    if n > 0 {
      assert e > 0;
      ModOfSplit(0, n, r, e);
      DigitsAreFew(n / r, r, e - 1);
    }
  }

  /** The digits of a number are those of its quotient by r^e, then those of the remainder, padded. */
  lemma {:induction false} DigitsSplit(q: nat, rem: nat, r: nat, e: nat)
    requires r >= 2 && q > 0 && rem < Pow(r, e)
    ensures q * Pow(r, e) + rem > 0
    ensures Digits(q * Pow(r, e) + rem, r) == Digits(q, r) + Pad(Digits(rem, r), e)
    decreases e
  {
    PowPositive(r, e);
    MulMono(Pow(r, e), 1, q);
    var n := q * Pow(r, e) + rem;
    if e > 0 {
      ModOfSplit(q, rem, r, e);
      DigitsSplit(q, rem / r, r, e - 1);
      DigitsAreFew(rem / r, r, e - 1);
      PadSnoc(rem, r, e);
      assert Digits(n, r) == Digits(n / r, r) + [n % r];
      assert Digits(n, r) == Digits(q, r) + (Pad(Digits(rem / r, r), e - 1) + [rem % r]);
    } else {
      assert n == q && Pad(Digits(rem, r), e) == [];
    }
  }

  lemma PadSnoc(rem: nat, r: nat, e: nat)
    requires r >= 2 && e > 0 && |Digits(rem / r, r)| <= e - 1
    requires rem / r >= 0
    ensures Pad(Digits(rem, r), e) == Pad(Digits(rem / r, r), e - 1) + [rem % r]
  {
  }

  /** The same under padding: the left part takes what is left of the width. */
  lemma PaddedSplit(b: nat, q: nat, rem: nat, r: nat, e: nat, count: int)
    requires r >= 2 && q > 0 && rem < Pow(r, e) && b == q * Pow(r, e) + rem
    ensures Pad(Digits(b, r), count) == Pad(Digits(q, r), count - e) + Pad(Digits(rem, r), e)
  {
    DigitsSplit(q, rem, r, e);
    DigitsAreFew(rem, r, e);
  }

  // ----- repeated short division -----

  /** One word of the division: the quotient fits a word because the remainder is below the divisor. */
  lemma ShortStep(B: nat, d: nat, rem: nat, word: nat, Q: nat, hi: nat)
    requires B > 0 && d > 0 && rem < d && word < B && hi == Q * d + rem
    ensures var e := rem * B + word; var q := e / d;
      && 0 <= q < B && 0 <= e % d < d
      && word + B * hi == (q + B * Q) * d + e % d
  {
    MulMono(B, 0, rem);
    var e := rem * B + word;
    var q, m := e / d, e % d;
    assert e == d * q + m;
    if q >= B {
      MulMono(d, B, q);
      MulMono(B, rem, d - 1);
      MulDist(B, d, 1);
    }
    if q < 0 {
      MulMono(d, q, -1);
    }
    MulDist(d, q, B * Q);
    MulAssoc(B, Q, d);
    MulDist(B, Q * d, rem);
  }

  /** `bignum_sdiv_rec`: divides the words in place, from the top word down. */
  method ShortDiv(a: array<nat>, d: nat, w: nat, ghost size: nat) returns (rem: nat)
    requires d > 0 && IsWords(a[..], w) && forall i :: size <= i < a.Length ==> a[i] == 0
    modifies a
    ensures IsWords(a[..], w) && rem < d && Val(old(a[..]), w) == Val(a[..], w) * d + rem
    ensures forall i :: size <= i < a.Length ==> a[i] == 0
  {
    rem := 0;
    ghost var was := a[..];
    for n := a.Length downto 0
      invariant a[..n] == was[..n] && IsWords(a[n..], w) && rem < d
      invariant (forall i :: size <= i < a.Length ==> a[i] == 0) && (n >= size ==> rem == 0)
      invariant Val(was[n..], w) == Val(a[n..], w) * d + rem
    {
      assert a[n] == a[..n + 1][n] == was[n];
      ghost var Q, hi := Val(a[n + 1..], w), Val(was[n + 1..], w);
      ghost var above := a[n + 1..];
      ShortStep(Pow2(w), d, rem, a[n], Q, hi);
      MulMono(Pow2(w), 0, rem);
      var e := rem * Pow2(w) + a[n];
      if n >= size {
        DivModUnique(e, d, 0, 0);
      }
      var q := e / d;
      rem := e % d;
      a[n] := q;
      assert a[n..][1..] == a[n + 1..] == above && was[n..][1..] == was[n + 1..];
    }
    assert a[0..] == a[..] && was[0..] == was;
  }

  /** Drops leading zero words. */
  method Trim(a: array<nat>, size0: nat, ghost w: nat) returns (size: nat)
    requires size0 <= a.Length && forall i :: size0 <= i < a.Length ==> a[i] == 0
    ensures size <= size0 && forall i :: size <= i < a.Length ==> a[i] == 0
    ensures size > 0 <==> Val(a[..], w) > 0
  {
    size := size0;
    while size > 0 && a[size - 1] == 0
      invariant size <= size0 && forall i :: size <= i < a.Length ==> a[i] == 0
    {
      size := size - 1;
    }
    if size > 0 {
      ValOfNonzero(a[..], w, size - 1);
    } else {
      ValOfZeros(a[..], w);
    }
  }

  /** What one division takes off the digits. */
  lemma DigitsStep(n: nat, r: nat, q: nat, rem: nat)
    requires r >= 2 && n == q * r + rem && rem < r && n > 0
    ensures Digits(n, r) == Digits(q, r) + [rem]
  {
    assert q * r == r * q;
    DivModUnique(n, r, q, rem);
  }

  /** `calc_string_size`: how many digits the number has, by dividing it away. */
  method CalcStringSize(q: array<nat>, radix: nat, w: nat) returns (count: nat)
    requires radix >= 2 && IsWords(q[..], w) && (q.Length > 0 ==> Val(q[..], w) > 0)
    modifies q
    ensures count == |Digits(Val(old(q[..]), w), radix)|
  {
    count := 0;
    var size: nat := q.Length;
    ghost var all := Digits(Val(q[..], w), radix);
    if size == 0 {
      ValOfZeros(q[..], w);
    }
    while size > 0
      invariant IsWords(q[..], w) && size <= q.Length && forall i :: size <= i < q.Length ==> q[i] == 0
      invariant size > 0 <==> Val(q[..], w) > 0
      invariant |all| == |Digits(Val(q[..], w), radix)| + count
      decreases Val(q[..], w)
    {
      ghost var n := Val(q[..], w);
      var rem := ShortDiv(q, radix, w, size);
      DigitsStep(n, radix, Val(q[..], w), rem);
      QuotientSmaller(n, radix, Val(q[..], w), rem);
      count := count + 1;
      size := Trim(q, size, w);
    }
  }

  lemma QuotientSmaller(n: nat, r: nat, q: nat, rem: nat)
    requires r >= 2 && n == q * r + rem && n > 0
    ensures q < n
  {
  }

  /** `small_bignum_to_string`, on digit values: the remainders fill the result from the right. */
  method SmallToDigits(words: seq<nat>, radix: nat, w: nat) returns (rs: seq<nat>)
    requires radix >= 2 && IsWords(words, w) && (|words| > 0 ==> Val(words, w) > 0)
    ensures rs == Digits(Val(words, w), radix)
  {
    var q := new nat[|words|](i requires 0 <= i < |words| => words[i]);
    assert q[..] == words;
    var count := CalcStringSize(q, radix, w);
    forall i | 0 <= i < |words| {
      q[i] := words[i];
    }
    assert q[..] == words;
    var out := new nat[count];
    ghost var all := Digits(Val(words, w), radix);
    var size: nat, i := q.Length, count;
    if size == 0 {
      ValOfZeros(q[..], w);
    }
    while size > 0
      invariant IsWords(q[..], w) && size <= q.Length && forall i :: size <= i < q.Length ==> q[i] == 0
      invariant size > 0 <==> Val(q[..], w) > 0
      invariant 0 <= i <= count && all == Digits(Val(q[..], w), radix) + out[i..]
      decreases Val(q[..], w)
    {
      ghost var n, tail := Val(q[..], w), out[i..];
      var rem := ShortDiv(q, radix, w, size);
      DigitsStep(n, radix, Val(q[..], w), rem);
      QuotientSmaller(n, radix, Val(q[..], w), rem);
      i := i - 1;
      out[i] := rem;
      assert out[i..] == [rem] + tail;
      size := Trim(q, size, w);
    }
    assert out[i..] == all && i == 0;
    rs := out[..];
    assert out[0..] == out[..];
  }

  // ----- divide and conquer -----

  /** The words of a number, without leading zeros. */
  function WordsOf(n: nat, w: nat): seq<nat>
    requires w > 0
  {
    if n == 0 then [] else
      WordSplit(n, Pow2(w), w);
      [n % Pow2(w)] + WordsOf(n / Pow2(w), w)
  }

  lemma WordSplit(n: nat, p: nat, w: nat)
    requires w > 0 && p == Pow2(w) && n > 0
    ensures p >= 2 && 0 <= n / p < n && 0 <= n % p < p && n == n % p + p * (n / p)
  {
    assert Pow2(w) == 2 * Pow2(w - 1);
    DivSmaller(n, p);
  }

  lemma DivSmaller(n: nat, p: nat)
    requires p >= 2 && n > 0
    ensures 0 <= n / p < n && 0 <= n % p < p && n == n % p + p * (n / p)
  {
  }

  lemma {:induction false} WordsOfValue(n: nat, w: nat)
    requires w > 0
    ensures IsWords(WordsOf(n, w), w) && Val(WordsOf(n, w), w) == n
  {
    if n > 0 {
      WordSplit(n, Pow2(w), w);
      WordsOfValue(n / Pow2(w), w);
      var ws := WordsOf(n, w);
      assert ws[1..] == WordsOf(n / Pow2(w), w);
    }
  }

  /** A split estimate is usable when r^(2^n) does not exceed the number. */
  ghost predicate IsSplit(split: nat -> nat, r: nat, small: nat) {
    forall b: nat {:trigger split(b)} :: b >= small && b > 0 ==> Pow(r, Pow2(split(b))) <= b
  }

  lemma SplitSmaller(b: nat, v: nat)
    requires 2 <= v <= b
    ensures 0 < b / v < b && 0 <= b % v < v && b == b / v * v + b % v
  {
  }

  lemma PowAtLeastTwo(r: nat, e: nat)
    requires r >= 2 && e > 0
    ensures Pow(r, e) >= 2
  {
  }

  /** `schonehage_to_string`: numbers below `small` are converted by short division, others are split at
      r^(2^n) for any usable estimate `n`.  The zeros in front of a part are written only after the first
      digit is out, and the widths make that test agree with plain padding. */
  method Schonehage(b: nat, out: seq<nat>, radix: nat, count: int, split: nat -> nat, small: nat,
      w: nat) returns (out': seq<nat>)
    requires radix >= 2 && w > 0 && small > 0 && IsSplit(split, radix, small)
    requires out == [] ==> count <= 0
    requires count > 0 ==> b < Pow(radix, count)
    ensures out' == out + Pad(Digits(b, radix), count)
    decreases b
  {
    if b < small {
      WordsOfValue(b, w);
      var r := SmallToDigits(WordsOf(b, w), radix, w);
      out' := out;
      if |r| < count && |out| > 0 {
        for i := |r| to count
          invariant out' == out + seq(i - |r|, _ => 0)
        {
          out' := out' + [0];
        }
      }
      out' := out' + r;
      return;
    }
    var n := split(b);
    var e := Pow2(n);
    assert Pow(radix, e) <= b;
    PowAtLeastTwo(radix, e);
    var v := Pow(radix, e);
    SplitSmaller(b, v);
    var q, rem := b / v, b % v;
    PaddedSplit(b, q, rem, radix, e, count);
    QuotientFits(b, q, rem, radix, e, count);
    var mid := Schonehage(q, out, radix, count - e, split, small, w);
    assert mid != [] by { assert Digits(q, radix) != []; }
    out' := Schonehage(rem, mid, radix, e, split, small, w);
    assert out + Pad(Digits(q, radix), count - e) + Pad(Digits(rem, radix), e) == out + Pad(Digits(b, radix), count);
  }

  /** The left part fits what is left of the width, if anything is. */
  lemma QuotientFits(b: nat, q: nat, rem: nat, r: nat, e: nat, count: int)
    requires r >= 2 && b == q * Pow(r, e) + rem
    requires count > 0 ==> b < Pow(r, count)
    ensures count - e > 0 ==> q < Pow(r, count - e)
  {
    if count - e > 0 && q >= Pow(r, count - e) {
      PowPositive(r, e);
      PowAdd(r, count - e, e);
      MulMono(Pow(r, e), Pow(r, count - e), q);
    }
  }

  /** `Sg_BignumToString` without the sign: divide and conquer gives the digits of repeated division. */
  method ToDigits(b: nat, radix: nat, split: nat -> nat, small: nat, w: nat) returns (ds: seq<nat>)
    requires radix >= 2 && w > 0 && small > 0 && IsSplit(split, radix, small) && b > 0
    ensures ds == Digits(b, radix)
  {
    ds := Schonehage(b, [], radix, 0, split, small, w);
  }

  // ----- characters -----

  const TABLE := "0123456789abcdefghijklmnopqrstuvwxyz"

  function Lower(c: char): char {
    if 'A' <= c <= 'Z' then c - 'A' + 'a' else c
  }

  /** The value of a digit character in the radix, if it is one. */
  function DigitValue(c: char, radix: nat): (d: int)
    ensures -1 <= d && (radix <= 36 ==> d < radix || d == -1)
  {
    var l := Lower(c);
    var d := if '0' <= l <= '9' then (l - '0') as int else if 'a' <= l <= 'z' then (l - 'a') as int + 10 else -1;
    if d < radix then d else -1
  }

  function Characters(ds: seq<nat>, radix: nat): (s: string)
    requires radix <= 36 && forall i :: 0 <= i < |ds| ==> ds[i] < radix
    ensures |s| == |ds|
  {
    seq(|ds|, i requires 0 <= i < |ds| => TABLE[ds[i]])
  }

  lemma DigitValueOfTable(d: nat, radix: nat)
    requires d < radix <= 36
    ensures DigitValue(TABLE[d], radix) == d && TABLE[d] != '#'
  {
  }

  // ----- reading -----

  /** The limits of `Sg__InitNumber` for one radix: after `diglimit` digits one more still fits. */
  datatype Limits = Limits(limit: nat, diglimit: nat, bigdig: nat) {
    ghost predicate Valid(radix: nat, wordMax: nat) {
      && 0 < limit && limit * radix + radix <= wordMax + 1
      && bigdig == Pow(radix, diglimit + 1) && bigdig <= wordMax
    }
  }

  lemma BoundIsLarge(longMax: nat, radix: nat, bound: int)
    requires 2 <= radix && 2 * radix <= longMax && bound == longMax / radix
    ensures 1 < bound && radix * bound <= longMax
  {
  }

  /** `longlimit` is the floor of a floating-point quotient, which may lie a little above the exact one: a double
      is right to far more than one part in 1024. */
  ghost predicate IsRoundedLimit(limit: nat, radix: nat, longMax: nat) {
    0 < limit && limit * radix <= longMax + longMax / 1024
  }

  /** The largest word of a platform whose largest long is `longMax`. */
  ghost function WordMax(longMax: nat): nat {
    2 * longMax + 1
  }

  /** The loop of `Sg__InitNumber` that fills `longdigs` and `bigdig`, with the limit of the radix. */
  method InitLimits(radix: nat, longMax: nat, limit: nat) returns (l: Limits)
    requires 2 <= radix <= 36 && 0x7FFF_FFFF <= longMax && IsRoundedLimit(limit, radix, longMax)
    ensures l.Valid(radix, WordMax(longMax)) && l.limit == limit
  {
    var i, n, bound := 0, 1, longMax / radix;
    BoundIsLarge(longMax, radix, bound);
    while n < bound
      invariant i >= 0 && n == Pow(radix, i) && 1 <= n <= longMax && (n == 1 || i > 0)
      decreases longMax - n
    {
      MulMono(radix, n, bound);
      MulMono(n, 2, radix);
      i, n := i + 1, n * radix;
    }
    l := Limits(limit, i - 1, n);
  }

  /** The digits at the front of the text.  Once a digit was seen, `#` stands for zero, and then only
      further `#` may follow. */
  function Scan(str: string, radix: nat, digread: bool, padread: bool): (ds: seq<nat>)
    ensures |ds| <= |str|
  {
    if str == [] then []
    else
      var (d, digread', padread') := NextDigit(str[0], radix, digread, padread);
      if d < 0 then [] else [d] + Scan(str[1..], radix, digread', padread')
  }

  /** The digit at a character, or a negative number, and the flags after it. */
  function NextDigit(c: char, radix: nat, digread: bool, padread: bool): (r: (int, bool, bool))
    ensures 2 <= radix <= 36 ==> r.0 < radix
  {
    if padread then (if c == '#' then 0 else -1, digread, true)
    else if digread && c == '#' then (0, true, true)
    else (DigitValue(c, radix), digread || DigitValue(c, radix) >= 0, false)
  }

  lemma {:induction false} ScanOfCharacters(ds: seq<nat>, radix: nat, digread: bool)
    requires radix <= 36 && AreDigits(ds, radix)
    ensures Scan(Characters(ds, radix), radix, digread, false) == ds
    decreases |ds|
  {
    if ds != [] {
      DigitValueOfTable(ds[0], radix);
      assert Characters(ds, radix)[1..] == Characters(ds[1..], radix);
      ScanOfCharacters(ds[1..], radix, true);
    }
  }

  /** The accumulator of `read_uint`: a word, and a big number once the word became too large. */
  datatype Acc = Acc(value: nat, digits: nat, hasBig: bool, big: nat) {
    ghost function Total(r: nat): int {
      if hasBig then big * Pow(r, digits) + value else value
    }

    ghost predicate Valid(r: nat, l: Limits) {
      if hasBig then digits <= l.diglimit && value < Pow(r, digits) else value <= l.limit
    }
  }

  /** One more digit does not overflow the word. */
  lemma NoOverflow(a: Acc, r: nat, l: Limits, wordMax: nat, d: nat)
    requires l.Valid(r, wordMax) && a.Valid(r, l) && d < r
    ensures a.value * r + d <= wordMax
    ensures a.hasBig ==> a.value * r + d < Pow(r, a.digits + 1)
  {
    if a.hasBig {
      MulMono(r, a.value, Pow(r, a.digits) - 1);
      MulDist(r, Pow(r, a.digits), 1);
      PowMono(r, a.digits + 1, l.diglimit + 1);
    } else {
      MulMono(r, a.value, l.limit);
    }
  }

  lemma {:induction false} PowMono(r: nat, m: nat, n: nat)
    requires r >= 1 && m <= n
    ensures Pow(r, m) <= Pow(r, n)
    decreases n
  {
    if m < n {
      PowMono(r, m, n - 1);
      PowPositive(r, n - 1);
      MulMono(Pow(r, n - 1), 1, r);
    }
  }

  /** One turn of the digit loop. */
  method AddDigit(a: Acc, r: nat, l: Limits, ghost wordMax: nat, d: nat) returns (a': Acc)
    requires r >= 2 && l.Valid(r, wordMax) && a.Valid(r, l) && d < r
    ensures a'.Valid(r, l) && a'.Total(r) == a.Total(r) * r + d
  {
    NoOverflow(a, r, l, wordMax, d);
    MulMono(r, 0, a.value);
    var value := a.value * r + d;
    assert value <= wordMax;
    var digits := a.digits + 1;
    AccStep(a.big, a.value, r, a.digits, d);
    if !a.hasBig {
      if value >= l.limit {
        a' := Acc(0, 0, true, value);
        assert Pow(r, 0) == 1;
      } else {
        a' := Acc(value, digits, false, 0);
      }
    } else if digits > l.diglimit {
      MulMono(l.bigdig, 0, a.big);
      a' := Acc(0, 0, true, a.big * l.bigdig + value);
      assert Pow(r, 0) == 1;
    } else {
      a' := Acc(value, digits, true, a.big);
    }
  }

  lemma AccStep(big: nat, value: nat, r: nat, digits: nat, d: nat)
    ensures (big * Pow(r, digits) + value) * r + d == big * Pow(r, digits + 1) + (value * r + d)
  {
  }

  /** The end of `read_uint`: what is left in the word is joined to the big number. */
  function Finish(a: Acc, r: nat): int {
    if !a.hasBig then a.value
    else if a.digits > 0 then a.big * Pow(r, a.digits) + a.value
    else a.big
  }

  lemma FinishIsTotal(a: Acc, r: nat, l: Limits)
    requires a.Valid(r, l)
    ensures Finish(a, r) == a.Total(r)
  {
  }

  /** The value of `ds` read onto `init`. */
  ghost function Onto(init: nat, ds: seq<nat>, r: nat): int {
    if ds == [] then init else Onto(init, ds[..|ds| - 1], r) * r + ds[|ds| - 1]
  }

  lemma {:induction false} OntoIs(init: nat, ds: seq<nat>, r: nat)
    requires r > 0
    ensures Onto(init, ds, r) == init * Pow(r, |ds|) + Undigits(ds, r)
    decreases |ds|
  {
    if ds != [] {
      var init', d := ds[..|ds| - 1], ds[|ds| - 1];
      OntoIs(init, init', r);
      AccStep(init, Undigits(init', r), r, |init'|, d);
    }
  }

  lemma {:induction false} OntoZeros(zeros: nat, r: nat)
    ensures Onto(0, seq(zeros, _ => 0), r) == 0
  {
    if zeros > 0 {
      OntoZeros(zeros - 1, r);
      assert seq(zeros, _ => 0)[..zeros - 1] == seq(zeros - 1, _ => 0);
    }
  }

  method AddDigitOnto(a: Acc, r: nat, l: Limits, ghost wordMax: nat, d: nat, ghost init: nat,
      ghost done: seq<nat>) returns (a': Acc)
    requires r >= 2 && l.Valid(r, wordMax) && a.Valid(r, l) && d < r && a.Total(r) == Onto(init, done, r)
    ensures a'.Valid(r, l) && a'.Total(r) == Onto(init, done + [d], r)
  {
    a' := AddDigit(a, r, l, wordMax, d);
    assert (done + [d])[..|done|] == done;
  }

  function LeadingZeros(str: string): (n: nat)
    ensures n <= |str|
  {
    if str == [] || str[0] != '0' then 0 else 1 + LeadingZeros(str[1..])
  }

  /** The digits `read_uint` takes: without an initial value, leading zeros first. */
  function Front(str: string, radix: nat, hasInit: bool, padread: bool): (ds: seq<nat>) {
    var z := if hasInit then 0 else LeadingZeros(str);
    seq(z, _ => 0) + Scan(str[z..], radix, hasInit || z > 0, padread)
  }

  /** While no `#` was read yet, taking the zeros first makes no difference. */
  lemma {:induction false} FrontIsScan(str: string, radix: nat, digread: bool)
    requires radix >= 2
    ensures var z := LeadingZeros(str);
      seq(z, _ => 0) + Scan(str[z..], radix, digread || z > 0, false) == Scan(str, radix, digread, false)
    decreases |str|
  {
    var z := LeadingZeros(str);
    if z > 0 {
      FrontIsScan(str[1..], radix, true);
      ZeroInFront(str, radix, digread, z);
    } else {
      assert str[0..] == str;
    }
  }

  lemma ZeroInFront(str: string, radix: nat, digread: bool, z: nat)
    requires radix >= 2 && str != [] && str[0] == '0' && 0 < z <= |str|
    requires seq(z - 1, _ => 0) + Scan(str[1..][z - 1..], radix, true, false) == Scan(str[1..], radix, true, false)
    ensures seq(z, _ => 0) + Scan(str[z..], radix, digread || z > 0, false) == Scan(str, radix, digread, false)
  {
    assert str[1..][z - 1..] == str[z..];
    assert NextDigit(str[0], radix, digread, false) == (0, true, false);
    assert seq(z, _ => 0) == [0] + seq(z - 1, _ => 0);
    var rest := Scan(str[z..], radix, true, false);
    assert ([0] + seq(z - 1, _ => 0)) + rest == [0] + (seq(z - 1, _ => 0) + rest);
  }

  // ----- numerals -----

  /** The character stands for the digit, in either case. */
  predicate IsDigitOf(c: char, d: nat) {
    if d < 10 then c as int == '0' as int + d
    else d < 36 && (c as int == 'a' as int + (d - 10) || c as int == 'A' as int + (d - 10))
  }

  /** Every character has the digit that it stands for as its value, if the radix has that digit. */
  lemma DigitValueIs(c: char, radix: nat, d: nat)
    requires radix <= 36
    ensures d < radix ==> (DigitValue(c, radix) == d <==> IsDigitOf(c, d))
    ensures DigitValue(c, radix) >= 0 ==> IsDigitOf(c, DigitValue(c, radix))
  {
  }

  ghost predicate IsNoDigit(c: char, radix: nat) {
    forall d: nat {:trigger IsDigitOf(c, d)} :: d < radix ==> !IsDigitOf(c, d)
  }

  lemma NoValueIs(c: char, radix: nat)
    requires radix <= 36
    ensures DigitValue(c, radix) < 0 <==> IsNoDigit(c, radix)
  {
    DigitValueIs(c, radix, 0);
    forall d: nat | d < radix && IsDigitOf(c, d) ensures DigitValue(c, radix) == d {
      DigitValueIs(c, radix, d);
    }
  }

  /** Digits are printed in lower case. */
  lemma TableIs(d: nat)
    requires d < 36
    ensures IsDigitOf(TABLE[d], d) && !('A' <= TABLE[d] <= 'Z')
  {
  }

  lemma CharactersAre(ds: seq<nat>, radix: nat)
    requires radix <= 36 && AreDigits(ds, radix)
    ensures forall i :: 0 <= i < |ds| ==>
        IsDigitOf(Characters(ds, radix)[i], ds[i]) && !('A' <= Characters(ds, radix)[i] <= 'Z')
  {
    forall i | 0 <= i < |ds|
      ensures IsDigitOf(Characters(ds, radix)[i], ds[i]) && !('A' <= Characters(ds, radix)[i] <= 'Z')
    {
      TableIs(ds[i]);
    }
  }

  /** The text starts with characters for the digits `ds` and with `pads` times `#`. */
  predicate StartsWith(str: string, ds: seq<nat>, pads: nat) {
    && |ds| + pads <= |str|
    && (forall i :: 0 <= i < |ds| ==> IsDigitOf(str[i], ds[i]))
    && (forall i :: |ds| <= i < |ds| + pads ==> str[i] == '#')
  }

  /** ... and goes on no further: what follows is not `#` where one may stand, and no digit where one may stand.  After
      `#` no digit may stand, and before the first digit no `#`. */
  ghost predicate IsNumeral(str: string, radix: nat, digread: bool, padread: bool, ds: seq<nat>, pads: nat) {
    && StartsWith(str, ds, pads) && AreDigits(ds, radix) && (padread ==> ds == [])
    && (pads > 0 ==> digread || padread || ds != [])
    && (|ds| + pads < |str| ==>
          var c := str[|ds| + pads];
          && (digread || padread || ds != [] ==> c != '#')
          && (padread || pads > 0 || IsNoDigit(c, radix)))
  }

  lemma {:induction false} ScanIsNumeral(str: string, radix: nat, digread: bool, padread: bool)
    returns (ds: seq<nat>, pads: nat)
    requires 2 <= radix <= 36
    ensures IsNumeral(str, radix, digread, padread, ds, pads)
    ensures Scan(str, radix, digread, padread) == ds + seq(pads, _ => 0)
    decreases |str|
  {
    ds, pads := [], 0;
    if str != [] {
      var (d, digread', padread') := NextDigit(str[0], radix, digread, padread);
      NoValueIs(str[0], radix);
      if d >= 0 {
        ds, pads := ScanIsNumeral(str[1..], radix, digread', padread');
        if padread' {
          PadInFront(str, radix, digread, padread, digread', ds, pads);
          pads := pads + 1;
        } else {
          DigitValueIs(str[0], radix, d);
          DigitInFront(str, radix, digread, d, ds, pads);
          ds := [d] + ds;
        }
      }
    }
  }

  lemma PadInFront(str: string, radix: nat, digread: bool, padread: bool, more: bool, ds: seq<nat>, pads: nat)
    requires str != [] && str[0] == '#' && (digread || padread) && IsNumeral(str[1..], radix, more, true, ds, pads)
    ensures IsNumeral(str, radix, digread, padread, ds, pads + 1)
    ensures [0] + (ds + seq(pads, _ => 0)) == ds + seq(pads + 1, _ => 0)
  {
    assert ds == [] && forall i {:trigger str[i]} :: 1 <= i < |str| ==> str[i] == str[1..][i - 1];
  }

  lemma DigitInFront(str: string, radix: nat, digread: bool, d: nat, ds: seq<nat>, pads: nat)
    requires str != [] && d < radix && IsDigitOf(str[0], d) && IsNumeral(str[1..], radix, true, false, ds, pads)
    ensures IsNumeral(str, radix, digread, false, [d] + ds, pads)
    ensures [d] + (ds + seq(pads, _ => 0)) == ([d] + ds) + seq(pads, _ => 0)
  {
    assert forall i {:trigger str[i]} :: 1 <= i < |str| ==> str[i] == str[1..][i - 1];
  }

  lemma SameDigit(c: char, d: nat, e: nat)
    requires IsDigitOf(c, d) && IsDigitOf(c, e)
    ensures d == e && c != '#'
  {
  }

  lemma NotFewerDigits(str: string, radix: nat, digread: bool, padread: bool, ds: seq<nat>, pads: nat, ds': seq<nat>,
      pads': nat)
    requires IsNumeral(str, radix, digread, padread, ds, pads) && IsNumeral(str, radix, digread, padread, ds', pads')
    ensures |ds'| <= |ds|
  {
    var n := |ds|;
    if n < |ds'| {
      SameDigit(str[n], ds'[n], ds'[n]);
    }
  }

  /** A text is a numeral in one way. */
  lemma NumeralIsUnique(str: string, radix: nat, digread: bool, padread: bool, ds: seq<nat>, pads: nat, ds': seq<nat>,
      pads': nat)
    requires IsNumeral(str, radix, digread, padread, ds, pads) && IsNumeral(str, radix, digread, padread, ds', pads')
    ensures ds == ds' && pads == pads'
  {
    NotFewerDigits(str, radix, digread, padread, ds, pads, ds', pads');
    NotFewerDigits(str, radix, digread, padread, ds', pads', ds, pads);
    forall i | 0 <= i < |ds| ensures ds[i] == ds'[i] {
      SameDigit(str[i], ds[i], ds'[i]);
    }
  }

  /** What `read_uint` takes.  Leading zeros are skipped even where only `#` may follow. */
  ghost predicate IsReadAs(str: string, radix: nat, hasInit: bool, padread: bool, ds: seq<nat>, pads: nat) {
    if padread && !hasInit then
      && StartsWith(str, ds, pads) && (forall i :: 0 <= i < |ds| ==> ds[i] == 0)
      && (|ds| + pads < |str| ==> var c := str[|ds| + pads]; c != '#' && (pads == 0 ==> c != '0'))
    else IsNumeral(str, radix, hasInit, padread, ds, pads)
  }

  lemma FrontIsRead(str: string, radix: nat, hasInit: bool, padread: bool) returns (ds: seq<nat>, pads: nat)
    requires 2 <= radix <= 36
    ensures IsReadAs(str, radix, hasInit, padread, ds, pads)
    ensures Front(str, radix, hasInit, padread) == ds + seq(pads, _ => 0)
  {
    if padread && !hasInit {
      var z := LeadingZeros(str);
      ZerosInFront(str);
      var none;
      none, pads := ScanIsNumeral(str[z..], radix, z > 0, padread);
      ds := seq(z, _ => 0);
      assert Front(str, radix, hasInit, padread) == ds + ([] + seq(pads, _ => 0));
      assert forall i {:trigger str[i]} :: z <= i < |str| ==> str[i] == str[z..][i - z];
    } else {
      ds, pads := ScanIsNumeral(str, radix, hasInit, padread);
      if !hasInit {
        FrontIsScan(str, radix, false);
      } else {
        assert str[0..] == str;
      }
    }
  }

  lemma {:induction false} ZerosInFront(str: string)
    ensures var z := LeadingZeros(str);
      (forall i :: 0 <= i < z ==> str[i] == '0') && (z < |str| ==> str[z] != '0')
    decreases |str|
  {
    if str != [] && str[0] == '0' {
      ZerosInFront(str[1..]);
      assert forall i {:trigger str[i]} :: 1 <= i < |str| ==> str[i] == str[1..][i - 1];
    }
  }

  lemma {:induction false} PaddedValue(ds: seq<nat>, pads: nat, r: nat)
    requires r > 0
    ensures Undigits(ds + seq(pads, _ => 0), r) == Undigits(ds, r) * Pow(r, pads)
    decreases pads
  {
    if pads == 0 {
      assert ds + seq(pads, _ => 0) == ds;
    } else {
      PaddedValue(ds, pads - 1, r);
      assert (ds + seq(pads, _ => 0))[..|ds| + pads - 1] == ds + seq(pads - 1, _ => 0);
      MulAssoc(Undigits(ds, r), Pow(r, pads - 1), r);
    }
  }

  method SkipZeros(str: string) returns (pos: nat)
    ensures pos == LeadingZeros(str)
  {
    pos := 0;
    assert str[0..] == str;
    while pos < |str| && str[pos] == '0'
      invariant pos <= |str| && LeadingZeros(str) == pos + LeadingZeros(str[pos..])
    {
      assert str[pos..][1..] == str[pos + 1..];
      pos := pos + 1;
    }
  }

  lemma ScanStep(str: string, pos: nat, radix: nat, digread: bool, padread: bool, done: seq<nat>)
    requires pos < |str|
    ensures var (d, digread', padread') := NextDigit(str[pos], radix, digread, padread);
            d >= 0 ==>
              done + Scan(str[pos..], radix, digread, padread) ==
              (done + [d]) + Scan(str[pos + 1..], radix, digread', padread')
  {
  }

  /** The main loop of `read_uint`. */
  method ReadDigits(str: string, radix: nat, l: Limits, ghost wordMax: nat, a0: Acc, ghost init: nat,
      ghost before: seq<nat>,
                    digread0: bool, padread0: bool)
    returns (a: Acc, pos: nat)
    requires 2 <= radix <= 36 && l.Valid(radix, wordMax) && a0.Valid(radix, l)
        && a0.Total(radix) == Onto(init, before, radix)
    ensures var ds := Scan(str, radix, digread0, padread0);
      pos == |ds| && a.Valid(radix, l) && a.Total(radix) == Onto(init, before + ds, radix)
  {
    ghost var all := Scan(str, radix, digread0, padread0);
    ghost var done: seq<nat> := [];
    var digread, padread := digread0, padread0;
    a, pos := a0, 0;
    assert str[0..] == str && before + done == before && done + all == all;
    while pos < |str|
      invariant pos <= |str| && a.Valid(radix, l) && |done| == pos
      invariant all == done + Scan(str[pos..], radix, digread, padread)
      invariant a.Total(radix) == Onto(init, before + done, radix)
    {
      var (d, digread', padread') := NextDigit(str[pos], radix, digread, padread);
      if d < 0 {
        break;
      }
      ScanStep(str, pos, radix, digread, padread, done);
      a := AddDigitOnto(a, radix, l, wordMax, d, init, before + done);
      digread, padread := digread', padread';
      assert before + (done + [d]) == before + done + [d];
      done := done + [d];
      pos := pos + 1;
    }
    assert all == done;
  }

  lemma PaddedOnto(init: nat, ds: seq<nat>, pads: nat, r: nat)
    requires r > 0
    ensures var all := ds + seq(pads, _ => 0);
      init * Pow(r, |all|) + Undigits(all, r) == (init * Pow(r, |ds|) + Undigits(ds, r)) * Pow(r, pads)
  {
    PaddedValue(ds, pads, r);
    PowAdd(r, |ds|, pads);
    PaddedProducts(init, Pow(r, |ds|), Undigits(ds, r), Pow(r, pads));
  }

  lemma PaddedProducts(init: int, a: int, b: int, p: int)
    ensures init * (a * p) + b * p == (init * a + b) * p
  {
  }

  /** `read_uint` in terms of the digits at the front. */
  method ReadFront(str: string, radix: nat, l: Limits, ghost wordMax: nat, hasInit: bool, init: nat, padread: bool)
    returns (value: int, consumed: nat)
    requires 2 <= radix <= 36 && l.Valid(radix, wordMax) && (!hasInit ==> init == 0)
    ensures var ds := Front(str, radix, hasInit, padread);
      consumed == |ds| && value == init * Pow(radix, |ds|) + Undigits(ds, radix)
  {
    var a := if init > l.limit then Acc(0, 0, true, init) else Acc(init, 0, false, 0);
    assert Pow(radix, 0) == 1;
    var zeros: nat := 0;
    if !hasInit {
      zeros := SkipZeros(str);
    }
    OntoZeros(zeros, radix);
    var pos;
    a, pos := ReadDigits(str[zeros..], radix, l, wordMax, a, init, seq(zeros, _ => 0), hasInit || zeros > 0, padread);
    FinishIsTotal(a, radix, l);
    OntoIs(init, Front(str, radix, hasInit, padread), radix);
    value := Finish(a, radix);
    consumed := zeros + pos;
  }

  /** `read_uint`: reads the digits at the front of the text, in either case and with `#` behind them, onto an optional
      initial value. */
  method ReadUint(str: string, radix: nat, l: Limits, ghost wordMax: nat, hasInit: bool, init: nat, padread: bool)
    returns (value: int, consumed: nat, ghost ds: seq<nat>, ghost pads: nat)
    requires 2 <= radix <= 36 && l.Valid(radix, wordMax) && (!hasInit ==> init == 0)
    ensures IsReadAs(str, radix, hasInit, padread, ds, pads) && consumed == |ds| + pads
    ensures value == (init * Pow(radix, |ds|) + Undigits(ds, radix)) * Pow(radix, pads)
  {
    value, consumed := ReadFront(str, radix, l, wordMax, hasInit, init, padread);
    ds, pads := FrontIsRead(str, radix, hasInit, padread);
    PaddedOnto(init, ds, pads, radix);
  }

  /** Reading the characters of a printed number gives it back, to the last character. */
  lemma ReadsBackPrinted(n: nat, radix: nat)
    requires 2 <= radix <= 36
    ensures AreDigits(Digits(n, radix), radix)
    ensures var s := Characters(Digits(n, radix), radix); var ds := Front(s, radix, false, false);
      |ds| == |s| && Undigits(ds, radix) == n
  {
    var ds := Digits(n, radix);
    DigitsRoundTrip(n, radix);
    ScanOfCharacters(ds, radix, false);
    FrontIsScan(Characters(ds, radix), radix, false);
  }

  /** The reader, under the limits that the platform computes, gives back every number that the printer writes. */
  method ReadBack(n: nat, radix: nat, split: nat -> nat, small: nat, w: nat, longMax: nat, limit: nat)
    returns (value: int, consumed: nat, text: string)
    requires 2 <= radix <= 36 && w > 0 && small > 0 && IsSplit(split, radix, small) && n > 0
    requires 0x7FFF_FFFF <= longMax && IsRoundedLimit(limit, radix, longMax)
    ensures value == n && consumed == |text| == |Digits(n, radix)|
    ensures forall i :: 0 <= i < |text| ==> IsDigitOf(text[i], Digits(n, radix)[i]) && !('A' <= text[i] <= 'Z')
  {
    var ds := ToDigits(n, radix, split, small, w);
    ReadsBackPrinted(n, radix);
    text := Characters(ds, radix);
    CharactersAre(ds, radix);
    var l := InitLimits(radix, longMax, limit);
    value, consumed := ReadFront(text, radix, l, WordMax(longMax), false, 0, false);
  }
}
