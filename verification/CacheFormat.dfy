/**
 The byte level of the compiled-code cache (src/cache.c): a tag byte followed by a
 word in little-endian order.
 */
module CacheFormat {
  import opened Arith

  type Byte = b: int | 0 <= b < 256

  const IMMEDIATE_TAG: Byte := 0x09
  const STRING_TAG: Byte := 0x0A
  const INTERNED_SYMBOL_TAG: Byte := 0x0B
  const UNINTERNED_SYMBOL_TAG: Byte := 0x0C
  const VECTOR_TAG: Byte := 0x12
  const PLIST_TAG: Byte := 0x13
  const DLIST_TAG: Byte := 0x14
  const LOOKUP_TAG: Byte := 0x1A
  const DEFINING_SHARED_TAG: Byte := 0x1B

  const EMIT_SIZE := 4
  const WORD_SIZE := 8

  /** 256 to the power `n`. */
  function Radix(n: nat): (r: nat)
    ensures r > 0
  {
    if n == 0 then 1 else 256 * Radix(n - 1)
  }

  /** The low `size` bytes of `w`, least significant first. */
  function LittleEndian(w: nat, size: nat): (s: seq<Byte>)
    ensures |s| == size
    decreases size, w
  {
    if size == 0 then [] else [w % 256] + LittleEndian(w / 256, size - 1)
  }

  function FromLittleEndian(s: seq<Byte>): nat {
    if s == [] then 0 else s[0] + 256 * FromLittleEndian(s[1..])
  }

  lemma {:induction false} LittleEndianRoundTrip(w: nat, size: nat)
    ensures FromLittleEndian(LittleEndian(w, size)) == w % Radix(size)
    decreases size
  {
    if size > 0 {
      LittleEndianRoundTrip(w / 256, size - 1);
      assert LittleEndian(w, size)[1..] == LittleEndian(w / 256, size - 1);
      DivModRadix(w, Radix(size - 1));
    }
  }

  lemma DivModRadix(w: nat, r: nat)
    requires r > 0
    ensures w % 256 + 256 * ((w / 256) % r) == w % (256 * r)
  {
    var q := w / 256;
    assert w == 256 * q + w % 256;
    assert q == r * (q / r) + q % r;
    var m := w % 256 + 256 * (q % r);
    assert w == (256 * r) * (q / r) + m by {
      assert 256 * (r * (q / r)) == (256 * r) * (q / r);
    }
    assert 256 * (q % r) <= 256 * (r - 1);
    DivModUnique(w, 256 * r, q / r, m);
  }

  /** The value of the first `n` bytes, followed by one more byte. */
  lemma {:induction false} FromLittleEndianAppend(s: seq<Byte>, b: Byte)
    ensures FromLittleEndian(s + [b]) == FromLittleEndian(s) + b * Radix(|s|)
  {
    if s == [] {
      assert s + [b] == [b];
    } else {
      FromLittleEndianAppend(s[1..], b);
      assert (s + [b])[1..] == s[1..] + [b];
      assert 256 * (b * Radix(|s| - 1)) == b * Radix(|s|);
    }
  }

  lemma {:induction false} LittleEndianSnoc(w: nat, size: nat)
    ensures LittleEndian(w, size + 1) == LittleEndian(w, size) + [(w / Radix(size)) % 256]
    decreases size
  {
    if size > 0 {
      LittleEndianSnoc(w / 256, size - 1);
      DivDiv(w, Radix(size - 1));
    }
  }

  lemma DivDiv(w: nat, r: nat)
    requires r > 0
    ensures (w / 256) / r == w / (256 * r)
  {
    var q := w / 256;
    assert q == r * (q / r) + q % r;
    var m := w % 256 + 256 * (q % r);
    assert 256 * (r * (q / r)) == (256 * r) * (q / r);
    assert 256 * (q % r) <= 256 * (r - 1);
    DivModUnique(w, 256 * r, q / r, m);
  }

  /** `put_word_rec`: the loop emits the low byte and shifts the word. */
  method PutWord(w0: nat, tag: Byte, size: nat) returns (out: seq<Byte>)
    ensures out == [tag] + LittleEndian(w0, size)
  {
    out := [tag];
    var w := w0;
    for i := 0 to size
      invariant out == [tag] + LittleEndian(w0, i)
      invariant w == w0 / Radix(i)
    {
      out := out + [w % 256];
      LittleEndianSnoc(w0, i);
      DivDivSwap(w0, Radix(i));
      w := w / 256;
    }
  }

  lemma DivDivSwap(w: nat, r: nat)
    requires r > 0
    ensures (w / r) / 256 == w / (256 * r)
  {
    var q := w / r;
    var m := w % r + r * (q % 256);
    MulDist(r, 256 * (q / 256), q % 256);
    MulAssoc(r, 256, q / 256);
    MulMono(r, q % 256, 255);
    DivModUnique(w, 256 * r, q / 256, m);
  }

  /** `read_word_rec`, after its tag test: the loop adds each byte at its place. */
  method ReadWordLoop(s: seq<Byte>, size: nat) returns (ret: nat)
    requires size <= |s|
    ensures ret == FromLittleEndian(s[..size])
  {
    ret := 0;
    for i := 0 to size
      invariant ret == FromLittleEndian(s[..i])
    {
      FromLittleEndianAppend(s[..i], s[i]);
      assert s[..i + 1] == s[..i] + [s[i]];
      ret := ret + s[i] * Radix(i);
    }
  }

  /** The `int` cast of `read_word`. */
  function AsInt(w: nat): int {
    if w % 0x1_0000_0000 < 0x8000_0000 then w % 0x1_0000_0000 else w % 0x1_0000_0000 - 0x1_0000_0000
  }
}
