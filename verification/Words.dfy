/** Numbers held in words, least significant first. */
module Words {
  import opened Arith
  import opened Modular

  ghost predicate IsWords(ws: seq<nat>, w: nat) {
    forall i :: 0 <= i < |ws| ==> ws[i] < Pow2(w)
  }

  /** The number held in words of `w` bits, least significant first. */
  function Val(ws: seq<nat>, w: nat): (v: nat) {
    if ws == [] then 0 else
      var hi: nat := Val(ws[1..], w);
      MulMono(Pow2(w), 0, hi);
      ws[0] + Pow2(w) * hi
  }

  lemma {:induction false} ValRange(ws: seq<nat>, w: nat)
    requires IsWords(ws, w)
    ensures Val(ws, w) < Pow2(w * |ws|)
    decreases |ws|
  {
    if ws != [] {
      ValRange(ws[1..], w);
      MulDist(w, |ws| - 1, 1);
      Pow2Add(w, w * (|ws| - 1));
      var hi, H := Val(ws[1..], w), Pow2(w * (|ws| - 1));
      MulMono(Pow2(w), hi, H - 1);
      MulDist(Pow2(w), H, 1);
    }
  }

  lemma {:induction false} ValAppend(ws: seq<nat>, d: nat, w: nat)
    ensures Val(ws + [d], w) == Val(ws, w) + d * Pow2(w * |ws|)
    decreases |ws|
  {
    if ws == [] {
      assert ws + [d] == [d] && Pow2(w * 0) == 1;
    } else {
      ValAppend(ws[1..], d, w);
      assert (ws + [d])[1..] == ws[1..] + [d];
      MulDist(w, |ws| - 1, 1);
      Pow2Add(w, w * (|ws| - 1));
      var H := Pow2(w * (|ws| - 1));
      MulDist(Pow2(w), Val(ws[1..], w), d * H);
      MulAssoc(Pow2(w), d, H);
      MulAssoc(d, Pow2(w), H);
    }
  }

  lemma FitsIn(ws: seq<nat>, w: nat, n: nat)
    requires IsWords(ws, w) && |ws| <= n
    ensures Val(ws, w) < Pow2(w * n)
  {
    ValRange(ws, w);
    MulMono(w, |ws|, n);
    Pow2Mono(w * |ws|, w * n);
  }

  lemma {:induction false} ValOfZeros(ws: seq<nat>, w: nat)
    requires forall i :: 0 <= i < |ws| ==> ws[i] == 0
    ensures Val(ws, w) == 0
    decreases |ws|
  {
    if ws != [] {
      ValOfZeros(ws[1..], w);
    }
  }

  lemma {:induction false} ValOfNonzero(ws: seq<nat>, w: nat, i: nat)
    requires i < |ws| && ws[i] != 0
    ensures Val(ws, w) > 0
    decreases |ws|
  {
    if i > 0 {
      ValOfNonzero(ws[1..], w, i - 1);
      MulMono(Pow2(w), 1, Val(ws[1..], w));
    }
  }
}
