/** Sets of characters as ranges: from the first to the last character of each. */
module Ranges {
  type Spans = map<nat, nat>

  ghost predicate In(t: Spans, k: nat, c: int)
    requires k in t
  {
    k <= c <= t[k]
  }

  ghost predicate Covers(t: Spans, c: int) {
    exists k {:trigger In(t, k, c)} :: k in t && In(t, k, c)
  }

  /** The ranges of two keys are apart by at least one character. */
  ghost predicate Apart(t: Spans, k: nat, k': nat)
    requires k in t && k' in t
  {
    k < k' ==> t[k] + 1 < k'
  }

  /** Disjoint and not adjacent. */
  ghost predicate IsNormal(t: Spans) {
    && (forall k :: k in t ==> k <= t[k])
    && (forall k, k' {:trigger Apart(t, k, k')} :: k in t && k' in t ==> Apart(t, k, k'))
  }

  /** Normal ranges are determined by what they cover. */
  lemma NormalIsUnique(a: Spans, b: Spans)
    requires IsNormal(a) && IsNormal(b) && forall c {:trigger Covers(a, c)} {:trigger Covers(b, c)} ::
        Covers(a, c) <==> Covers(b, c)
    ensures a == b
  {
    forall k | k in a ensures k in b && a[k] <= b[k] {
      KeyIsKey(a, b, k);
    }
    forall k | k in b ensures k in a && b[k] <= a[k] {
      KeyIsKey(b, a, k);
    }
  }

  lemma KeyIsKey(a: Spans, b: Spans, k: nat)
    requires IsNormal(a) && IsNormal(b) && forall c {:trigger Covers(a, c)} {:trigger Covers(b, c)} ::
        Covers(a, c) <==> Covers(b, c)
    requires k in a
    ensures k in b && a[k] <= b[k]
  {
    assert In(a, k, k) && Covers(a, k) && Covers(b, k);
    var k' :| k' in b && In(b, k', k);
    GapBelow(a, k);
    assert In(b, k', k - 1) ==> Covers(b, k - 1);
    GapAbove(b, k);
    var v := b[k] + 1;
    assert In(a, k, v) ==> Covers(a, v);
  }

  lemma GapBelow(t: Spans, k: nat)
    requires IsNormal(t) && k in t
    ensures !Covers(t, k - 1)
  {
    assert forall j :: j in t ==> Apart(t, j, k) && Apart(t, k, j);
  }

  lemma GapAbove(t: Spans, k: nat)
    requires IsNormal(t) && k in t
    ensures !Covers(t, t[k] + 1)
  {
    assert forall j :: j in t ==> Apart(t, j, k) && Apart(t, k, j);
  }

  // ----- the lookup -----

  /** The last range that starts at the character or below. */
  ghost predicate IsLast(m: Spans, c: int, k: nat) {
    k in m && k <= c && forall j {:trigger j in m} :: j in m && j <= c ==> j <= k
  }

  /** What `Sg_CharSetContains` answers: the last range that starts at the character or below has to reach it. */
  ghost predicate IsFound(m: Spans, c: int) {
    exists k {:trigger IsLast(m, c, k)} :: IsLast(m, c, k) && c <= m[k]
  }

  lemma FoundIsCovered(m: Spans, c: int)
    ensures IsFound(m, c) ==> Covers(m, c)
    ensures IsNormal(m) && Covers(m, c) ==> IsFound(m, c)
  {
    if IsFound(m, c) {
      var k :| IsLast(m, c, k) && c <= m[k];
      assert In(m, k, c);
    }
    if IsNormal(m) && Covers(m, c) {
      var k :| k in m && In(m, k, c);
      assert forall j :: j in m ==> Apart(m, k, j);
      assert IsLast(m, c, k);
    }
  }

  /** Where the last range is known, it decides. */
  lemma LastDecides(m: Spans, c: int, k: nat)
    requires IsLast(m, c, k)
    ensures IsFound(m, c) <==> c <= m[k]
  {
  }
}
