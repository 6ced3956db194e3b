/** What `Sg_CharSetContains` finds (src/charset.c) after a range was added to the tree of a character set. */
module RangeLookup {
  import opened Ranges
  import opened RedBlack
  import opened RangeTree

  // ----- the conditions -----

  /** The successor of a deleted entry with two children reaches the end of the range. */
  predicate NoneShort(t: Tree, last: nat, to: nat)
    requires IsSearchTree(t)
    decreases Entries(t).Keys
  {
    var h := Higher(t, last);
    if h.None? || h.value > to + 1 then true
    else
      Deleting(t, last);
      if HasTwo(t, h.value) then Held(t, h.value).1 >= to
      else ValueOf(t, h.value) > to || NoneShort(Delete(t, h.value), h.value, to)
  }

  /** It also touches the range. */
  predicate NoneCut(t: Tree, last: nat, to: nat)
    requires IsSearchTree(t)
    decreases Entries(t).Keys
  {
    var h := Higher(t, last);
    if h.None? || h.value > to + 1 then true
    else
      Deleting(t, last);
      if HasTwo(t, h.value) then Held(t, h.value).0 <= to + 1 && Held(t, h.value).1 >= to
      else ValueOf(t, h.value) > to || NoneCut(Delete(t, h.value), h.value, to)
  }

  /** It reaches the end of the range, or nothing behind it touches the range. */
  predicate NoneDropped(t: Tree, last: nat, to: nat)
    requires IsSearchTree(t)
    decreases Entries(t).Keys
  {
    var h := Higher(t, last);
    if h.None? || h.value > to + 1 then true
    else
      Deleting(t, last);
      var (key, value) := Held(t, h.value);
      if HasTwo(t, h.value) then
        value >= to || (var next := Higher(Delete(t, h.value), key); next.None? || next.value > to + 1)
      else ValueOf(t, h.value) > to || NoneDropped(Delete(t, h.value), h.value, to)
  }

  // ----- what is found -----

  /** Everything is found that was found before, or is in from..to. */
  ghost predicate FindsAll(all: Spans, f: Spans, from: nat, to: nat) {
    forall c {:trigger IsFound(f, c)} :: Covers(all, c) || from <= c <= to ==> IsFound(f, c)
  }

  ghost predicate FindsOld(all: Spans, f: Spans) {
    forall c {:trigger IsFound(f, c)} :: Covers(all, c) ==> IsFound(f, c)
  }

  ghost predicate FindsUnion(all: Spans, f: Spans, from: nat, to: nat) {
    forall c {:trigger IsFound(f, c)} :: IsFound(f, c) <==> Covers(all, c) || from <= c <= to
  }

  /** The grown entry `e` ends at `end`; the entry `s` with the value `v` stays inside of it, and nothing else does. */
  ghost predicate IsNested(all: Spans, f: Spans, e: nat, s: nat, v: nat, end: nat) {
    && e in f && f[e] == end && s in f && f[s] == v && e < s <= v <= end
    && (forall k {:trigger k in f} :: k in f && k != e && k != s ==>
        k in all && f[k] == all[k] && (k < e || end + 1 < k))
    && (forall k {:trigger k in all} :: k in all && (k < e || end + 1 < k) ==> k in f)
    && (forall k {:trigger all[k]} :: k in all && k < e ==> all[k] < e)
    && (forall k {:trigger all[k]} :: k in all && e < k && k !in f ==> k < s)
    && s in all && all[s] == v
  }

  lemma NestedFinds(all: Spans, f: Spans, e: nat, s: nat, v: nat, end: nat, c: int)
    requires IsNormal(all) && IsNested(all, f, e, s, v, end)
    ensures e <= c < s || s <= c <= v ==> IsFound(f, c)
    ensures v < c <= end + 1 ==> !IsFound(f, c)
    ensures c < e || end < c ==> (IsFound(f, c) <==> Covers(all, c))
  {
    assert forall k :: k in all ==> Apart(all, s, k) && Apart(all, k, s);
    if s <= c <= end + 1 {
      assert IsLast(f, c, s);
      LastDecides(f, c, s);
    } else if e <= c < s {
      assert IsLast(f, c, e);
    } else {
      FarFinds(all, f, e, s, v, end, c);
    }
  }

  lemma FarFinds(all: Spans, f: Spans, e: nat, s: nat, v: nat, end: nat, c: int)
    requires IsNormal(all) && IsNested(all, f, e, s, v, end) && (c < e || end + 1 < c)
    ensures IsFound(f, c) <==> Covers(all, c)
  {
    FoundIsCovered(all, c);
    if Covers(all, c) {
      var k :| k in all && In(all, k, c);
      assert forall j :: j in all ==> Apart(all, k, j) && Apart(all, j, k);
      assert IsLast(f, c, k);
    }
    if IsFound(f, c) {
      var k :| IsLast(f, c, k) && c <= f[k];
      assert In(all, k, c);
    }
  }

  lemma NoneBetween(all: Spans, f: Spans, e: nat, s: nat, v: nat, end: nat, c: int)
    requires IsNormal(all) && IsNested(all, f, e, s, v, end) && v < c <= end + 1
    ensures !Covers(all, c)
  {
    assert forall k :: k in all ==> Apart(all, s, k) && Apart(all, k, s);
  }

  /** What is found then, against what should be. */
  lemma NestedMeans(all: Spans, f: Spans, e: nat, s: nat, v: nat, end: nat, from: nat, to: nat)
    requires IsNormal(all) && IsNested(all, f, e, s, v, end) && e <= from < s && from <= to
    requires if e in all then from <= all[e] + 1 else e == from
    requires end == if v < to then to else v
    ensures FindsOld(all, f) && (FindsAll(all, f, from, to) <==> v >= to)
    ensures FindsUnion(all, f, from, to) <==> v >= to && s <= to + 1
  {
    forall c | Covers(all, c) ensures IsFound(f, c) {
      NestedFinds(all, f, e, s, v, end, c);
      if v < c <= end {
        NoneBetween(all, f, e, s, v, end, c);
      }
    }
    if v < to {
      NestedFinds(all, f, e, s, v, end, v + 1);
    } else {
      forall c | from <= c <= to ensures IsFound(f, c) {
        NestedFinds(all, f, e, s, v, end, c);
      }
      NestedExtra(all, f, e, s, v, from, to);
    }
  }

  lemma NestedExtra(all: Spans, f: Spans, e: nat, s: nat, v: nat, from: nat, to: nat)
    requires IsNormal(all) && IsNested(all, f, e, s, v, v) && e <= from < s && from <= to <= v
    requires if e in all then from <= all[e] + 1 else e == from
    ensures (forall c {:trigger IsFound(f, c)} :: IsFound(f, c) ==> Covers(all, c) || from <= c <= to) <==> s <= to + 1
  {
    if s <= to + 1 {
      forall c | IsFound(f, c) ensures Covers(all, c) || from <= c <= to {
        NestedFinds(all, f, e, s, v, v, c);
        if e <= c < from {
          assert In(all, e, c);
        } else if to < c <= v {
          assert In(all, s, c);
        }
      }
    } else {
      NestedFinds(all, f, e, s, v, v, s - 1);
      GapBelow(all, s);
    }
  }

  // ----- the loop -----

  /** The loop stands behind `last`, and has deleted no entry with two children so far. */
  ghost predicate IsUnderway(all: Spans, t: Spans, e: nat, last: nat, from: nat, to: nat) {
    && IsLarge(all) && IsTaking(all, t, e, last) && IsSwallowed(all, e, last, to, to) && e <= from <= to
    && (if e in all then from <= all[e] + 1 else e == from) && IsTight(all, e, from)
  }

  lemma StartIsUnderway(all: Spans, t: Spans, e: nat, from: nat, to: nat)
    requires IsLarge(all) && IsStart(all, t, e, from) && IsTight(all, e, from) && from <= to && t[e] < to
    ensures IsUnderway(all, t, e, e, from, to)
  {
  }

  lemma BelowStart(all: Spans, t: Spans, e: nat, last: nat, from: nat, to: nat, k: nat)
    requires IsUnderway(all, t, e, last, from, to) && k in all && k < e
    ensures all[k] < e
  {
    if e in all {
      assert Apart(all, k, e);
    } else {
      assert !In(all, k, from);
    }
  }

  /** The successor of the deleted entry `h` stays inside of the grown one. */
  lemma DirtyIsNested(all: Spans, t: Spans, e: nat, last: nat, from: nat, to: nat, h: nat, rest: Spans, s: nat, v: nat,
      end: nat)
    requires IsUnderway(all, t, e, last, from, to) && IsDeletion(t, last, true, h, rest, s, v) && v <= end
    requires forall k :: k in rest && s < k ==> end + 1 < k
    ensures IsNested(all, rest[e := end], e, s, v, end) && from < s
  {
    var f := rest[e := end];
    forall k | k in all && k < e ensures all[k] < e {
      BelowStart(all, t, e, last, from, to, k);
    }
    assert forall k {:trigger k in f} :: k in f && k != e ==> k in all && f[k] == all[k] && !(e < k <= last);
    assert forall k {:trigger k in f} :: k in f && e < k ==> s <= k;
  }

  /** Where `s` with the value `v` stays, the characters up to the next entry are not found. */
  lemma NotFoundBehind(all: Spans, f: Spans, e: nat, s: nat, v: nat, c: nat)
    requires IsNormal(all) && s in f && f[s] == v && e < s <= v < c
    requires forall k :: k in f && s < k ==> c < k
    ensures !IsFound(f, c)
  {
    assert IsLast(f, c, s);
    LastDecides(f, c, s);
  }

  /** Behind a successor that does not reach the end of the range, the next character of the range is lost. */
  lemma DirtyLoses(all: Spans, t: Spans, e: nat, last: nat, from: nat, to: nat, h: nat, rest: Spans, s: nat, v: nat,
      w: Spans, end: nat)
    requires IsUnderway(all, t, e, last, from, to) && IsDeletion(t, last, true, h, rest, s, v) && v < to
    requires IsPart(rest, w, s)
    ensures !FindsAll(all, w[e := end], from, to)
  {
    assert forall k :: k in all ==> Apart(all, s, k);
    assert s in rest && forall k :: k in w ==> k in rest;
    NotFoundBehind(all, w[e := end], e, s, v, v + 1);
  }

  /** Characters of an entry that is swallowed behind it are lost too. */
  lemma DirtyDrops(all: Spans, t: Spans, e: nat, last: nat, from: nat, to: nat, h: nat, rest: Spans, s: nat, v: nat,
      w: Spans, end: nat, next: nat)
    requires IsUnderway(all, t, e, last, from, to) && IsDeletion(t, last, true, h, rest, s, v)
    requires IsPart(rest, w, s) && IsNext(rest, s, Some(next)) && next !in w
    ensures !FindsOld(all, w[e := end])
  {
    assert s in rest && forall k :: k in w ==> k in rest;
    assert Apart(all, s, next) && In(all, next, next);
    assert Covers(all, next);
    NotFoundBehind(all, w[e := end], e, s, v, next);
  }

  /** What the whole loop leaves, as entries. */
  ghost function Grown(t: Tree, e: nat, last: nat, to: nat): Spans
    requires IsSearchTree(t)
  {
    var (w, end) := Swallow(t, last, to);
    Entries(w)[e := end]
  }

  /** The loop deletes an entry with two children first. */
  lemma DirtyFinds(all: Spans, t: Tree, e: nat, last: nat, from: nat, to: nat)
    requires IsSearchTree(t) && IsUnderway(all, Entries(t), e, last, from, to)
    requires var h := Higher(t, last); h.Some? && h.value <= to + 1 && HasTwo(t, h.value)
    ensures FindsAll(all, Grown(t, e, last, to), from, to) <==> NoneShort(t, last, to)
    ensures FindsOld(all, Grown(t, e, last, to)) <==> NoneDropped(t, last, to)
    ensures FindsUnion(all, Grown(t, e, last, to), from, to) <==> NoneCut(t, last, to)
  {
    var h := Higher(t, last).value;
    Deleting(t, last);
    var (s, v) := Held(t, h);
    var u := Delete(t, h);
    var rest := Entries(u);
    var next := Higher(u, s);
    if v > to || next.None? || next.value > to + 1 {
      DirtyEnds(all, t, e, last, from, to, h, s, v);
      var end := if v < to then to else v;
      DirtyIsNested(all, Entries(t), e, last, from, to, h, rest, s, v, end);
      NestedMeans(all, rest[e := end], e, s, v, end, from, to);
    } else {
      DirtyLosesBoth(all, t, e, last, from, to, h, s, v, next.value);
    }
  }

  /** The loop ends with the successor, or behind it. */
  lemma SwallowOnce(t: Tree, last: nat, to: nat, h: nat, s: nat, v: nat)
    requires IsSearchTree(t) && Higher(t, last) == Some(h) && h <= to + 1 && Contains(t, h) && Held(t, h) == (s, v)
    requires v > to || (var next := Higher(Delete(t, h), s); next.None? || next.value > to + 1)
    ensures Swallow(t, last, to) == (Delete(t, h), if v < to then to else v)
  {
    Deleting(t, last);
    if v <= to {
      assert Swallow(Delete(t, h), s, to) == (Delete(t, h), to);
    }
  }

  lemma BehindEnd(all: Spans, rest: Spans, s: nat, v: nat, to: nat, next: Option<nat>, end: nat)
    requires IsNormal(all) && s in all && all[s] == v && IsNext(rest, s, next) && end == if v < to then to else v
    requires forall k :: k in rest && s < k ==> k in all
    requires v >= to || next.None? || next.value > to + 1
    ensures forall k :: k in rest && s < k ==> end + 1 < k
  {
    assert forall k :: k in all ==> Apart(all, s, k);
  }

  lemma DirtyEnds(all: Spans, t: Tree, e: nat, last: nat, from: nat, to: nat, h: nat, s: nat, v: nat)
    requires IsSearchTree(t) && IsUnderway(all, Entries(t), e, last, from, to)
    requires Higher(t, last) == Some(h) && h <= to + 1 && HasTwo(t, h) && Contains(t, h) && Held(t, h) == (s, v)
    requires v > to || (var next := Higher(Delete(t, h), s); next.None? || next.value > to + 1)
    ensures var end := if v < to then to else v;
            && Grown(t, e, last, to) == Entries(Delete(t, h))[e := end]
            && forall k :: k in Entries(Delete(t, h)) && s < k ==> end + 1 < k
  {
    Deleting(t, last);
    var u := Delete(t, h);
    HigherIsNext(u, s);
    SwallowOnce(t, last, to, h, s, v);
    BehindEnd(all, Entries(u), s, v, to, Higher(u, s), if v < to then to else v);
  }

  lemma DirtyLosesBoth(all: Spans, t: Tree, e: nat, last: nat, from: nat, to: nat, h: nat, s: nat, v: nat, next: nat)
    requires IsSearchTree(t) && IsUnderway(all, Entries(t), e, last, from, to)
    requires Higher(t, last) == Some(h) && h <= to + 1 && HasTwo(t, h) && Contains(t, h) && Held(t, h) == (s, v)
    requires v <= to && Higher(Delete(t, h), s) == Some(next) && next <= to + 1
    ensures v < to && !FindsAll(all, Grown(t, e, last, to), from, to) && !FindsOld(all, Grown(t, e, last, to))
    ensures !FindsUnion(all, Grown(t, e, last, to), from, to)
  {
    Deleting(t, last);
    var u := Delete(t, h);
    var rest := Entries(u);
    HigherIsNext(u, s);
    assert Apart(all, s, next);
    var (w, end) := Swallow(u, s, to);
    SwallowKeeps(u, s, to);
    SwallowDrops(u, s, to);
    DirtyLoses(all, Entries(t), e, last, from, to, h, rest, s, v, Entries(w), end);
    DirtyDrops(all, Entries(t), e, last, from, to, h, rest, s, v, Entries(w), end, next);
  }

  /** The next entry that touches the range goes. */
  lemma SwallowDrops(t: Tree, last: nat, to: nat)
    requires IsSearchTree(t) && Higher(t, last).Some? && Higher(t, last).value <= to + 1
    ensures Higher(t, last).value !in Entries(Swallow(t, last, to).0)
  {
    var h := Higher(t, last).value;
    Deleting(t, last);
    SwallowKeeps(Delete(t, h), Held(t, h).0, to);
  }

  lemma {:induction false} LoopFinds(all: Spans, t: Tree, e: nat, last: nat, from: nat, to: nat)
    requires IsSearchTree(t) && IsUnderway(all, Entries(t), e, last, from, to) && !NoneHasTwo(t, last, to)
    ensures FindsAll(all, Grown(t, e, last, to), from, to) <==> NoneShort(t, last, to)
    ensures FindsOld(all, Grown(t, e, last, to)) <==> NoneDropped(t, last, to)
    ensures FindsUnion(all, Grown(t, e, last, to), from, to) <==> NoneCut(t, last, to)
    decreases Entries(t).Keys
  {
    var h := Higher(t, last).value;
    if HasTwo(t, h) {
      DirtyFinds(all, t, e, last, from, to);
    } else {
      HigherIsNext(t, last);
      Deleting(t, last);
      ValueOfEntry(t, h);
      TakeStep(all, Entries(t), e, last, to, h);
      LoopFinds(all, Delete(t, h), e, h, from, to);
    }
  }

  // ----- adding a range -----

  /** No character that should be in the set is lost. */
  predicate AddsAll(t: Tree, from: nat, to: nat)
    requires IsSearchTree(t)
  {
    StartIsRight(t, from);
    var (u, e) := StartOf(t, from);
    ValueOf(u, e) >= to || NoneShort(u, e, to)
  }

  /** No character that was in the set is lost. */
  predicate AddsKeeping(t: Tree, from: nat, to: nat)
    requires IsSearchTree(t)
  {
    StartIsRight(t, from);
    var (u, e) := StartOf(t, from);
    ValueOf(u, e) >= to || NoneDropped(u, e, to)
  }

  /** No character is lost, and none is added that should not be. */
  predicate AddsRight(t: Tree, from: nat, to: nat)
    requires IsSearchTree(t)
  {
    StartIsRight(t, from);
    var (u, e) := StartOf(t, from);
    ValueOf(u, e) >= to || NoneCut(u, e, to)
  }

  lemma {:induction false} CleanIsEnough(t: Tree, last: nat, to: nat)
    requires IsSearchTree(t) && NoneHasTwo(t, last, to)
    ensures NoneShort(t, last, to) && NoneDropped(t, last, to) && NoneCut(t, last, to)
    decreases Entries(t).Keys
  {
    var h := Higher(t, last);
    if h.Some? && h.value <= to + 1 {
      Deleting(t, last);
      if ValueOf(t, h.value) <= to {
        CleanIsEnough(Delete(t, h.value), h.value, to);
      }
    }
  }

  /** Normal ranges that cover the union find the union. */
  lemma NormalFinds(all: Spans, f: Spans, from: nat, to: nat)
    requires IsNormal(f) && IsUnion(all, f, from, to)
    ensures FindsUnion(all, f, from, to) && FindsAll(all, f, from, to) && FindsOld(all, f)
  {
    forall c ensures IsFound(f, c) <==> Covers(all, c) || from <= c <= to {
      FoundIsCovered(f, c);
    }
  }

  lemma AddToCovers(t: Tree, from: nat, to: nat)
    requires IsSearchTree(t) && IsLarge(Entries(t)) && SMALL_CHARS <= from <= to <= CHAR_MAX
    ensures IsSearchTree(AddTo(t, from, to))
    ensures var all, f := Entries(t), Entries(AddTo(t, from, to));
            && (FindsAll(all, f, from, to) <==> AddsAll(t, from, to))
            && (FindsOld(all, f) <==> AddsKeeping(t, from, to))
            && (FindsUnion(all, f, from, to) <==> AddsRight(t, from, to))
  {
    AddToMeans(t, from, to);
    StartIsRight(t, from);
    var all, f := Entries(t), Entries(AddTo(t, from, to));
    var (u, e) := StartOf(t, from);
    if ValueOf(u, e) >= to {
      NormalFinds(all, f, from, to);
    } else if NoneHasTwo(u, e, to) {
      NoneHasTwoIsEnough(u, e, to);
      CleanIsEnough(u, e, to);
      NormalFinds(all, f, from, to);
    } else {
      var (w, end) := Swallow(u, e, to);
      SwallowKeeps(u, e, to);
      SetValueEntries(w, e, end);
      StartIsTight(t, from);
      StartIsUnderway(all, Entries(u), e, from, to);
      LoopFinds(all, u, e, e, from, to);
    }
  }

  /** Adding a range to normal ranges, as the lookup sees it: when nothing that belongs to the union is lost, when
      nothing that was there is lost, and when the union is found exactly. */
  lemma AddToFinds(t: Tree, from: nat, to: nat)
    requires IsSearchTree(t) && IsLarge(Entries(t)) && SMALL_CHARS <= from <= to <= CHAR_MAX
    ensures IsSearchTree(AddTo(t, from, to))
    ensures var m, m' := Entries(t), Entries(AddTo(t, from, to));
            && (FoundAlso(m, m', from, to) <==> AddsAll(t, from, to))
            && (FoundStill(m, m') <==> AddsKeeping(t, from, to))
            && (FoundUnion(m, m', from, to) <==> AddsRight(t, from, to))
  {
    AddToCovers(t, from, to);
    forall c ensures IsFound(Entries(t), c) <==> Covers(Entries(t), c) {
      FoundIsCovered(Entries(t), c);
    }
  }

  /** The lookup finds what it found before, and from..to. */
  ghost predicate FoundAlso(m: Spans, m': Spans, from: nat, to: nat) {
    forall c {:trigger IsFound(m', c)} {:trigger IsFound(m, c)} :: IsFound(m, c) || from <= c <= to ==> IsFound(m', c)
  }

  ghost predicate FoundStill(m: Spans, m': Spans) {
    forall c {:trigger IsFound(m', c)} {:trigger IsFound(m, c)} :: IsFound(m, c) ==> IsFound(m', c)
  }

  ghost predicate FoundUnion(m: Spans, m': Spans, from: nat, to: nat) {
    forall c {:trigger IsFound(m', c)} {:trigger IsFound(m, c)} :: IsFound(m', c) <==> IsFound(m, c) || from <= c <= to
  }

  // ----- sets that lose characters -----

  /** The lower bound of 250..350 in three ranges, and its successor with two children. */
  lemma StartBelowThree(t: Tree, from: nat)
    requires t == Three(200, 210, 300, 310, 320, 330) && from == 250
    ensures var (u, e) := StartOf(t, from);
            && e == from && ValueOf(u, e) == 0 && Higher(u, e) == Some(300) && Contains(u, 300) && HasTwo(u, 300)
            && Held(u, 300) == (320, 330) && Higher(Delete(u, 300), 320) == None
  {
  }

  /** Two children, and nothing behind the successor: the range is taken up, but the successor stays in it. */
  lemma ShortAdd(t: Tree, from: nat, to: nat, h: nat)
    requires IsSearchTree(t)
    requires var (u, e) := StartOf(t, from);
             && ValueOf(u, e) < to && Higher(u, e) == Some(h) && h <= to + 1 && Contains(u, h) && HasTwo(u, h)
             && Held(u, h).0 <= to + 1 && Held(u, h).1 < to && Higher(Delete(u, h), Held(u, h).0) == None
    ensures AddsExactly(t, from, to) && !AddsAll(t, from, to)
    ensures Entries(AddTo(t, from, to)) == (Entries(t) - {h})[StartOf(t, from).1 := to]
  {
    StartIsRight(t, from);
    var (u, e) := StartOf(t, from);
    Deleting(u, e);
    assert Swallow(Delete(u, h), Held(u, h).0, to) == (Delete(u, h), to);
    SetValueEntries(Delete(u, h), e, to);
    StartOverwritten(Entries(t), Entries(u), e, from, h, to);
  }

  lemma ThreeAreNormal(t: Tree)
    requires t == Three(200, 210, 300, 310, 320, 330)
    ensures IsSearchTree(t) && IsLarge(Entries(t)) && Entries(t) == map[200 := 210, 300 := 310, 320 := 330]
  {
    ThreeEntries(200, 210, 300, 310, 320, 330);
  }

  lemma BehindIsNotFound(f: Spans, c: int)
    requires f == map[200 := 210, 250 := 350, 320 := 330] && 331 <= c <= 350
    ensures !IsFound(f, c)
  {
    assert IsLast(f, c, 320);
  }

  /** Adding 250..350 to 200..210, 300..310 and 320..330: the ranges cover the union, but 331..350 are not found. */
  lemma AddingLoses(t: Tree, from: nat, to: nat)
    requires t == Three(200, 210, 300, 310, 320, 330) && from == 250 && to == 350
    ensures IsSearchTree(t) && IsLarge(Entries(t)) && AddsExactly(t, from, to) && !AddsAll(t, from, to)
    ensures Entries(AddTo(t, from, to)) == map[200 := 210, 250 := 350, 320 := 330]
    ensures forall c :: 331 <= c <= 350 ==> !IsFound(Entries(AddTo(t, from, to)), c)
  {
    ThreeAreNormal(t);
    StartBelowThree(t, from);
    ShortAdd(t, from, to, 300);
    var f := Entries(AddTo(t, from, to));
    forall c | 331 <= c <= 350 ensures !IsFound(f, c) {
      BehindIsNotFound(f, c);
    }
  }

  /** The tree of 200..210, 300..310, 320..330 and 335..345. */
  function Four(): Tree {
    Node(Black, Node(Black, Leaf, 200, 210, Leaf), 300, 310,
         Node(Black, Leaf, 320, 330, Node(Red, Leaf, 335, 345, Leaf)))
  }

  lemma FourEntries(t: Tree)
    requires t == Four()
    ensures IsSearchTree(t) && IsLarge(Entries(t))
  {
    FourSubtrees(t);
    assert Entries(t) == map[200 := 210, 300 := 310, 320 := 330, 335 := 345];
  }

  lemma FourSubtrees(t: Tree)
    requires t == Four()
    ensures IsSearchTree(t) && Entries(t.right) == map[320 := 330, 335 := 345] && Entries(t.left) == map[200 := 210]
  {
    assert Entries(t.right.right) == map[335 := 345];
  }

  lemma FourIsAdded(t: Tree)
    requires t == Three(200, 210, 300, 310, 320, 330)
    ensures IsSearchTree(t) && AddTo(t, 335, 345) == Four()
  {
    ThreeEntries(200, 210, 300, 310, 320, 330);
    assert StartOf(t, 335) == (SetValue(Four(), 335, 0), 335);
    assert Swallow(SetValue(Four(), 335, 0), 335, 345) == (SetValue(Four(), 335, 0), 345);
  }

  lemma StartBelowFour(t: Tree, from: nat)
    requires t == Four() && from == 250
    ensures var (u, e) := StartOf(t, from);
            && e == from && ValueOf(u, e) == 0 && Higher(u, e) == Some(300) && Contains(u, 300) && HasTwo(u, 300)
            && Held(u, 300) == (320, 330) && Higher(Delete(u, 300), 320) == Some(335)
  {
  }

  /** Adding 250..350 to these takes a member out of the set. */
  lemma AddingTakesOut(t: Tree, from: nat, to: nat)
    requires t == Four() && from == 250 && to == 350
    ensures IsSearchTree(t) && IsLarge(Entries(t)) && !AddsKeeping(t, from, to)
    ensures exists c :: IsFound(Entries(t), c) && !IsFound(Entries(AddTo(t, from, to)), c)
  {
    FourEntries(t);
    StartBelowFour(t, from);
    StartIsRight(t, from);
    Deleting(StartOf(t, from).0, from);
    AddToFinds(t, from, to);
  }
}
