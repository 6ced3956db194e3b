/** The operations of a character set (src/charset.c) on the tree that holds its ranges. */
module RangeTree {
  import opened Ranges
  import opened RedBlack

  const SMALL_CHARS: nat := 128
  const CHAR_MAX: nat := 0xFF_FFFF

  /** Only characters from SMALL_CHARS on. */
  ghost predicate IsLarge(t: Spans) {
    IsNormal(t) && forall k :: k in t ==> SMALL_CHARS <= k && t[k] <= CHAR_MAX
  }

  // ----- adding a range to the tree -----

  /** The entry that takes up a range: one that reaches `from`, or a new one of value zero. */
  function StartOf(t: Tree, from: nat): (Tree, nat) {
    if Contains(t, from) then (t, from)
    else
      var lo := Lower(t, from);
      if lo.None? || ValueOf(t, lo.value) < from - 1 then (Set(t, from, 0), from) else (t, lo.value)
  }

  /** The loop that swallows the entries above `last` that from..to reaches.  An entry is inspected after it was
      deleted. */
  function Swallow(t: Tree, last: nat, to: nat): (Tree, nat)
    requires IsSearchTree(t)
    decreases Entries(t).Keys
  {
    var h := Higher(t, last);
    if h.None? || h.value > to + 1 then (t, to)
    else
      Deleting(t, last);
      var (key, value) := Held(t, h.value);
      if value > to then (Delete(t, h.value), value) else Swallow(Delete(t, h.value), key, to)
  }

  /** The entry `h` comes next behind `last`; deleting it leaves `rest` and a pointer that shows `key` and `value`. */
  ghost predicate IsDeletion(m: Spans, last: int, two: bool, h: nat, rest: Spans, key: nat, value: nat) {
    && IsNext(m, last, Some(h)) && rest == m - {h} && key in m && value == m[key]
    && if two then IsNext(m, h, Some(key)) else key == h
  }

  lemma Deleting(t: Tree, last: int)
    requires IsSearchTree(t) && Higher(t, last).Some?
    ensures var h := Higher(t, last).value;
            && Contains(t, h) && IsSearchTree(Delete(t, h))
            && var (key, value) := Held(t, h);
               IsDeletion(Entries(t), last, HasTwo(t, h), h, Entries(Delete(t, h)), key, value)
  {
    HigherIsNext(t, last);
    var h := Higher(t, last).value;
    DropEntries(t, h);
    HeldIs(t, h);
  }

  /** `Sg_CharSetAddRange` on the tree. */
  function AddTo(t: Tree, from: nat, to: nat): Tree
    requires IsSearchTree(t)
  {
    StartIsRight(t, from);
    var (u, e) := StartOf(t, from);
    if ValueOf(u, e) >= to then u
    else
      var (w, end) := Swallow(u, e, to);
      SetValue(w, e, end)
  }

  /** The lower bound is set up: `e` is an old entry that reaches `from`, or a new one where nothing does. */
  ghost predicate IsStart(all: Spans, t: Spans, e: nat, from: nat) {
    && e in t && e <= from
    && (if e in all then t == all && (e == from || from <= all[e] + 1) else e == from && t == all[e := 0])
  }

  lemma StartIsRight(t: Tree, from: nat)
    requires IsSearchTree(t)
    ensures var (u, e) := StartOf(t, from);
            IsSearchTree(u) && IsStart(Entries(t), Entries(u), e, from) && ValueOf(u, e) == Entries(u)[e]
  {
    ContainsEntry(t, from);
    LowerIsPrevious(t, from);
    SetEntries(t, from, 0);
    var (u, e) := StartOf(t, from);
    if Lower(t, from).Some? {
      ValueOfEntry(t, Lower(t, from).value);
    }
    ValueOfEntry(u, e);
  }

  /** Nothing else touches the lower bound. */
  ghost predicate IsTight(all: Spans, e: nat, from: nat) {
    && (e !in all ==> !Covers(all, from) && !Covers(all, from - 1))
    && forall k :: k in all && e < k ==> from < k
  }

  lemma Tightness(all: Spans, lo: Option<nat>, e: nat, from: nat)
    requires IsNormal(all) && IsPrevious(all, from, lo)
    requires e == if from in all || lo.None? || all[lo.value] < from - 1 then from else lo.value
    ensures IsTight(all, e, from)
  {
    if lo.Some? {
      assert forall j :: j in all ==> Apart(all, j, lo.value);
    }
  }

  lemma StartIsTight(t: Tree, from: nat)
    requires IsSearchTree(t) && IsNormal(Entries(t))
    ensures IsTight(Entries(t), StartOf(t, from).1, from)
  {
    ContainsEntry(t, from);
    LowerIsPrevious(t, from);
    var lo := Lower(t, from);
    if lo.Some? {
      ValueOfEntry(t, lo.value);
    }
    Tightness(Entries(t), lo, StartOf(t, from).1, from);
  }

  // ----- when the ranges stay normal -----

  /** No entry that the loop deletes has two children. */
  predicate NoneHasTwo(t: Tree, last: nat, to: nat)
    requires IsSearchTree(t)
    decreases Entries(t).Keys
  {
    var h := Higher(t, last);
    if h.None? || h.value > to + 1 then true
    else
      Deleting(t, last);
      !HasTwo(t, h.value) && (ValueOf(t, h.value) > to || NoneHasTwo(Delete(t, h.value), h.value, to))
  }

  /** The condition on a tree under which adding from..to keeps it normal. */
  predicate AddsClean(t: Tree, from: nat, to: nat)
    requires IsSearchTree(t)
  {
    StartIsRight(t, from);
    var (u, e) := StartOf(t, from);
    ValueOf(u, e) >= to || NoneHasTwo(u, e, to)
  }

  /** The entries between the growing one and `last` were swallowed. */
  ghost predicate IsTaking(all: Spans, t: Spans, e: nat, last: nat) {
    && e <= last && e in t
    && (forall k {:trigger k in t} {:trigger k in all} :: k != e ==> (k in t <==> k in all && !(e < k <= last)))
    && (forall k {:trigger t[k]} :: k in t && k != e ==> t[k] == all[k])
  }

  /** Entries that the growing entry may swallow: they start right behind from..to at the latest. */
  ghost predicate IsSwallowed(all: Spans, e: nat, last: nat, to: nat, end: nat) {
    forall k {:trigger all[k]} :: k in all && e < k <= last ==> k <= to + 1 && all[k] <= end
  }

  /** The growing entry ends where the range or the last swallowed entry ends. */
  ghost predicate IsEnd(all: Spans, e: nat, last: nat, to: nat, end: nat) {
    && IsSwallowed(all, e, last, to, end) && to <= end <= CHAR_MAX
    && forall k :: k in all && last < k ==> end + 1 < k
  }

  lemma TakeStep(all: Spans, t: Spans, e: nat, last: nat, to: nat, h: nat)
    requires IsLarge(all) && IsTaking(all, t, e, last) && IsSwallowed(all, e, last, to, to)
    requires IsNext(t, last, Some(h)) && h <= to + 1
    ensures h in all && t[h] == all[h] && IsTaking(all, t - {h}, e, h)
    ensures if all[h] <= to then IsSwallowed(all, e, h, to, to) else IsEnd(all, e, h, to, all[h])
  {
    assert forall k :: k in all && last < k ==> k in t;
    assert forall k :: k in all ==> Apart(all, h, k);
  }

  lemma TakeEnd(all: Spans, t: Spans, e: nat, last: nat, to: nat, h: Option<nat>)
    requires IsTaking(all, t, e, last) && IsSwallowed(all, e, last, to, to) && to <= CHAR_MAX
    requires IsNext(t, last, h) && (h.None? || h.value > to + 1)
    ensures IsEnd(all, e, last, to, to)
  {
    assert forall k :: k in all && last < k ==> k in t;
  }

  lemma {:induction false} SwallowTakes(all: Spans, t: Tree, e: nat, last: nat, to: nat) returns (last': nat)
    requires IsLarge(all) && IsSearchTree(t) && NoneHasTwo(t, last, to) && to <= CHAR_MAX
    requires IsTaking(all, Entries(t), e, last) && IsSwallowed(all, e, last, to, to)
    ensures var (w, end) := Swallow(t, last, to);
            IsSearchTree(w) && IsTaking(all, Entries(w), e, last') && IsEnd(all, e, last', to, end)
    decreases Entries(t).Keys
  {
    var h := Higher(t, last);
    HigherIsNext(t, last);
    if h.None? || h.value > to + 1 {
      TakeEnd(all, Entries(t), e, last, to, h);
      return last;
    }
    Deleting(t, last);
    ValueOfEntry(t, h.value);
    TakeStep(all, Entries(t), e, last, to, h.value);
    if all[h.value] > to {
      last' := h.value;
    } else {
      last' := SwallowTakes(all, Delete(t, h.value), e, h.value, to);
    }
  }

  lemma GrownIsLarge(all: Spans, t0: Spans, t: Spans, e: nat, from: nat, to: nat, last: nat, end: nat)
    requires IsLarge(all) && SMALL_CHARS <= from <= to && IsStart(all, t0, e, from) && IsTight(all, e, from)
    requires IsTaking(all, t, e, last) && IsEnd(all, e, last, to, end)
    ensures IsLarge(t[e := end])
  {
    var t' := t[e := end];
    forall k, k' | k in t' && k' in t' ensures Apart(t', k, k') {
      if k != e && k' != e {
        assert Apart(all, k, k');
      } else if k' == e && k < e {
        if e in all {
          assert Apart(all, k, e);
        } else {
          assert !In(all, k, from) && !In(all, k, from - 1);
        }
      }
    }
  }

  /** Entries were removed, all of them above `last`. */
  ghost predicate IsPart(m: Spans, w: Spans, last: nat) {
    && (forall k {:trigger k in w} :: k in w ==> k in m && w[k] == m[k])
    && (forall k {:trigger k in m} :: k in m && k <= last ==> k in w)
  }

  /** Whatever the shape of the tree, the loop only removes entries above `last`, and ends at `to` at least. */
  lemma {:induction false} SwallowKeeps(t: Tree, last: nat, to: nat)
    requires IsSearchTree(t)
    ensures var (w, end) := Swallow(t, last, to); IsSearchTree(w) && to <= end && IsPart(Entries(t), Entries(w), last)
    decreases Entries(t).Keys
  {
    var h := Higher(t, last);
    if h.Some? && h.value <= to + 1 {
      Deleting(t, last);
      var (key, value) := Held(t, h.value);
      if value <= to {
        SwallowKeeps(Delete(t, h.value), key, to);
      }
    }
  }

  /** The entries above `e` are not empty. */
  ghost predicate AreSpans(m: Spans, e: nat) {
    forall k :: k in m && e < k ==> k <= m[k]
  }

  /** An entry with two children leaves its successor inside the growing entry. */
  lemma SuccessorStays(t: Tree, last: nat, to: nat)
    requires IsSearchTree(t) && AreSpans(Entries(t), last)
    requires var h := Higher(t, last); h.Some? && h.value <= to + 1 && HasTwo(t, h.value)
    ensures Contains(t, Higher(t, last).value)
    ensures var s := Held(t, Higher(t, last).value).0;
            var (w, end) := Swallow(t, last, to);
            s in Entries(w) && last < s <= end
  {
    var h := Higher(t, last).value;
    Deleting(t, last);
    var (s, value) := Held(t, h);
    if value <= to {
      SwallowKeeps(Delete(t, h), s, to);
    }
  }

  lemma {:induction false} SwallowOverlaps(t: Tree, last: nat, to: nat) returns (s: nat)
    requires IsSearchTree(t) && AreSpans(Entries(t), last) && !NoneHasTwo(t, last, to)
    ensures var (w, end) := Swallow(t, last, to); s in Entries(w) && last < s <= end
    decreases Entries(t).Keys
  {
    var h := Higher(t, last).value;
    if HasTwo(t, h) {
      SuccessorStays(t, last, to);
      s := Held(t, h).0;
    } else {
      Deleting(t, last);
      ValueOfEntry(t, h);
      s := SwallowOverlaps(Delete(t, h), h, to);
    }
  }

  // ----- when the set becomes the union -----

  /** An entry with two children is deleted only where its successor touches the range as well. */
  predicate NoneBeyond(t: Tree, last: nat, to: nat)
    requires IsSearchTree(t)
    decreases Entries(t).Keys
  {
    var h := Higher(t, last);
    if h.None? || h.value > to + 1 then true
    else
      Deleting(t, last);
      var (key, value) := Held(t, h.value);
      key <= to + 1 && (value > to || NoneBeyond(Delete(t, h.value), key, to))
  }

  /** The condition on a tree under which adding from..to adds no other character. */
  predicate AddsExactly(t: Tree, from: nat, to: nat)
    requires IsSearchTree(t)
  {
    StartIsRight(t, from);
    var (u, e) := StartOf(t, from);
    ValueOf(u, e) >= to || NoneBeyond(u, e, to)
  }

  /** The entries that are gone lie between the growing one and `to`. */
  ghost predicate IsLosing(all: Spans, t: Spans, e: nat, end: nat) {
    && e in t
    && (forall k {:trigger k in t} :: k in t && k != e ==> k in all && t[k] == all[k])
    && (forall k {:trigger k in all} :: k in all && k != e && k !in t ==> e < k && all[k] <= end)
  }

  /** What the growing entry gains behind `to` was covered. */
  ghost predicate EndsInside(all: Spans, e: nat, to: nat, end: nat) {
    end == to || exists k :: k in all && e < k <= to + 1 && all[k] == end
  }

  /** One deletion, in a tree of any shape. */
  lemma LoseStep(all: Spans, t: Spans, e: nat, last: nat, to: nat, two: bool, h: nat, rest: Spans, key: nat, value: nat)
    requires IsNormal(all) && e <= last && IsLosing(all, t, e, to)
    requires IsDeletion(t, last, two, h, rest, key, value) && h <= to + 1
    ensures IsLosing(all, rest, e, if value > to then value else to)
    ensures key in all && e < key && value == all[key]
  {
    assert Apart(all, h, key);
  }

  lemma {:induction false} SwallowLoses(all: Spans, t: Tree, e: nat, last: nat, to: nat)
    requires IsNormal(all) && IsSearchTree(t) && e <= last && IsLosing(all, Entries(t), e, to)
    ensures var (w, end) := Swallow(t, last, to);
            && IsSearchTree(w) && to <= end && IsLosing(all, Entries(w), e, end)
            && (NoneBeyond(t, last, to) ==> EndsInside(all, e, to, end))
            && (!NoneBeyond(t, last, to) ==> exists k :: k in all && to + 1 < k && e < k <= end)
    decreases Entries(t).Keys
  {
    var h := Higher(t, last);
    if h.Some? && h.value <= to + 1 {
      Deleting(t, last);
      var w := Delete(t, h.value);
      var (key, value) := Held(t, h.value);
      LoseStep(all, Entries(t), e, last, to, HasTwo(t, h.value), h.value, Entries(w), key, value);
      if value <= to {
        SwallowLoses(all, w, e, key, to);
      }
    }
  }

  /** The union with from..to. */
  ghost predicate IsUnion(all: Spans, t: Spans, from: nat, to: nat) {
    forall c {:trigger Covers(t, c)} {:trigger Covers(all, c)} :: Covers(t, c) <==> Covers(all, c) || from <= c <= to
  }

  ghost predicate IsSuperset(all: Spans, t: Spans, from: nat, to: nat) {
    forall c {:trigger Covers(t, c)} {:trigger Covers(all, c)} :: Covers(all, c) || from <= c <= to ==> Covers(t, c)
  }

  lemma GrownCoversAll(all: Spans, t0: Spans, t: Spans, e: nat, from: nat, to: nat, end: nat)
    requires IsStart(all, t0, e, from) && from <= to <= end && t0[e] < to && IsLosing(all, t, e, end)
    ensures IsSuperset(all, t[e := end], from, to)
  {
    var t' := t[e := end];
    forall c | Covers(all, c) || from <= c <= to ensures Covers(t', c) {
      if from <= c <= to {
        assert In(t', e, c);
      } else {
        var k :| k in all && In(all, k, c);
        assert In(t', if k in t then k else e, c);
      }
    }
  }

  lemma GrownCoversNoMore(all: Spans, t0: Spans, t: Spans, e: nat, from: nat, to: nat, end: nat, c: int)
    requires IsStart(all, t0, e, from) && IsLosing(all, t, e, end) && EndsInside(all, e, to, end)
        && Covers(t[e := end], c)
    ensures Covers(all, c) || from <= c <= to
  {
    var t' := t[e := end];
    var k :| k in t' && In(t', k, c);
    if k != e {
      assert In(all, k, c);
    } else if c < from {
      assert In(all, e, c);
    } else if to < c {
      var j :| j in all && e < j <= to + 1 && all[j] == end;
      assert In(all, j, c);
    }
  }

  lemma GrownCoversMore(all: Spans, t: Spans, e: nat, from: nat, to: nat, end: nat, s: nat)
    requires IsNormal(all) && s in all && to + 1 < s && e < s <= end
    ensures !IsUnion(all, t[e := end], from, to)
  {
    GapBelow(all, s);
    assert In(t[e := end], e, s - 1);
  }

  lemma AlreadyThere(t: Spans, e: nat, from: nat, to: nat)
    requires e in t && e <= from && to <= t[e]
    ensures forall c :: from <= c <= to ==> Covers(t, c)
  {
    forall c | from <= c <= to ensures Covers(t, c) {
      assert In(t, e, c);
    }
  }

  lemma SwallowCovers(t: Tree, u: Tree, e: nat, from: nat, to: nat)
    requires IsSearchTree(t) && IsLarge(Entries(t)) && from <= to
    requires IsSearchTree(u) && IsStart(Entries(t), Entries(u), e, from) && Entries(u)[e] < to
    ensures var (w, end) := Swallow(u, e, to);
            var t' := Entries(w)[e := end];
            IsSuperset(Entries(t), t', from, to) && (IsUnion(Entries(t), t', from, to) <==> NoneBeyond(u, e, to))
  {
    var all := Entries(t);
    var (w, end) := Swallow(u, e, to);
    SwallowLoses(all, u, e, e, to);
    GrownCoversAll(all, Entries(u), Entries(w), e, from, to, end);
    if NoneBeyond(u, e, to) {
      forall c | Covers(Entries(w)[e := end], c) ensures Covers(all, c) || from <= c <= to {
        GrownCoversNoMore(all, Entries(u), Entries(w), e, from, to, end, c);
      }
    } else {
      var s :| s in all && to + 1 < s && e < s <= end;
      GrownCoversMore(all, Entries(w), e, from, to, end, s);
    }
  }

  lemma SwallowNormal(t: Tree, u: Tree, e: nat, from: nat, to: nat)
    requires IsSearchTree(t) && IsLarge(Entries(t)) && SMALL_CHARS <= from <= to <= CHAR_MAX
    requires IsSearchTree(u) && IsStart(Entries(t), Entries(u), e, from) && IsTight(Entries(t), e, from)
    ensures var (w, end) := Swallow(u, e, to); IsLarge(Entries(w)[e := end]) <==> NoneHasTwo(u, e, to)
  {
    var (w, end) := Swallow(u, e, to);
    if NoneHasTwo(u, e, to) {
      var last := SwallowTakes(Entries(t), u, e, e, to);
      GrownIsLarge(Entries(t), Entries(u), Entries(w), e, from, to, last, end);
    } else {
      var s := SwallowOverlaps(u, e, to);
      assert !Apart(Entries(w)[e := end], e, s);
    }
  }

  /** Adding a range to normal ranges covers at least the union, keeps them normal exactly under the one condition,
      and gives the union exactly under the other. */
  lemma AddToMeans(t: Tree, from: nat, to: nat)
    requires IsSearchTree(t) && IsLarge(Entries(t)) && SMALL_CHARS <= from <= to <= CHAR_MAX
    ensures IsSearchTree(AddTo(t, from, to)) && IsSuperset(Entries(t), Entries(AddTo(t, from, to)), from, to)
    ensures IsLarge(Entries(AddTo(t, from, to))) <==> AddsClean(t, from, to)
    ensures IsUnion(Entries(t), Entries(AddTo(t, from, to)), from, to) <==> AddsExactly(t, from, to)
  {
    StartIsRight(t, from);
    var all := Entries(t);
    var (u, e) := StartOf(t, from);
    if ValueOf(u, e) >= to {
      AlreadyThere(all, e, from, to);
    } else {
      var (w, end) := Swallow(u, e, to);
      SwallowKeeps(u, e, to);
      SetValueEntries(w, e, end);
      StartIsTight(t, from);
      SwallowCovers(t, u, e, from, to);
      SwallowNormal(t, u, e, from, to);
    }
  }

  /** The stricter condition is the stronger one. */
  lemma {:induction false} NoneHasTwoIsEnough(t: Tree, last: nat, to: nat)
    requires IsSearchTree(t) && NoneHasTwo(t, last, to)
    ensures NoneBeyond(t, last, to)
    decreases Entries(t).Keys
  {
    var h := Higher(t, last);
    if h.Some? && h.value <= to + 1 {
      Deleting(t, last);
      ValueOfEntry(t, h.value);
      if ValueOf(t, h.value) <= to {
        NoneHasTwoIsEnough(Delete(t, h.value), h.value, to);
      }
    }
  }

  /** Ranges of any kind: no range is empty, and none goes beyond the last character. */
  ghost predicate AreBounded(m: Spans) {
    forall k :: k in m ==> SMALL_CHARS <= k <= m[k] <= CHAR_MAX
  }

  lemma {:induction false} SwallowBounded(t: Tree, last: nat, to: nat)
    requires IsSearchTree(t) && to <= CHAR_MAX && forall k :: k in Entries(t) ==> Entries(t)[k] <= CHAR_MAX
    ensures Swallow(t, last, to).1 <= CHAR_MAX
    decreases Entries(t).Keys
  {
    var h := Higher(t, last);
    if h.Some? && h.value <= to + 1 {
      Deleting(t, last);
      var (key, value) := Held(t, h.value);
      if value <= to {
        SwallowBounded(Delete(t, h.value), key, to);
      }
    }
  }

  lemma AddToBounded(t: Tree, from: nat, to: nat)
    requires IsSearchTree(t) && AreBounded(Entries(t)) && SMALL_CHARS <= from <= to <= CHAR_MAX
    ensures IsSearchTree(AddTo(t, from, to)) && AreBounded(Entries(AddTo(t, from, to)))
  {
    StartIsRight(t, from);
    var (u, e) := StartOf(t, from);
    if ValueOf(u, e) < to {
      var (w, end) := Swallow(u, e, to);
      SwallowBounded(u, e, to);
      SwallowKeeps(u, e, to);
      SetValueEntries(w, e, end);
    }
  }

  // ----- complement -----

  /** Up to `last`, the ranges cover what the original ones do not; behind it, they still are the original ones. */
  ghost predicate IsFlipped(all: Spans, t: Spans, last: nat) {
    && SMALL_CHARS - 1 <= last <= CHAR_MAX && IsNormal(t)
    && (forall k :: k in t ==> SMALL_CHARS <= k)
    && (forall k :: k in all && k <= last ==> all[k] <= last)
    && (forall k {:trigger k in t} {:trigger k in all} :: k > last ==> (k in t <==> k in all))
    && (forall k :: k in t ==> if k <= last then t[k] < last else t[k] == all[k])
    && (forall c {:trigger Covers(all, c)} {:trigger CoversTo(t, c, last)} :: SMALL_CHARS <= c <= last ==>
        (CoversTo(t, c, last) <==> !Covers(all, c)))
  }

  /** The gap in front of the entry `key` takes the place of the entry `h`. */
  ghost function Gap(m: Spans, last: nat, h: nat, key: nat): Spans {
    if last < key - 1 then (m - {h})[last + 1 := key - 1] else m - {h}
  }

  ghost function Flip(t: Spans, last: nat, key: nat): Spans {
    Gap(t, last, key, key)
  }

  lemma FlipStep(all: Spans, t: Spans, last: nat, key: nat)
    requires IsLarge(all) && IsFlipped(all, t, last) && IsNext(t, last, Some(key))
    ensures IsFlipped(all, Flip(t, last, key), t[key])
  {
    var t', last' := Flip(t, last, key), t[key];
    FlipNormal(all, t, last, key);
    forall k | k in all && k <= last' ensures all[k] <= last' {
      assert Apart(all, key, k) && Apart(all, k, key);
    }
    assert forall k {:trigger Apart(t, key, k)} {:trigger k in t} :: k in t ==> Apart(t, key, k);
    forall c | SMALL_CHARS <= c <= last' ensures CoversTo(t', c, last') <==> !Covers(all, c) {
      FlipCovers(all, t, last, key, c);
    }
  }

  lemma FlipNormal(all: Spans, t: Spans, last: nat, key: nat)
    requires IsLarge(all) && IsFlipped(all, t, last) && IsNext(t, last, Some(key))
    ensures IsNormal(Flip(t, last, key))
  {
    var t' := Flip(t, last, key);
    forall k, k' | k in t' && k' in t' ensures Apart(t', k, k') {
      if k in t && k' in t {
        assert Apart(t, k, k');
      }
      if k' in t {
        assert Apart(t, key, k');
      }
    }
  }

  lemma FlipCovers(all: Spans, t: Spans, last: nat, key: nat, c: nat)
    requires IsLarge(all) && IsFlipped(all, t, last) && IsNext(t, last, Some(key)) && SMALL_CHARS <= c <= t[key]
    ensures CoversTo(Flip(t, last, key), c, t[key]) <==> !Covers(all, c)
  {
    var t' := Flip(t, last, key);
    if c <= last {
      if CoversTo(t, c, last) {
        var k :| k in t && k <= last && In(t, k, c);
        assert In(t', k, c);
      }
      assert forall k {:trigger In(t', k, c)} :: k in t' && In(t', k, c) ==> k in t && In(t, k, c);
    } else if c < key {
      assert In(t', last + 1, c);
    } else {
      assert In(all, key, c);
      assert forall k {:trigger Apart(t, key, k)} {:trigger k in t} :: k in t ==> Apart(t, key, k);
    }
  }

  lemma FlipLast(all: Spans, t: Spans, last: nat)
    requires IsLarge(all) && IsFlipped(all, t, last) && forall j :: j in t ==> j <= last
    ensures var t' := if last < CHAR_MAX then t[last + 1 := CHAR_MAX] else t;
            IsLarge(t') && forall c {:trigger Covers(t', c)} :: Covers(t', c) <==>
                SMALL_CHARS <= c <= CHAR_MAX && !Covers(all, c)
  {
    var t' := if last < CHAR_MAX then t[last + 1 := CHAR_MAX] else t;
    forall k, k' | k in t' && k' in t' ensures Apart(t', k, k') {
      if k in t && k' in t {
        assert Apart(t, k, k');
      }
    }
    forall c ensures Covers(t', c) <==> SMALL_CHARS <= c <= CHAR_MAX && !Covers(all, c) {
      if last < c <= CHAR_MAX {
        assert In(t', last + 1, c);
      } else if SMALL_CHARS <= c <= last {
        assert Covers(all, c) <==> !CoversTo(t, c, last);
        if CoversTo(t, c, last) {
          var k :| k in t && k <= last && In(t, k, c);
          assert In(t', k, c);
        }
        assert forall k {:trigger In(t', k, c)} :: k in t' && In(t', k, c) ==> k in t && In(t, k, c);
      }
    }
  }

  /** Covered by an entry whose key is at most `last`. */
  ghost predicate CoversTo(t: Spans, c: int, last: int) {
    exists k {:trigger In(t, k, c)} :: k in t && k <= last && In(t, k, c)
  }

  lemma CoversNext(t: Spans, last: int, h: nat)
    requires IsNext(t, last, Some(h))
    ensures forall c {:trigger CoversTo(t, c, h)} :: CoversTo(t, c, h) <==> CoversTo(t, c, last) || h <= c <= t[h]
  {
    forall c ensures CoversTo(t, c, h) <==> CoversTo(t, c, last) || h <= c <= t[h] {
      assert In(t, h, c) <==> h <= c <= t[h];
    }
  }

  lemma CoversAll(t: Spans, last: int)
    requires forall j :: j in t ==> j <= last
    ensures forall c {:trigger CoversTo(t, c, last)} :: CoversTo(t, c, last) <==> Covers(t, c)
  {
  }

  function FillGap(t: Tree, last: nat, key: nat): Tree {
    if last < key - 1 then Set(t, last + 1, key - 1) else t
  }

  /** One round of `Sg_CharSetComplement`: the entry `h` is deleted first, and inspected then. */
  function FlipNext(t: Tree, last: nat, h: nat): Tree
    requires Contains(t, h)
  {
    FillGap(Delete(t, h), last, Held(t, h).0)
  }

  /** Entries up to `last` stay. */
  ghost predicate IsKept(m: Spans, w: Spans, last: nat) {
    forall k {:trigger k in m} :: k in m && k <= last ==> k in w && w[k] == m[k]
  }

  lemma GapStep(m: Spans, last: nat, two: bool, h: nat, rest: Spans, key: nat, value: nat)
    requires AreBounded(m) && SMALL_CHARS - 1 <= last && IsDeletion(m, last, two, h, rest, key, value)
    ensures last < value <= CHAR_MAX && AreBounded(Gap(m, last, h, key)) && IsKept(m, Gap(m, last, h, key), last)
    ensures two ==> last < key - 1 && key in Gap(m, last, h, key) && Gap(m, last, h, key)[key] == value
  {
  }

  lemma GapEntries(m: Spans, rest: Tree, last: nat, h: nat, key: nat)
    requires IsSearchTree(rest) && Entries(rest) == m - {h}
    ensures IsSearchTree(FillGap(rest, last, key)) && Entries(FillGap(rest, last, key)) == Gap(m, last, h, key)
  {
    if last + 1 < key {
      SetEntries(rest, last + 1, key - 1);
    }
  }

  lemma Flipping(t: Tree, last: nat)
    requires IsSearchTree(t) && AreBounded(Entries(t)) && SMALL_CHARS - 1 <= last && Higher(t, last).Some?
    ensures var h := Higher(t, last).value;
            && Contains(t, h)
            && var (key, value) := Held(t, h);
               var u := FlipNext(t, last, h);
               && last < value <= CHAR_MAX && IsSearchTree(u) && AreBounded(Entries(u))
               && Entries(u) == Gap(Entries(t), last, h, key) && IsKept(Entries(t), Entries(u), last)
               && IsDeletion(Entries(t), last, HasTwo(t, h), h, Entries(Delete(t, h)), key, value)
  {
    Deleting(t, last);
    var h := Higher(t, last).value;
    var (key, value) := Held(t, h);
    GapStep(Entries(t), last, HasTwo(t, h), h, Entries(Delete(t, h)), key, value);
    GapEntries(Entries(t), Delete(t, h), last, h, key);
  }

  function FillRest(t: Tree, last: nat): Tree {
    if last < CHAR_MAX then Set(t, last + 1, CHAR_MAX) else t
  }

  lemma FillRestEntries(t: Tree, last: nat)
    requires IsSearchTree(t)
    ensures IsSearchTree(FillRest(t, last))
    ensures Entries(FillRest(t, last)) == if last < CHAR_MAX then Entries(t)[last + 1 := CHAR_MAX] else Entries(t)
  {
    SetEntries(t, last + 1, CHAR_MAX);
  }

  lemma KeptOn(m: Spans, w: Spans, x: Spans, last: nat, last': nat)
    requires IsKept(m, w, last) && IsKept(w, x, last') && last <= last'
    ensures IsKept(m, x, last)
  {
  }

  /** `Sg_CharSetComplement` on the tree. */
  function Flips(t: Tree, last: nat): Tree
    requires IsSearchTree(t) && AreBounded(Entries(t)) && SMALL_CHARS - 1 <= last <= CHAR_MAX
    decreases CHAR_MAX - last
  {
    var h := Higher(t, last);
    if h.None? then FillRest(t, last)
    else
      Flipping(t, last);
      Flips(FlipNext(t, last, h.value), Held(t, h.value).1)
  }

  /** No entry that the loop deletes has two children. */
  predicate FlipsClean(t: Tree, last: nat)
    requires IsSearchTree(t) && AreBounded(Entries(t)) && SMALL_CHARS - 1 <= last <= CHAR_MAX
    decreases CHAR_MAX - last
  {
    var h := Higher(t, last);
    if h.None? then true
    else
      Flipping(t, last);
      !HasTwo(t, h.value) && FlipsClean(FlipNext(t, last, h.value), Held(t, h.value).1)
  }

  /** The complement from SMALL_CHARS on. */
  ghost predicate IsComplement(all: Spans, t: Spans) {
    forall c {:trigger Covers(t, c)} {:trigger Covers(all, c)} ::
      Covers(t, c) <==> SMALL_CHARS <= c <= CHAR_MAX && !Covers(all, c)
  }

  lemma {:induction false} FlipsKeeps(t: Tree, last: nat)
    requires IsSearchTree(t) && AreBounded(Entries(t)) && SMALL_CHARS - 1 <= last <= CHAR_MAX
    ensures var u := Flips(t, last); IsSearchTree(u) && AreBounded(Entries(u)) && IsKept(Entries(t), Entries(u), last)
    decreases CHAR_MAX - last
  {
    var h := Higher(t, last);
    if h.None? {
      FillRestEntries(t, last);
    } else {
      Flipping(t, last);
      var w, last' := FlipNext(t, last, h.value), Held(t, h.value).1;
      FlipsKeeps(w, last');
      KeptOn(Entries(t), Entries(w), Entries(Flips(w, last')), last, last');
    }
  }

  /** Without a deleted entry of two children, the ranges become the normal ranges of the complement. */
  lemma {:induction false} FlipsRight(all: Spans, t: Tree, last: nat)
    requires IsLarge(all) && IsSearchTree(t) && AreBounded(Entries(t)) && IsFlipped(all, Entries(t), last)
    requires FlipsClean(t, last)
    ensures IsLarge(Entries(Flips(t, last))) && IsComplement(all, Entries(Flips(t, last)))
    decreases CHAR_MAX - last
  {
    var h := Higher(t, last);
    HigherIsNext(t, last);
    if h.None? {
      FlipLast(all, Entries(t), last);
      FillRestEntries(t, last);
    } else {
      Flipping(t, last);
      FlipStep(all, Entries(t), last, h.value);
      var w, last' := FlipNext(t, last, h.value), Held(t, h.value).1;
      assert Entries(w) == Flip(Entries(t), last, h.value);
      FlipsRight(all, w, last');
    }
  }

  lemma StaysIn(m: Spans, w: Spans, last: nat, key: nat, value: nat)
    requires AreBounded(m) && IsKept(m, w, value) && last < key - 1 < value
    requires last + 1 in m && m[last + 1] == key - 1 && key in m && m[key] == value
    ensures !IsNormal(w) && key in w && key <= w[key]
  {
    assert !Apart(w, last + 1, key);
  }

  /** The successor of an entry with two children stays, behind the gap in front of it. */
  lemma DirtyRoundStays(t: Tree, last: nat)
    requires IsSearchTree(t) && AreBounded(Entries(t)) && SMALL_CHARS - 1 <= last <= CHAR_MAX
    requires var h := Higher(t, last); h.Some? && HasTwo(t, h.value)
    ensures Contains(t, Higher(t, last).value)
    ensures var s, w := Held(t, Higher(t, last).value).0, Entries(Flips(t, last));
            !IsNormal(w) && s in w && s <= w[s] && s in Entries(t) && last < s
  {
    var h := Higher(t, last).value;
    Flipping(t, last);
    var (key, value) := Held(t, h);
    var u := FlipNext(t, last, h);
    GapStep(Entries(t), last, true, h, Entries(Delete(t, h)), key, value);
    FlipsKeeps(u, value);
    StaysIn(Entries(u), Entries(Flips(t, last)), last, key, value);
  }

  /** A deleted entry with two children leaves a range of the set in the result. */
  lemma {:induction false} FlipsWrong(all: Spans, t: Tree, last: nat) returns (s: nat)
    requires IsLarge(all) && IsSearchTree(t) && AreBounded(Entries(t)) && IsFlipped(all, Entries(t), last)
    requires !FlipsClean(t, last)
    ensures var w := Entries(Flips(t, last)); !IsNormal(w) && s in w && s <= w[s] && s in all
    decreases CHAR_MAX - last
  {
    var h := Higher(t, last).value;
    HigherIsNext(t, last);
    if HasTwo(t, h) {
      DirtyRoundStays(t, last);
      s := Held(t, h).0;
    } else {
      Flipping(t, last);
      FlipStep(all, Entries(t), last, h);
      var w, last' := FlipNext(t, last, h), Held(t, h).1;
      assert Entries(w) == Flip(Entries(t), last, h);
      s := FlipsWrong(all, w, last');
    }
  }

  /** Complementing normal ranges is right, and leaves them normal, exactly when no deleted entry has two
      children. */
  lemma FlipsMeans(t: Tree)
    requires IsSearchTree(t) && IsLarge(Entries(t))
    ensures var u := Flips(t, SMALL_CHARS - 1);
            && IsSearchTree(u) && AreBounded(Entries(u))
            && (IsComplement(Entries(t), Entries(u)) <==> FlipsClean(t, SMALL_CHARS - 1))
            && (IsLarge(Entries(u)) <==> FlipsClean(t, SMALL_CHARS - 1))
  {
    FlipsKeeps(t, SMALL_CHARS - 1);
    if FlipsClean(t, SMALL_CHARS - 1) {
      FlipsRight(Entries(t), t, SMALL_CHARS - 1);
    } else {
      var s := FlipsWrong(Entries(t), t, SMALL_CHARS - 1);
      var w := Entries(Flips(t, SMALL_CHARS - 1));
      assert In(w, s, s) && In(Entries(t), s, s);
      assert Covers(w, s) && Covers(Entries(t), s);
    }
  }

  // ----- complement of a complement -----

  ghost predicate Before(m: Spans, k: nat, k': nat)
    requires k in m && k' in m
  {
    k < k' ==> m[k] < k'
  }

  /** No two ranges share a character, and none that starts up to `last` goes on behind it. */
  ghost predicate IsDisjoint(m: Spans, last: nat) {
    && (forall k, k' {:trigger Before(m, k, k')} :: k in m && k' in m ==> Before(m, k, k'))
    && (forall k {:trigger m[k]} :: k in m && k <= last ==> m[k] <= last)
  }

  /** New entries lie behind `last`. */
  ghost predicate AddsBehind(m: Spans, w: Spans, last: nat) {
    forall k {:trigger k in w} :: k in w && k <= last ==> k in m && w[k] == m[k]
  }

  lemma GapDisjoint(m: Spans, last: nat, two: bool, h: nat, rest: Spans, key: nat, value: nat)
    requires AreBounded(m) && IsDisjoint(m, last) && IsDeletion(m, last, two, h, rest, key, value)
    ensures IsDisjoint(Gap(m, last, h, key), value) && AddsBehind(m, Gap(m, last, h, key), last)
  {
    var w := Gap(m, last, h, key);
    forall k, k' | k in w && k' in w ensures Before(w, k, k') {
      if k in m && k' in m {
        assert Before(m, k, k');
      }
    }
    assert forall k {:trigger k in m} :: k in m ==> Before(m, k, key) && Before(m, key, k);
  }

  lemma GapTakesOut(m: Spans, last: nat, h: nat, s: nat)
    requires AreBounded(m) && IsDisjoint(m, last) && IsNext(m, last, Some(h)) && s in m && last < s
    ensures if s == h then s !in Gap(m, last, h, h) && s <= m[h] else s in Gap(m, last, h, h) && m[h] < s
  {
    assert Before(m, h, s);
  }

  lemma RestDisjoint(m: Spans, last: nat, w: Spans)
    requires AreBounded(m) && IsDisjoint(m, last) && SMALL_CHARS - 1 <= last && forall k :: k in m ==> k <= last
    requires w == if last < CHAR_MAX then m[last + 1 := CHAR_MAX] else m
    ensures IsDisjoint(w, SMALL_CHARS - 1) && AddsBehind(m, w, last)
  {
    forall k, k' | k in w && k' in w ensures Before(w, k, k') {
      if k in m && k' in m {
        assert Before(m, k, k');
      }
    }
  }

  lemma AddsBehindOn(m: Spans, w: Spans, x: Spans, last: nat, last': nat)
    requires AddsBehind(m, w, last) && AddsBehind(w, x, last') && last <= last'
    ensures AddsBehind(m, x, last)
  {
  }

  lemma {:induction false} FlipsDisjoint(t: Tree, last: nat)
    requires IsSearchTree(t) && AreBounded(Entries(t)) && SMALL_CHARS - 1 <= last <= CHAR_MAX
        && IsDisjoint(Entries(t), last)
    ensures IsDisjoint(Entries(Flips(t, last)), SMALL_CHARS - 1)
        && AddsBehind(Entries(t), Entries(Flips(t, last)), last)
    decreases CHAR_MAX - last
  {
    var h := Higher(t, last);
    HigherIsNext(t, last);
    if h.None? {
      FillRestEntries(t, last);
      RestDisjoint(Entries(t), last, Entries(FillRest(t, last)));
    } else {
      Flipping(t, last);
      var (key, value) := Held(t, h.value);
      var w := FlipNext(t, last, h.value);
      GapDisjoint(Entries(t), last, HasTwo(t, h.value), h.value, Entries(Delete(t, h.value)), key, value);
      FlipsDisjoint(w, value);
      AddsBehindOn(Entries(t), Entries(w), Entries(Flips(w, value)), last, value);
    }
  }

  /** When the result is normal, the first character of a range of the set is not in it. */
  lemma {:induction false} FlipsTakesOut(t: Tree, last: nat, s: nat)
    requires IsSearchTree(t) && AreBounded(Entries(t)) && SMALL_CHARS - 1 <= last <= CHAR_MAX
        && IsDisjoint(Entries(t), last)
    requires s in Entries(t) && last < s && IsNormal(Entries(Flips(t, last)))
    ensures s !in Entries(Flips(t, last))
    decreases CHAR_MAX - last
  {
    HigherIsNext(t, last);
    var h := Higher(t, last).value;
    if HasTwo(t, h) {
      DirtyRoundStays(t, last);
      assert false;
    }
    Flipping(t, last);
    var (key, value) := Held(t, h);
    var w := FlipNext(t, last, h);
    GapDisjoint(Entries(t), last, false, h, Entries(Delete(t, h)), key, value);
    GapTakesOut(Entries(t), last, h, s);
    if s == h {
      FlipsDisjoint(w, value);
    } else {
      FlipsTakesOut(w, value, s);
    }
  }

  lemma ComplementsRestore(a: Spans, b: Spans, c: Spans)
    requires IsLarge(a) && IsLarge(c) && IsComplement(a, b) && IsComplement(b, c)
    ensures a == c
  {
    forall x ensures Covers(a, x) <==> Covers(c, x) {
      assert Covers(b, x) <==> SMALL_CHARS <= x <= CHAR_MAX && !Covers(a, x);
    }
    NormalIsUnique(a, c);
  }

  /** Complementing twice restores the ranges exactly when no deleted entry has two children either time. */
  lemma FlipsTwice(t: Tree)
    requires IsSearchTree(t) && IsLarge(Entries(t))
    ensures var u := Flips(t, SMALL_CHARS - 1);
            && IsSearchTree(u) && AreBounded(Entries(u))
            && (Entries(Flips(u, SMALL_CHARS - 1)) == Entries(t)
                <==> FlipsClean(t, SMALL_CHARS - 1) && FlipsClean(u, SMALL_CHARS - 1))
  {
    FlipsMeans(t);
    var u := Flips(t, SMALL_CHARS - 1);
    var w := Flips(u, SMALL_CHARS - 1);
    if FlipsClean(t, SMALL_CHARS - 1) {
      FlipsMeans(u);
      if FlipsClean(u, SMALL_CHARS - 1) {
        ComplementsRestore(Entries(t), Entries(u), Entries(w));
      }
    } else {
      var s := FlipsWrong(Entries(t), t, SMALL_CHARS - 1);
      NormalIsDisjoint(Entries(t));
      FlipsDisjoint(t, SMALL_CHARS - 1);
      if IsNormal(Entries(w)) {
        FlipsTakesOut(u, SMALL_CHARS - 1, s);
      }
    }
  }

  lemma NormalIsDisjoint(m: Spans)
    requires IsLarge(m)
    ensures IsDisjoint(m, SMALL_CHARS - 1)
  {
    forall k, k' | k in m && k' in m ensures Before(m, k, k') {
      assert Apart(m, k, k');
    }
  }

  // ----- a set for which both conditions fail -----

  /** Three ranges of two small subtrees below a root. */
  function Three(a: nat, a': nat, b: nat, b': nat, c: nat, c': nat): Tree {
    Node(Black, Node(Red, Leaf, a, a', Leaf), b, b', Node(Red, Leaf, c, c', Leaf))
  }

  lemma ThreeEntries(a: nat, a': nat, b: nat, b': nat, c: nat, c': nat)
    requires a < b < c
    ensures IsSearchTree(Three(a, a', b, b', c, c'))
        && Entries(Three(a, a', b, b', c, c')) == map[a := a', b := b', c := c']
  {
    assert Entries(Node(Red, Leaf, a, a', Leaf)) == map[a := a'];
    assert Entries(Node(Red, Leaf, c, c', Leaf)) == map[c := c'];
  }

  /** Adding a range behind all others makes a new entry and swallows nothing. */
  lemma AddedBehind(t: Tree, from: nat, to: nat, u: Tree)
    requires IsSearchTree(t) && 0 < to && !Contains(t, from) && u == Set(t, from, 0)
    requires Lower(t, from).None? || ValueOf(t, Lower(t, from).value) < from - 1
    requires ValueOf(u, from) == 0 && Higher(u, from).None?
    ensures AddTo(t, from, to) == SetValue(u, from, to)
  {
    assert StartOf(t, from) == (u, from);
    StartIsRight(t, from);
  }

  lemma OneRangeAdded(a: nat, a': nat)
    requires 0 < a'
    ensures AddTo(Leaf, a, a') == Node(Black, Leaf, a, a', Leaf)
  {
    AddedBehind(Leaf, a, a', Node(Black, Leaf, a, 0, Leaf));
  }

  lemma TwoRangesAdded(a: nat, a': nat, b: nat, b': nat)
    requires 0 < b' && a < b && a' + 1 < b
    ensures var t := Node(Black, Leaf, a, a', Leaf);
            IsSearchTree(t) && AddTo(t, b, b') == Node(Black, Leaf, a, a', Node(Red, Leaf, b, b', Leaf))
  {
    var t, u := Node(Black, Leaf, a, a', Leaf), Node(Red, Leaf, b, 0, Leaf);
    assert Ins(Leaf, b, 0) == (u, Here);
    assert Lower(t.right, b) == None;
    assert ValueOf(u, b) == 0 && SetValue(u, b, b') == Node(Red, Leaf, b, b', Leaf) && Higher(u, b) == None;
    AddedBehind(t, b, b', t.(right := u));
  }

  /** The tree after adding three ranges that do not touch, in ascending order, to an empty set. */
  lemma ThreeRangesAdded(a: nat, a': nat, b: nat, b': nat, c: nat, c': nat)
    requires SMALL_CHARS <= a <= a' && a' + 1 < b <= b' && b' + 1 < c <= c' <= CHAR_MAX
    ensures IsSearchTree(AddTo(Leaf, a, a')) && IsSearchTree(AddTo(AddTo(Leaf, a, a'), b, b'))
    ensures AddTo(AddTo(AddTo(Leaf, a, a'), b, b'), c, c') == Three(a, a', b, b', c, c')
  {
    OneRangeAdded(a, a');
    TwoRangesAdded(a, a', b, b');
    ThirdRangeAdded(a, a', b, b', c, c');
  }

  lemma ThirdRangeAdded(a: nat, a': nat, b: nat, b': nat, c: nat, c': nat)
    requires 0 < c' && a < b < c && b' + 1 < c
    ensures var t := Node(Black, Leaf, a, a', Node(Red, Leaf, b, b', Leaf));
            IsSearchTree(t) && AddTo(t, c, c') == Three(a, a', b, b', c, c')
  {
    var low, high := Node(Red, Leaf, a, a', Leaf), Node(Red, Leaf, c, 0, Leaf);
    var t, u := Node(Black, Leaf, a, a', Node(Red, Leaf, b, b', Leaf)), Node(Black, low, b, b', high);
    assert Entries(t.right) == map[b := b'];
    assert Ins(Leaf, c, 0) == (high, Here);
    assert Ins(t.right, c, 0) == (t.right.(right := high), Below(false));
    assert Lower(t.right.right, c) == None && ValueOf(t.right, b) == b' && !Contains(t.right, c);
    assert ValueOf(high, c) == 0 && SetValue(high, c, c') == Node(Red, Leaf, c, c', Leaf) && Higher(high, c) == None;
    AddedBehind(t, c, c', u);
  }

  lemma ThreeRangesNormal(t: Tree)
    requires t == Three(200, 210, 300, 310, 400, 410)
    ensures IsSearchTree(t) && IsLarge(Entries(t)) && Entries(t) == map[200 := 210, 300 := 310, 400 := 410]
  {
    ThreeEntries(200, 210, 300, 310, 400, 410);
  }

  /** The lower bound of 250..305, and its successor with two children. */
  lemma StartOf250(t: Tree, from: nat)
    requires t == Three(200, 210, 300, 310, 400, 410) && from == 250
    ensures var (u, e) := StartOf(t, from);
            && e == from && ValueOf(u, e) == 0 && Higher(u, e) == Some(300) && Contains(u, 300) && HasTwo(u, 300)
            && Held(u, 300) == (400, 410)
  {
  }

  /** The first entry behind the lower bound has two children, and its successor does not touch the range. */
  lemma DirtyAdd(t: Tree, from: nat, to: nat, h: nat)
    requires IsSearchTree(t)
    requires var (u, e) := StartOf(t, from);
             && ValueOf(u, e) < to && Higher(u, e) == Some(h) && h <= to + 1 && Contains(u, h) && HasTwo(u, h)
             && Held(u, h).0 > to + 1 && Held(u, h).1 > to
    ensures !AddsClean(t, from, to) && !AddsExactly(t, from, to)
    ensures var (u, e) := StartOf(t, from); Entries(AddTo(t, from, to)) == (Entries(t) - {h})[e := Held(u, h).1]
  {
    StartIsRight(t, from);
    var (u, e) := StartOf(t, from);
    Deleting(u, e);
    SetValueEntries(Delete(u, h), e, Held(u, h).1);
    StartOverwritten(Entries(t), Entries(u), e, from, h, Held(u, h).1);
  }

  lemma StartOverwritten(all: Spans, t: Spans, e: nat, from: nat, h: nat, end: nat)
    requires IsStart(all, t, e, from)
    ensures (t - {h})[e := end] == (all - {h})[e := end]
  {
  }

  /** Adding 250..305 also adds 311..399. */
  lemma AddingAddsTooMuch(t: Tree, from: nat, to: nat)
    requires t == Three(200, 210, 300, 310, 400, 410) && from == 250 && to == 305
    ensures IsSearchTree(t) && IsLarge(Entries(t)) && !AddsClean(t, from, to) && !AddsExactly(t, from, to)
    ensures Entries(AddTo(t, from, to)) == map[200 := 210, 250 := 410, 400 := 410]
  {
    ThreeRangesNormal(t);
    StartOf250(t, from);
    DirtyAdd(t, from, to, 300);
  }

  /** The trees of the first two rounds of complementing. */
  ghost predicate AreRounds(t: Tree, t1: Tree, t2: Tree) {
    && t == Three(200, 210, 300, 310, 400, 410)
    && t1 == Three(128, 199, 300, 310, 400, 410)
    && t2 == Three(128, 199, 211, 399, 400, 410)
  }

  lemma Rounds(t: Tree, t1: Tree, t2: Tree)
    requires AreRounds(t, t1, t2)
    ensures Higher(t, 127) == Some(200) && Contains(t, 200) && Held(t, 200) == (200, 210) && FlipNext(t, 127, 200) == t1
    ensures Higher(t1, 210) == Some(300) && Contains(t1, 300) && HasTwo(t1, 300) && Held(t1, 300) == (400, 410)
    ensures FlipNext(t1, 210, 300) == t2 && Higher(t2, 410) == None
  {
    assert Delete(t1, 300) == Node(Black, t1.left, 400, 410, Leaf);
  }

  /** A first round that is clean and a second one that is not. */
  lemma DirtyRound(t: Tree, last: nat, h: nat, h': nat)
    requires IsSearchTree(t) && AreBounded(Entries(t)) && SMALL_CHARS - 1 <= last <= CHAR_MAX
    requires Higher(t, last) == Some(h) && Contains(t, h)
    requires var (t1, last1) := (FlipNext(t, last, h), Held(t, h).1);
             Higher(t1, last1) == Some(h') && Contains(t1, h') && HasTwo(t1, h')
    ensures !FlipsClean(t, last)
    ensures var (t1, last1) := (FlipNext(t, last, h), Held(t, h).1);
            var (t2, last2) := (FlipNext(t1, last1, h'), Held(t1, h').1);
            && IsSearchTree(t2) && AreBounded(Entries(t2)) && SMALL_CHARS - 1 <= last2 <= CHAR_MAX
            && Flips(t, last) == Flips(t2, last2)
  {
    Flipping(t, last);
    Flipping(FlipNext(t, last, h), Held(t, h).1);
  }

  /** Complementing leaves 400..410 in. */
  lemma ComplementingLeavesIn(t: Tree, t1: Tree, t2: Tree)
    requires AreRounds(t, t1, t2)
    ensures IsSearchTree(t) && IsLarge(Entries(t)) && !FlipsClean(t, SMALL_CHARS - 1)
    ensures Entries(Flips(t, SMALL_CHARS - 1)) == map[128 := 199, 211 := 399, 400 := 410, 411 := CHAR_MAX]
  {
    Rounds(t, t1, t2);
    ThreeRangesNormal(t);
    DirtyRound(t, 127, 200, 300);
    ThreeEntries(128, 199, 211, 399, 400, 410);
    FillRestEntries(t2, 410);
  }
}
