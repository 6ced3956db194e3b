/** Character sets (src/charset.c). */
module Charset {
  import opened Ranges
  import opened RedBlack
  import opened RangeTree
  import opened RangeLookup

  // ----- the part of a range that lies in the tree -----

  function AddPart(t: Tree, from: nat, to: int): Tree
    requires IsSearchTree(t)
  {
    if to < from || to < SMALL_CHARS then t else AddTo(t, if from < SMALL_CHARS then SMALL_CHARS else from, to)
  }

  predicate PartClean(t: Tree, from: nat, to: int)
    requires IsSearchTree(t)
  {
    to < from || to < SMALL_CHARS || AddsClean(t, if from < SMALL_CHARS then SMALL_CHARS else from, to)
  }

  predicate PartAll(t: Tree, from: nat, to: int)
    requires IsSearchTree(t)
  {
    to < from || to < SMALL_CHARS || AddsAll(t, if from < SMALL_CHARS then SMALL_CHARS else from, to)
  }

  predicate PartKeeping(t: Tree, from: nat, to: int)
    requires IsSearchTree(t)
  {
    to < from || to < SMALL_CHARS || AddsKeeping(t, if from < SMALL_CHARS then SMALL_CHARS else from, to)
  }

  predicate PartRight(t: Tree, from: nat, to: int)
    requires IsSearchTree(t)
  {
    to < from || to < SMALL_CHARS || AddsRight(t, if from < SMALL_CHARS then SMALL_CHARS else from, to)
  }

  // ----- what a set holds -----

  type Bits = b: seq<bool> | |b| == SMALL_CHARS witness seq(SMALL_CHARS, _ => false)

  /** Membership in a set of the given small and large part, as `Sg_CharSetContains` answers it. */
  ghost predicate Holds(bits: Bits, t: Tree, c: int) {
    if 0 <= c < SMALL_CHARS then bits[c] else IsFound(Entries(t), c)
  }

  /** The characters in the ranges of a set, as `Sg_CharSetRanges` lists them.  In a normal set they are its members. */
  ghost predicate IsSpanned(bits: Bits, t: Tree, c: int) {
    if 0 <= c < SMALL_CHARS then bits[c] else Covers(Entries(t), c)
  }

  /** The second set holds what the first one holds and from..to. */
  ghost predicate HoldsAlso(bits: Bits, t: Tree, bits': Bits, t': Tree, from: nat, to: int) {
    forall c {:trigger Holds(bits', t', c)} {:trigger Holds(bits, t, c)} ::
      Holds(bits, t, c) || from <= c <= to ==> Holds(bits', t', c)
  }

  /** The second set holds what the first one holds. */
  ghost predicate HoldsStill(bits: Bits, t: Tree, bits': Bits, t': Tree) {
    forall c {:trigger Holds(bits', t', c)} {:trigger Holds(bits, t, c)} :: Holds(bits, t, c) ==> Holds(bits', t', c)
  }

  /** The second set is the union of the first one and from..to. */
  ghost predicate HoldsUnion(bits: Bits, t: Tree, bits': Bits, t': Tree, from: nat, to: int) {
    forall c {:trigger Holds(bits', t', c)} {:trigger Holds(bits, t, c)} ::
      Holds(bits', t', c) <==> Holds(bits, t, c) || from <= c <= to
  }

  /** The second set is the complement of the first one. */
  ghost predicate IsInverse(bits: Bits, t: Tree, bits': Bits, t': Tree) {
    forall c {:trigger Holds(bits', t', c)} {:trigger Holds(bits, t, c)} ::
      Holds(bits', t', c) <==> 0 <= c <= CHAR_MAX && !Holds(bits, t, c)
  }

  /** What lies in the tree of a large part is not small. */
  lemma FoundIsLarge(m: Spans, c: int)
    requires AreBounded(m) && IsFound(m, c)
    ensures SMALL_CHARS <= c <= CHAR_MAX
  {
    FoundIsCovered(m, c);
  }

  /** Adding a range to a normal set leaves it normal exactly under one condition.  Three others say exactly when
      nothing is lost that should be there, when nothing is lost that was there, and when the set becomes the
      union. */
  lemma PartMeans(bits: Bits, t: Tree, bits': Bits, from: nat, to: int)
    requires IsSearchTree(t) && IsLarge(Entries(t)) && to <= CHAR_MAX
    requires forall i :: 0 <= i < SMALL_CHARS ==> bits'[i] == (bits[i] || from <= i <= to)
    ensures var t' := AddPart(t, from, to);
            && IsSearchTree(t')
            && (IsLarge(Entries(t')) <==> PartClean(t, from, to))
            && (HoldsAlso(bits, t, bits', t', from, to) <==> PartAll(t, from, to))
            && (HoldsStill(bits, t, bits', t') <==> PartKeeping(t, from, to))
            && (HoldsUnion(bits, t, bits', t', from, to) <==> PartRight(t, from, to))
  {
    if from <= to && SMALL_CHARS <= to {
      var from' := if from < SMALL_CHARS then SMALL_CHARS else from;
      AddToMeans(t, from', to);
      AddToFinds(t, from', to);
      AddToBounded(t, from', to);
      LargePartDecides(bits, t, bits', AddPart(t, from, to), from, to);
    }
  }

  /** From SMALL_CHARS on, the tree decides. */
  lemma LargeIsFound(bits: Bits, t: Tree, c: int)
    requires AreBounded(Entries(t))
    ensures IsFound(Entries(t), c) <==> SMALL_CHARS <= c && Holds(bits, t, c)
  {
    if IsFound(Entries(t), c) {
      FoundIsLarge(Entries(t), c);
    }
  }

  /** The bits are right, so that the tree decides. */
  lemma LargePartDecides(bits: Bits, t: Tree, bits': Bits, t': Tree, from: nat, to: int)
    requires AreBounded(Entries(t)) && AreBounded(Entries(t')) && from <= to && SMALL_CHARS <= to
    requires forall i :: 0 <= i < SMALL_CHARS ==> bits'[i] == (bits[i] || from <= i <= to)
    ensures var m, m', from' := Entries(t), Entries(t'), if from < SMALL_CHARS then SMALL_CHARS else from;
            && (HoldsAlso(bits, t, bits', t', from, to) <==> FoundAlso(m, m', from', to))
            && (HoldsStill(bits, t, bits', t') <==> FoundStill(m, m'))
            && (HoldsUnion(bits, t, bits', t', from, to) <==> FoundUnion(m, m', from', to))
  {
    forall c ensures (IsFound(Entries(t), c) <==> SMALL_CHARS <= c && Holds(bits, t, c))
        && (IsFound(Entries(t'), c) <==> SMALL_CHARS <= c && Holds(bits', t', c))
    {
      LargeIsFound(bits, t, c);
      LargeIsFound(bits', t', c);
    }
    forall c ensures c < SMALL_CHARS ==> (Holds(bits', t', c) <==> Holds(bits, t, c) || from <= c <= to) {
      if c < 0 {
        LargeIsFound(bits, t, c);
        LargeIsFound(bits', t', c);
      }
    }
  }

  /** Complementing a normal set is right, and leaves it normal, exactly when no deleted entry has two children. */
  lemma InverseMeans(bits: Bits, t: Tree, bits': Bits)
    requires IsSearchTree(t) && IsLarge(Entries(t)) && forall i :: 0 <= i < SMALL_CHARS ==> bits'[i] == !bits[i]
    ensures var t' := Flips(t, SMALL_CHARS - 1);
            && (IsLarge(Entries(t')) <==> FlipsClean(t, SMALL_CHARS - 1))
            && (IsInverse(bits, t, bits', t') <==> FlipsClean(t, SMALL_CHARS - 1))
  {
    FlipsMeans(t);
    var t' := Flips(t, SMALL_CHARS - 1);
    if FlipsClean(t, SMALL_CHARS - 1) {
      forall c ensures Holds(bits', t', c) <==> 0 <= c <= CHAR_MAX && !Holds(bits, t, c) {
        FoundIsCovered(Entries(t), c);
        FoundIsCovered(Entries(t'), c);
      }
    } else {
      var s := FlipsWrong(Entries(t), t, SMALL_CHARS - 1);
      assert IsLast(Entries(t), s, s) && IsLast(Entries(t'), s, s);
      assert Holds(bits, t, s) && Holds(bits', t', s);
    }
  }

  class CharSet {
    const small: array<bool>
    var large: Tree

    ghost predicate Valid()
      reads this, small
    {
      small.Length == SMALL_CHARS && IsSearchTree(large) && AreBounded(Entries(large))
    }

    /** The ranges of the large part are disjoint and not adjacent. */
    ghost predicate IsNormalized()
      reads this
    {
      IsLarge(Entries(large))
    }

    /** Membership. */
    ghost predicate Has(c: int)
      requires Valid()
      reads this, small
    {
      Holds(small[..], large, c)
    }

    constructor ()
      ensures Valid() && IsNormalized() && large == Leaf && fresh(small) && HoldsListed(small[..], large, [])
    {
      small := new bool[SMALL_CHARS](_ => false);
      large := Leaf;
    }

    /** `bit_fill` */
    method Fill(from: nat, to: nat)
      requires from <= to <= small.Length
      modifies small
      ensures forall i :: 0 <= i < small.Length ==> small[i] == (old(small[i]) || from <= i < to)
    {
      for i := from to to
        invariant forall k :: 0 <= k < small.Length ==> small[k] == (old(small[k]) || from <= k < i)
      {
        small[i] := true;
      }
    }

    /** The part of `Sg_CharSetAddRange` that works on the small part. */
    method AddBits(from: nat, to: int)
      requires small.Length == SMALL_CHARS
      modifies small
      ensures forall i :: 0 <= i < SMALL_CHARS ==> small[i] == (old(small[i]) || from <= i <= to)
    {
      if from <= to && from < SMALL_CHARS {
        Fill(from, if to < SMALL_CHARS then to + 1 else SMALL_CHARS);
      }
    }

    /** `Sg_CharSetAddRange` */
    method AddRange(from: nat, to: int)
      requires Valid() && to <= CHAR_MAX
      modifies this`large, small
      ensures Valid() && large == AddPart(old(large), from, to)
      ensures forall i :: 0 <= i < SMALL_CHARS ==> small[i] == (old(small[i]) || from <= i <= to)
      ensures old(IsNormalized()) ==>
                && (IsNormalized() <==> PartClean(old(large), from, to))
                && (HoldsAlso(old(small[..]), old(large), small[..], large, from, to) <==>
                    PartAll(old(large), from, to))
                && (HoldsStill(old(small[..]), old(large), small[..], large) <==> PartKeeping(old(large), from, to))
                && (HoldsUnion(old(small[..]), old(large), small[..], large, from, to) <==>
                    PartRight(old(large), from, to))
    {
      AddBits(from, to);
      if IsNormalized() {
        PartMeans(old(small[..]), large, small[..], from, to);
      }
      if from <= to && SMALL_CHARS <= to {
        AddLarge(if from < SMALL_CHARS then SMALL_CHARS else from, to);
      }
    }

    /** The part of `Sg_CharSetAddRange` that finds or makes the entry of the lower bound. */
    method LowerBound(from: nat) returns (e: nat)
      requires IsSearchTree(large)
      modifies this`large
      ensures (large, e) == StartOf(old(large), from)
    {
      e := from;
      if !RedBlack.Contains(large, from) {
        var lo := Lower(large, from);
        if lo.None? || ValueOf(large, lo.value) < from - 1 {
          large := Set(large, from, 0);
        } else {
          e := lo.value;
        }
      }
    }

    /** The part of `Sg_CharSetAddRange` that works on the tree. */
    method AddLarge(from: nat, to: nat)
      requires Valid() && SMALL_CHARS <= from <= to <= CHAR_MAX
      modifies this`large
      ensures Valid() && large == AddTo(old(large), from, to)
    {
      AddToBounded(large, from, to);
      StartIsRight(large, from);
      var e := LowerBound(from);
      if ValueOf(large, e) >= to {
        return;
      }
      ghost var start := large;
      var last := e;
      var hi := Higher(large, last);
      while hi.Some?
        invariant IsSearchTree(large) && hi == Higher(large, last) && Swallow(large, last, to) == Swallow(start, e, to)
        decreases Entries(large).Keys
      {
        if hi.value > to + 1 {
          break;
        }
        Deleting(large, last);
        var (key, value) := Held(large, hi.value);
        large := Delete(large, hi.value);
        if value > to {
          large := SetValue(large, e, value);
          return;
        }
        last := key;
        hi := Higher(large, last);
      }
      large := SetValue(large, e, to);
    }

    /** `Sg_CharSetContains` */
    method Contains(c: int) returns (r: bool)
      requires Valid()
      ensures r <==> Has(c)
    {
      if c < 0 {
        return false;
      }
      if c < SMALL_CHARS {
        return small[c];
      }
      ContainsEntry(large, c);
      if RedBlack.Contains(large, c) {
        LastDecides(Entries(large), c, c);
        return true;
      }
      var l := Lower(large, c);
      LowerIsPrevious(large, c);
      if l.Some? {
        ValueOfEntry(large, l.value);
        LastDecides(Entries(large), c, l.value);
      }
      return l.Some? && ValueOf(large, l.value) >= c;
    }

    /** `Sg_CharSetAdd`: the union. */
    method Add(src: CharSet)
      requires Valid() && src.Valid() && (src != this ==> src.small != small)
      modifies this`large, small
      ensures Valid() && large == if src == this then old(large) else AddAll(old(large), src.large, -1)
      ensures forall i :: 0 <= i < SMALL_CHARS ==> small[i] == (old(small[i]) || old(src.small[i]))
      ensures old(IsNormalized()) && AllClean(old(large), old(src.large), -1) ==>
                IsNormalized() && HoldsBoth(old(small[..]), old(large), old(src.small[..]), old(src.large), small[..],
                    large)
    {
      if this == src {
        SelfHolds(small[..], large);
        return;
      }
      for i := 0 to SMALL_CHARS
        invariant large == old(large)
        invariant forall k :: 0 <= k < SMALL_CHARS ==> small[k] == (old(small[k]) || (k < i && src.small[k]))
      {
        small[i] := small[i] || src.small[i];
      }
      ghost var bits := small[..];
      var last: int := -1;
      var e := Higher(src.large, last);
      HigherIsNext(src.large, last);
      while e.Some?
        invariant Valid() && e == Higher(src.large, last) && IsNext(Entries(src.large), last, e) && small[..] == bits
        invariant AddAll(large, src.large, last) == AddAll(old(large), src.large, -1)
        decreases if e.None? then 0 else CHAR_MAX + 1 - last
      {
        ValueOfEntry(src.large, e.value);
        AddRange(e.value, ValueOf(src.large, e.value));
        last := e.value;
        e := Higher(src.large, last);
        HigherIsNext(src.large, last);
      }
      if old(IsNormalized()) && AllClean(old(large), src.large, -1) {
        AddAllHolds(old(small[..]), old(large), src.small[..], src.large, small[..]);
      }
    }

    /** `Sg_CharSetComplement` */
    method Complement()
      requires Valid()
      modifies this`large, small
      ensures Valid() && large == Flips(old(large), SMALL_CHARS - 1)
      ensures forall i :: 0 <= i < SMALL_CHARS ==> small[i] == !old(small[i])
      ensures old(IsNormalized()) ==>
                && (IsNormalized() <==> FlipsClean(old(large), SMALL_CHARS - 1))
                && (IsInverse(old(small[..]), old(large), small[..], large) <==>
                    FlipsClean(old(large), SMALL_CHARS - 1))
    {
      for i := 0 to SMALL_CHARS
        invariant large == old(large)
        invariant forall k :: 0 <= k < SMALL_CHARS ==> small[k] == if k < i then !old(small[k]) else old(small[k])
      {
        small[i] := !small[i];
      }
      if IsNormalized() {
        InverseMeans(old(small[..]), large, small[..]);
      }
      ComplementLarge();
    }

    /** The part of `Sg_CharSetComplement` that works on the tree. */
    method ComplementLarge()
      requires Valid()
      modifies this`large
      ensures Valid() && large == Flips(old(large), SMALL_CHARS - 1)
    {
      FlipsKeeps(large, SMALL_CHARS - 1);
      var last: nat := SMALL_CHARS - 1;
      var e := Higher(large, last);
      while e.Some?
        invariant SMALL_CHARS - 1 <= last <= CHAR_MAX && IsSearchTree(large) && AreBounded(Entries(large))
        invariant e == Higher(large, last) && Flips(large, last) == Flips(old(large), SMALL_CHARS - 1)
        decreases CHAR_MAX + 1 - last
      {
        Flipping(large, last);
        var (key, value) := Held(large, e.value);
        large := FillGap(Delete(large, e.value), last, key);
        last := value;
        e := Higher(large, last);
      }
      large := FillRest(large, last);
    }

    /** Complement is its own inverse exactly when no deleted entry has two children either time. */
    method ComplementTwice()
      requires Valid() && IsNormalized()
      modifies this`large, small
      ensures Valid() && small[..] == old(small[..])
      ensures IsSearchTree(Flips(old(large), SMALL_CHARS - 1))
          && AreBounded(Entries(Flips(old(large), SMALL_CHARS - 1)))
      ensures Entries(large) == old(Entries(large)) <==>
              FlipsClean(old(large), SMALL_CHARS - 1) && FlipsClean(Flips(old(large), SMALL_CHARS - 1), SMALL_CHARS - 1)
    {
      FlipsTwice(large);
      Complement();
      Complement();
    }

    /** The ranges of the small part. */
    method SmallRanges() returns (ranges: seq<(nat, int)>)
      requires Valid()
      ensures IsScanned(small[..], ranges, SMALL_CHARS)
    {
      ranges := [];
      ghost var bits: Bits := small[..];
      var begin, prev := 0, false;
      for i := 0 to SMALL_CHARS
        invariant begin <= i && IsRun(bits, i, begin, prev)
            && IsScanned(bits, ranges, if prev then begin else i)
      {
        var bit := small[i];
        assert bits[i] == bit;
        ScanStep(bits, ranges, i, begin, prev);
        if !prev && bit {
          begin := i;
        }
        if prev && !bit {
          ranges := ranges + [(begin, i - 1)];
        }
        prev := bit;
      }
      if prev {
        ScanRun(bits, ranges, begin, SMALL_CHARS);
        ranges := ranges + [(begin, SMALL_CHARS - 1)];
      }
    }

    /** `Sg_CharSetRanges` */
    method GetRanges() returns (ranges: seq<(nat, int)>)
      requires Valid()
      ensures AreRanges(ranges) && AreAscending(ranges)
      ensures forall c {:trigger Listed(ranges, c)} :: Listed(ranges, c) <==> IsSpanned(small[..], large, c)
      ensures IsNormalized() ==> HoldsListed(small[..], large, ranges)
    {
      ranges := SmallRanges();
      var last: int := -1;
      var e := Higher(large, last);
      HigherIsNext(large, last);
      while e.Some?
        invariant AreRanges(ranges) && e == Higher(large, last) && IsNext(Entries(large), last, e)
        invariant AreAscending(ranges)
        invariant |ranges| > 0 ==> ranges[|ranges| - 1].1 < SMALL_CHARS || ranges[|ranges| - 1].0 <= last
        invariant forall c {:trigger Listed(ranges, c)} ::
          Listed(ranges, c) <==> (0 <= c < SMALL_CHARS && small[c]) || CoversTo(Entries(large), c, last)
        decreases if e.None? then 0 else CHAR_MAX + 1 - last
      {
        var to := ValueOf(large, e.value);
        ValueOfEntry(large, e.value);
        ListedNext(ranges, e.value, to);
        AscendingNext(ranges, e.value, to);
        CoversNext(Entries(large), last, e.value);
        ranges := ranges + [(e.value, to)];
        last := e.value;
        e := Higher(large, last);
        HigherIsNext(large, last);
      }
      CoversAll(Entries(large), last);
      SpannedIsHeld(small[..], large, ranges);
    }

    /** Adding the ranges of a set to an empty one, as the cache reader does, rebuilds its ranges exactly. */
    method Rebuild() returns (copy: CharSet)
      requires Valid() && IsNormalized()
      ensures fresh(copy) && copy.Valid() && copy.small[..] == small[..] && Entries(copy.large) == Entries(large)
    {
      var ranges := GetRanges();
      copy := new CharSet();
      for i := 0 to |ranges|
        invariant fresh(copy) && fresh(copy.small) && copy.Valid() && copy.IsNormalized()
        invariant forall k :: k in Entries(copy.large) ==> i > 0 && k <= ranges[i - 1].0
        invariant HoldsListed(copy.small[..], copy.large, ranges[..i])
      {
        ghost var bits, t := copy.small[..], copy.large;
        PartAtEnd(copy.large, ranges[i].0, ranges[i].1);
        copy.AddRange(ranges[i].0, ranges[i].1);
        HoldsListedNext(bits, t, copy.small[..], copy.large, ranges, i);
      }
      assert ranges[..|ranges|] == ranges;
      SameHeld(copy.small[..], copy.large, small[..], large, ranges);
    }
  }

  ghost predicate InRange(r: (nat, int), c: int) {
    r.0 <= c <= r.1
  }

  ghost predicate Listed(ranges: seq<(nat, int)>, c: int) {
    exists i :: 0 <= i < |ranges| && InRange(ranges[i], c)
  }

  ghost predicate AreRanges(ranges: seq<(nat, int)>) {
    forall i :: 0 <= i < |ranges| ==> ranges[i].0 <= ranges[i].1 <= CHAR_MAX
  }

  lemma ListedNext(ranges: seq<(nat, int)>, from: nat, to: int)
    ensures forall c {:trigger Listed(ranges + [(from, to)], c)} :: Listed(ranges + [(from, to)], c) <==>
        Listed(ranges, c) || from <= c <= to
  {
    var more := ranges + [(from, to)];
    forall c ensures Listed(more, c) <==> Listed(ranges, c) || from <= c <= to {
      assert InRange(more[|ranges|], c) <==> from <= c <= to;
      if Listed(ranges, c) {
        var i :| 0 <= i < |ranges| && InRange(ranges[i], c);
        assert InRange(more[i], c);
      }
    }
  }

  /** The ranges are those of the bits below `n`. */
  ghost predicate IsScanned(bits: Bits, ranges: seq<(nat, int)>, n: nat)
    requires n <= SMALL_CHARS
  {
    && AreRanges(ranges) && AreAscending(ranges) && (|ranges| > 0 ==> ranges[|ranges| - 1].1 < n)
    && forall c {:trigger Listed(ranges, c)} :: Listed(ranges, c) <==> 0 <= c < n && bits[c]
  }

  /** Inside of a run of set bits from `begin` on, or behind a clear bit. */
  ghost predicate IsRun(bits: Bits, i: nat, begin: nat, prev: bool)
    requires begin <= i <= SMALL_CHARS
  {
    prev ==> begin < i && forall c :: begin <= c < i ==> bits[c]
  }

  lemma ScanRun(bits: Bits, ranges: seq<(nat, int)>, begin: nat, i: nat)
    requires begin < i <= SMALL_CHARS && IsRun(bits, i, begin, true) && IsScanned(bits, ranges, begin)
    ensures IsScanned(bits, ranges + [(begin, i - 1)], i)
  {
    ListedNext(ranges, begin, i - 1);
    AscendingNext(ranges, begin, i - 1);
  }

  lemma ScanStep(bits: Bits, ranges: seq<(nat, int)>, i: nat, begin: nat, prev: bool)
    requires begin <= i < SMALL_CHARS && IsRun(bits, i, begin, prev)
        && IsScanned(bits, ranges, if prev then begin else i)
    ensures if bits[i] then prev ==> IsRun(bits, i + 1, begin, true)
            else IsScanned(bits, if prev then ranges + [(begin, i - 1)] else ranges, i + 1)
  {
    if prev {
      ScanRun(bits, ranges, begin, i);
    }
  }

  /** The set holds the characters of the ranges. */
  ghost predicate HoldsListed(bits: Bits, t: Tree, ranges: seq<(nat, int)>) {
    forall c {:trigger Holds(bits, t, c)} {:trigger Listed(ranges, c)} :: Holds(bits, t, c) <==> Listed(ranges, c)
  }

  lemma SpannedIsHeld(bits: Bits, t: Tree, ranges: seq<(nat, int)>)
    requires forall c {:trigger Listed(ranges, c)} :: Listed(ranges, c) <==> IsSpanned(bits, t, c)
    ensures IsNormal(Entries(t)) ==> HoldsListed(bits, t, ranges)
  {
    if IsNormal(Entries(t)) {
      forall c ensures Holds(bits, t, c) <==> Listed(ranges, c) {
        FoundIsCovered(Entries(t), c);
      }
    }
  }

  lemma HoldsListedNext(bits: Bits, t: Tree, bits': Bits, t': Tree, ranges: seq<(nat, int)>, i: nat)
    requires i < |ranges| && HoldsListed(bits, t, ranges[..i])
    requires HoldsUnion(bits, t, bits', t', ranges[i].0, ranges[i].1)
    ensures HoldsListed(bits', t', ranges[..i + 1])
  {
    assert ranges[..i + 1] == ranges[..i] + [(ranges[i].0, ranges[i].1)];
    ListedNext(ranges[..i], ranges[i].0, ranges[i].1);
    forall c ensures Holds(bits', t', c) <==> Listed(ranges[..i + 1], c) {
      assert Holds(bits, t, c) <==> Listed(ranges[..i], c);
    }
  }

  /** Normal sets that hold the same characters have the same bits and the same ranges. */
  lemma SameHeld(bits: Bits, t: Tree, bits': Bits, t': Tree, ranges: seq<(nat, int)>)
    requires IsLarge(Entries(t)) && IsLarge(Entries(t')) && HoldsListed(bits, t, ranges)
        && HoldsListed(bits', t', ranges)
    ensures bits == bits' && Entries(t) == Entries(t')
  {
    forall i | 0 <= i < SMALL_CHARS ensures bits[i] == bits'[i] {
      assert Holds(bits, t, i) <==> Listed(ranges, i);
      assert Holds(bits', t', i) <==> Listed(ranges, i);
    }
    forall c ensures Covers(Entries(t), c) <==> Covers(Entries(t'), c) {
      if SMALL_CHARS <= c {
        assert Holds(bits, t, c) <==> Listed(ranges, c);
        assert Holds(bits', t', c) <==> Listed(ranges, c);
        FoundIsCovered(Entries(t), c);
        FoundIsCovered(Entries(t'), c);
      }
    }
    NormalIsUnique(Entries(t), Entries(t'));
  }

  /** The ranges come in ascending order, and none straddles the end of the small part. */
  ghost predicate AreAscending(ranges: seq<(nat, int)>) {
    && (forall i, j :: 0 <= i < j < |ranges| ==> ranges[i].0 < ranges[j].0)
    && (forall i :: 0 <= i < |ranges| ==> ranges[i].1 < SMALL_CHARS || SMALL_CHARS <= ranges[i].0)
  }

  lemma AscendingNext(ranges: seq<(nat, int)>, from: nat, to: int)
    requires AreAscending(ranges) && (to < SMALL_CHARS || SMALL_CHARS <= from)
    requires |ranges| > 0 ==> ranges[|ranges| - 1].0 < from
    ensures AreAscending(ranges + [(from, to)])
  {
  }

  /** A range behind all others deletes nothing. */
  lemma AtEnd(t: Tree, from: nat, to: nat)
    requires IsSearchTree(t) && IsNormal(Entries(t)) && forall k :: k in Entries(t) ==> k < from
    ensures AddsClean(t, from, to) && AddsRight(t, from, to)
    ensures forall k :: k in Entries(AddTo(t, from, to)) ==> k in Entries(t) || k == from
  {
    StartIsRight(t, from);
    var (u, e) := StartOf(t, from);
    HigherIsNext(u, e);
    StartIsTight(t, from);
    assert Higher(u, e) == None;
    if ValueOf(u, e) < to {
      SetValueEntries(u, e, to);
    }
  }

  lemma PartAtEnd(t: Tree, from: nat, to: int)
    requires IsSearchTree(t) && IsNormal(Entries(t))
    requires to < SMALL_CHARS || (SMALL_CHARS <= from && forall k :: k in Entries(t) ==> k < from)
    ensures PartClean(t, from, to) && PartRight(t, from, to)
    ensures forall k :: k in Entries(AddPart(t, from, to)) ==> k in Entries(t) || k == from
  {
    if from <= to && SMALL_CHARS <= to {
      AtEnd(t, from, to);
    }
  }

  // ----- adding all ranges of another set -----

  function AddAll(t: Tree, src: Tree, last: int): Tree
    requires IsSearchTree(t) && AreBounded(Entries(t)) && IsSearchTree(src) && AreBounded(Entries(src))
    decreases CHAR_MAX - last
  {
    var h := Higher(src, last);
    if h.None? then t
    else
      AddingNext(t, src, last);
      AddAll(AddTo(t, h.value, ValueOf(src, h.value)), src, h.value)
  }

  /** Every range is added cleanly. */
  predicate AllClean(t: Tree, src: Tree, last: int)
    requires IsSearchTree(t) && AreBounded(Entries(t)) && IsSearchTree(src) && AreBounded(Entries(src))
    decreases CHAR_MAX - last
  {
    var h := Higher(src, last);
    if h.None? then true
    else
      AddingNext(t, src, last);
      var to := ValueOf(src, h.value);
      AddsClean(t, h.value, to) && AllClean(AddTo(t, h.value, to), src, h.value)
  }

  lemma AddingNext(t: Tree, src: Tree, last: int)
    requires IsSearchTree(t) && AreBounded(Entries(t)) && IsSearchTree(src) && AreBounded(Entries(src))
    requires Higher(src, last).Some?
    ensures var h := Higher(src, last).value;
            && last < h && IsNext(Entries(src), last, Some(h)) && SMALL_CHARS <= h <= ValueOf(src, h) <= CHAR_MAX
            && Entries(src)[h] == ValueOf(src, h)
            && IsSearchTree(AddTo(t, h, ValueOf(src, h))) && AreBounded(Entries(AddTo(t, h, ValueOf(src, h))))
  {
    HigherIsNext(src, last);
    var h := Higher(src, last).value;
    ValueOfEntry(src, h);
    AddToBounded(t, h, ValueOf(src, h));
  }

  /** Covered by an entry whose key is above `last`. */
  ghost predicate CoversFrom(m: Spans, c: int, last: int) {
    exists k {:trigger In(m, k, c)} :: k in m && last < k && In(m, k, c)
  }

  lemma {:induction false} AddAllMeans(t: Tree, src: Tree, last: int)
    requires IsSearchTree(t) && IsLarge(Entries(t)) && IsSearchTree(src) && AreBounded(Entries(src))
        && AllClean(t, src, last)
    ensures var u := Entries(AddAll(t, src, last));
            && IsLarge(u)
            && forall c {:trigger Covers(u, c)} :: Covers(u, c) <==>
                Covers(Entries(t), c) || CoversFrom(Entries(src), c, last)
    decreases CHAR_MAX - last
  {
    var h := Higher(src, last);
    HigherIsNext(src, last);
    if h.Some? {
      AddingNext(t, src, last);
      var to := ValueOf(src, h.value);
      AddToMeans(t, h.value, to);
      CleanIsExact(t, h.value, to);
      AddAllMeans(AddTo(t, h.value, to), src, h.value);
      CoversFromNext(Entries(src), last, h.value);
    }
  }

  lemma CoversFromNext(m: Spans, last: int, h: nat)
    requires IsNext(m, last, Some(h))
    ensures forall c {:trigger CoversFrom(m, c, last)} {:trigger CoversFrom(m, c, h)} ::
              CoversFrom(m, c, last) <==> CoversFrom(m, c, h) || h <= c <= m[h]
  {
    forall c ensures CoversFrom(m, c, last) <==> CoversFrom(m, c, h) || h <= c <= m[h] {
      assert In(m, h, c) <==> h <= c <= m[h];
    }
  }

  /** The third set holds what the first one holds and the ranges of the second one span. */
  ghost predicate HoldsBoth(bits: Bits, t: Tree, bits1: Bits, t1: Tree, bits': Bits, t': Tree) {
    forall c {:trigger Holds(bits', t', c)} :: Holds(bits', t', c) <==> Holds(bits, t, c) || IsSpanned(bits1, t1, c)
  }

  lemma SelfHolds(bits: Bits, t: Tree)
    ensures IsLarge(Entries(t)) ==> HoldsBoth(bits, t, bits, t, bits, t)
  {
    if IsLarge(Entries(t)) {
      forall c ensures Holds(bits, t, c) <==> Holds(bits, t, c) || IsSpanned(bits, t, c) {
        FoundIsCovered(Entries(t), c);
      }
    }
  }

  lemma AddAllHolds(bits: Bits, t: Tree, bits1: Bits, src: Tree, bits': Bits)
    requires IsSearchTree(t) && IsLarge(Entries(t)) && IsSearchTree(src) && AreBounded(Entries(src))
        && AllClean(t, src, -1)
    requires forall i :: 0 <= i < SMALL_CHARS ==> bits'[i] == (bits[i] || bits1[i])
    ensures var t' := AddAll(t, src, -1); IsLarge(Entries(t')) && HoldsBoth(bits, t, bits1, src, bits', t')
  {
    AddAllMeans(t, src, -1);
    var u := Entries(AddAll(t, src, -1));
    forall c ensures IsFound(u, c) <==> IsFound(Entries(t), c) || Covers(Entries(src), c) {
      assert Covers(Entries(src), c) <==> CoversFrom(Entries(src), c, -1);
      FoundIsCovered(u, c);
      FoundIsCovered(Entries(t), c);
    }
  }

  lemma CleanIsExact(t: Tree, from: nat, to: nat)
    requires IsSearchTree(t) && AddsClean(t, from, to)
    ensures AddsExactly(t, from, to)
  {
    StartIsRight(t, from);
    var (u, e) := StartOf(t, from);
    if ValueOf(u, e) < to {
      NoneHasTwoIsEnough(u, e, to);
    }
  }
}
