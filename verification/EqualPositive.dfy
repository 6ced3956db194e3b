/**
 `equal?` (src/compare.c) when no random budget is zero: every run that ends answers right, on heaps of every kind.
 A run on a heap without cycles always ends.
 */
module EqualPositive {
  import opened Objects
  import opened Partitions
  import opened EqualRuns
  import opened Equal

  ghost predicate NoneIsZero(draws: nat -> nat) {
    forall i :: draws(i) > 0
  }

  // ----- the fast comparison -----

  /** With a positive budget the fast comparison keeps its budget, merges nothing, and finds only objects alike. */
  ghost predicate IsAlike(h: Heap, eqv: Eqv, m: Log, x: Obj, y: Obj, k: int, r: Run)
    requires Closed(h) && x in h && y in h
  {
    r.Ran? && r.verdict.Budget? ==> r == Ran(Budget(k), m) && SameUnfolding(h, eqv, x, y)
  }

  lemma {:induction false} FastIsAlike(n: nat, h: Heap, eqv: Eqv, draws: nat -> nat, m: Log, x: Obj, y: Obj, k: int)
    requires CanRun(h, m, x, y) && IsEquivalence(eqv) && k > 0
    ensures IsAlike(h, eqv, m, x, y, k, FastP(n, h, eqv, draws, m, x, y, k))
    decreases n, 1, 0
  {
    if n > 0 {
      if x == y {
        forall d: nat ensures EqualToDepth(h, eqv, d, x, y) {
          EqualToDepthRefl(h, eqv, d, x);
        }
      } else if SameShape(h[x], h[y], eqv) {
        match h[x]
        case Pair(_, _) => PairIsAlike(n - 1, h, eqv, draws, m, x, y, k);
        case Vector(_) => ElementsAreAlike(n - 1, h, eqv, draws, m, x, y, 0, k);
        case _ =>
        if FastP(n, h, eqv, draws, m, x, y, k).Ran? && FastP(n, h, eqv, draws, m, x, y, k).verdict.Budget? {
          SameKids(h, eqv, x, y);
        }
      }
    }
  }

  lemma {:induction false} PairIsAlike(n: nat, h: Heap, eqv: Eqv, draws: nat -> nat, m: Log, x: Obj, y: Obj, k: int)
    requires CanRun(h, m, x, y) && IsEquivalence(eqv) && k > 0 && h[x].Pair? && h[y].Pair?
    ensures IsAlike(h, eqv, m, x, y, k, PairP(n, h, eqv, draws, m, x, y, k))
    decreases n, 3, 0
  {
    assert Kids(h[x])[0] in h && Kids(h[x])[1] in h && Kids(h[y])[0] in h && Kids(h[y])[1] in h;
    FastIsAlike(n, h, eqv, draws, m, h[x].car, h[y].car, k);
    FastIsAlike(n, h, eqv, draws, m, h[x].cdr, h[y].cdr, k);
    var r := PairP(n, h, eqv, draws, m, x, y, k);
    if r.Ran? && r.verdict.Budget? {
      var first := EqualRuns.EP(n, h, eqv, draws, m, h[x].car, h[y].car, k);
      assert first == FastP(n, h, eqv, draws, m, h[x].car, h[y].car, k) && first == Ran(Budget(k), m);
      assert r == EqualRuns.EP(n, h, eqv, draws, m, h[x].cdr, h[y].cdr, k);
      SameKids(h, eqv, x, y);
    }
  }

  lemma {:induction false} ElementsAreAlike(n: nat, h: Heap, eqv: Eqv, draws: nat -> nat, m: Log, x: Obj, y: Obj,
      i: nat,
      k: int)
    requires CanRun(h, m, x, y) && IsEquivalence(eqv) && k > 0
    requires h[x].Vector? && h[y].Vector? && i <= |h[x].elements| == |h[y].elements|
    ensures var r := ElementsP(n, h, eqv, draws, m, x, y, i, k, true);
            r.Ran? && r.verdict.Budget? ==>
              && r == Ran(Budget(k), m)
              && forall j :: i <= j < |h[x].elements| ==> SameUnfolding(h, eqv, Kids(h[x])[j], Kids(h[y])[j])
    ensures i == 0 ==> IsAlike(h, eqv, m, x, y, k, ElementsP(n, h, eqv, draws, m, x, y, i, k, true))
    decreases n, 3, |h[x].elements| - i
  {
    if i < |h[x].elements| {
      assert Kids(h[x])[i] in h && Kids(h[y])[i] in h;
      FastIsAlike(n, h, eqv, draws, m, h[x].elements[i], h[y].elements[i], k);
      ElementsAreAlike(n, h, eqv, draws, m, x, y, i + 1, k);
      assert EqualRuns.EP(n, h, eqv, draws, m, h[x].elements[i], h[y].elements[i], k) ==
             FastP(n, h, eqv, draws, m, h[x].elements[i], h[y].elements[i], k);
    }
    var r := ElementsP(n, h, eqv, draws, m, x, y, i, k, true);
    if i == 0 && r.Ran? && r.verdict.Budget? {
      assert Kids(h[x]) == h[x].elements && Kids(h[y]) == h[y].elements;
      SameKids(h, eqv, x, y);
    }
  }

  // ----- what a run that ended has found -----

  /** Merged, or of the same unfolding. */
  ghost predicate IsTaken(h: Heap, eqv: Eqv, m: seq<(Obj, Obj)>, x: Obj, y: Obj)
    requires Closed(h) && x in h && y in h && InUniverse(h.Keys, m)
  {
    MergeAll(h.Keys, m)[x] == MergeAll(h.Keys, m)[y] || SameUnfolding(h, eqv, x, y)
  }

  /** Two nodes of one shape whose children from `i` on were taken for equal. */
  ghost predicate AreTaken(h: Heap, eqv: Eqv, m: seq<(Obj, Obj)>, x: Obj, y: Obj, i: nat)
    requires Closed(h) && x in h && y in h && InUniverse(h.Keys, m)
  {
    && SameShape(h[x], h[y], eqv)
    && forall j {:trigger Kids(h[x])[j]} :: i <= j < |Kids(h[x])| ==> IsTaken(h, eqv, m, Kids(h[x])[j], Kids(h[y])[j])
  }

  /** The pair at `t` was merged and looked into. */
  ghost predicate IsSettled(h: Heap, eqv: Eqv, m: seq<(Obj, Obj)>, t: nat)
    requires Closed(h) && InUniverse(h.Keys, m) && t < |m|
  {
    AreTaken(h, eqv, m, m[t].0, m[t].1, 0)
  }

  /** A run has grown the merged pairs from `m` to `m'`, and looked into all the new ones. */
  ghost predicate HasGrown(h: Heap, eqv: Eqv, m: seq<(Obj, Obj)>, m': seq<(Obj, Obj)>)
    requires Closed(h)
  {
    && m <= m' && InUniverse(h.Keys, m')
    && forall t {:trigger IsSettled(h, eqv, m', t)} :: |m| <= t < |m'| ==> IsSettled(h, eqv, m', t)
  }

  lemma TakenStays(h: Heap, eqv: Eqv, m: seq<(Obj, Obj)>, m': seq<(Obj, Obj)>, x: Obj, y: Obj)
    requires Closed(h) && x in h && y in h && m <= m' && InUniverse(h.Keys, m')
    ensures InUniverse(h.Keys, m) && (IsTaken(h, eqv, m, x, y) ==> IsTaken(h, eqv, m', x, y))
  {
    MoreMergesAreCoarser(h.Keys, m, m');
  }

  lemma AllTakenStay(h: Heap, eqv: Eqv, m: seq<(Obj, Obj)>, m': seq<(Obj, Obj)>, x: Obj, y: Obj, i: nat)
    requires Closed(h) && x in h && y in h && m <= m' && InUniverse(h.Keys, m')
    ensures InUniverse(h.Keys, m) && (AreTaken(h, eqv, m, x, y, i) ==> AreTaken(h, eqv, m', x, y, i))
  {
    MoreMergesAreCoarser(h.Keys, m, m');
    if AreTaken(h, eqv, m, x, y, i) {
      forall j | i <= j < |Kids(h[x])| ensures IsTaken(h, eqv, m', Kids(h[x])[j], Kids(h[y])[j]) {
        TakenStays(h, eqv, m, m', Kids(h[x])[j], Kids(h[y])[j]);
      }
    }
  }

  lemma GrowsOn(h: Heap, eqv: Eqv, m: seq<(Obj, Obj)>, m1: seq<(Obj, Obj)>, m2: seq<(Obj, Obj)>)
    requires Closed(h) && HasGrown(h, eqv, m, m1) && HasGrown(h, eqv, m1, m2)
    ensures HasGrown(h, eqv, m, m2)
  {
    forall t | |m| <= t < |m2| ensures IsSettled(h, eqv, m2, t) {
      if t < |m1| {
        assert IsSettled(h, eqv, m1, t) && m1[t] == m2[t];
        AllTakenStay(h, eqv, m1, m2, m1[t].0, m1[t].1, 0);
      }
    }
  }

  /** Once its children were taken for equal, the first new pair is settled. */
  lemma FirstSettled(h: Heap, eqv: Eqv, m: seq<(Obj, Obj)>, x: Obj, y: Obj, m': seq<(Obj, Obj)>)
    requires Closed(h) && x in h && y in h && HasGrown(h, eqv, m + [(x, y)], m') && AreTaken(h, eqv, m', x, y, 0)
    ensures HasGrown(h, eqv, m, m') && IsTaken(h, eqv, m', x, y)
  {
    assert m'[|m|] == (x, y);
    forall t | |m| <= t < |m'| ensures IsSettled(h, eqv, m', t) {
    }
    MergedPairsAreTogether(h.Keys, m', |m|);
  }

  lemma {:induction false} RunTakes(n: nat, h: Heap, eqv: Eqv, draws: nat -> nat, m: Log, x: Obj, y: Obj, k: int)
    requires CanRun(h, m, x, y) && IsEquivalence(eqv) && NoneIsZero(draws)
    ensures var r := EqualRuns.EP(n, h, eqv, draws, m, x, y, k);
            r.Ran? && r.verdict.Budget? ==>
              HasGrown(h, eqv, m.merged, r.log.merged) && IsTaken(h, eqv, r.log.merged, x, y)
    decreases n, 2, 0
  {
    if k > 0 {
      FastIsAlike(n, h, eqv, draws, m, x, y, k);
    } else if k == KB {
      FastIsAlike(n, h, eqv, draws, m.Drawn(), x, y, draws(m.drawn));
    } else {
      SlowTakes(n, h, eqv, draws, m, x, y, k);
    }
  }

  lemma {:induction false} SlowTakes(n: nat, h: Heap, eqv: Eqv, draws: nat -> nat, m: Log, x: Obj, y: Obj, k: int)
    requires CanRun(h, m, x, y) && IsEquivalence(eqv) && NoneIsZero(draws)
    ensures var r := EqualRuns.SlowP(n, h, eqv, draws, m, x, y, k);
            r.Ran? && r.verdict.Budget? ==>
              HasGrown(h, eqv, m.merged, r.log.merged) && IsTaken(h, eqv, r.log.merged, x, y)
    decreases n, 1, 0
  {
    if n > 0 && x != y && SameShape(h[x], h[y], eqv) {
      if !h[x].Pair? && !h[x].Vector? {
        SameKids(h, eqv, x, y);
      } else if MergeAll(h.Keys, m.merged)[x] != MergeAll(h.Keys, m.merged)[y] {
        SlowSteps(n - 1, h, eqv, draws, m, x, y, k);
        if h[x].Pair? {
          PairTakes(n - 1, h, eqv, draws, m.With(x, y), x, y, k);
        } else {
          ElementsTake(n - 1, h, eqv, draws, m.With(x, y), x, y, 0, k - 1);
        }
        var r := EqualRuns.SlowP(n, h, eqv, draws, m, x, y, k);
        if r.Ran? && r.verdict.Budget? {
          FirstSettled(h, eqv, m.merged, x, y, r.log.merged);
        }
      }
    }
  }

  lemma {:induction false} PairTakes(n: nat, h: Heap, eqv: Eqv, draws: nat -> nat, m: Log, x: Obj, y: Obj, k: int)
    requires CanRun(h, m, x, y) && IsEquivalence(eqv) && NoneIsZero(draws) && h[x].Pair? && h[y].Pair?
    ensures var r := PairP(n, h, eqv, draws, m, x, y, k);
            r.Ran? && r.verdict.Budget? ==>
              HasGrown(h, eqv, m.merged, r.log.merged) && AreTaken(h, eqv, r.log.merged, x, y, 0)
    decreases n, 3, 0
  {
    assert Kids(h[x])[0] in h && Kids(h[x])[1] in h && Kids(h[y])[0] in h && Kids(h[y])[1] in h;
    var r := PairP(n, h, eqv, draws, m, x, y, k);
    if r.Ran? && r.verdict.Budget? {
      var r1 := EqualRuns.EP(n, h, eqv, draws, m, h[x].car, h[y].car, k);
      RunTakes(n, h, eqv, draws, m, h[x].car, h[y].car, k);
      RunTakes(n, h, eqv, draws, r1.log, h[x].cdr, h[y].cdr, r1.verdict.k);
      GrowsOn(h, eqv, m.merged, r1.log.merged, r.log.merged);
      TakenStays(h, eqv, r1.log.merged, r.log.merged, h[x].car, h[y].car);
    }
  }

  lemma {:induction false} ElementsTake(n: nat, h: Heap, eqv: Eqv, draws: nat -> nat, m: Log, x: Obj, y: Obj, i: nat,
      k: int)
    requires CanRun(h, m, x, y) && IsEquivalence(eqv) && NoneIsZero(draws)
    requires h[x].Vector? && h[y].Vector? && i <= |h[x].elements| == |h[y].elements|
    ensures var r := ElementsP(n, h, eqv, draws, m, x, y, i, k, false);
            r.Ran? && r.verdict.Budget? ==>
              HasGrown(h, eqv, m.merged, r.log.merged) && AreTaken(h, eqv, r.log.merged, x, y, i)
    decreases n, 3, |h[x].elements| - i
  {
    var r := ElementsP(n, h, eqv, draws, m, x, y, i, k, false);
    if i < |h[x].elements| && r.Ran? && r.verdict.Budget? {
      assert Kids(h[x])[i] in h && Kids(h[y])[i] in h;
      var r1 := EqualRuns.EP(n, h, eqv, draws, m, h[x].elements[i], h[y].elements[i], k);
      RunTakes(n, h, eqv, draws, m, h[x].elements[i], h[y].elements[i], k);
      ElementsTake(n, h, eqv, draws, r1.log, x, y, i + 1, r1.verdict.k);
      GrowsOn(h, eqv, m.merged, r1.log.merged, r.log.merged);
      TakenStays(h, eqv, r1.log.merged, r.log.merged, h[x].elements[i], h[y].elements[i]);
    }
  }

  // ----- merged objects unfold alike -----

  lemma {:induction false} EqualToDepthSymmetric(h: Heap, eqv: Eqv, n: nat, x: Obj, y: Obj)
    requires Closed(h) && x in h && y in h && IsEquivalence(eqv) && EqualToDepth(h, eqv, n, x, y)
    ensures EqualToDepth(h, eqv, n, y, x)
  {
    if n > 0 {
      forall i | 0 <= i < |Kids(h[y])| ensures EqualToDepth(h, eqv, n - 1, Kids(h[y])[i], Kids(h[x])[i]) {
        EqualToDepthSymmetric(h, eqv, n - 1, Kids(h[x])[i], Kids(h[y])[i]);
      }
    }
  }

  lemma {:induction false} EqualToDepthTransitive(h: Heap, eqv: Eqv, n: nat, x: Obj, y: Obj, z: Obj)
    requires Closed(h) && x in h && y in h && z in h && IsEquivalence(eqv)
    requires EqualToDepth(h, eqv, n, x, y) && EqualToDepth(h, eqv, n, y, z)
    ensures EqualToDepth(h, eqv, n, x, z)
  {
    if n > 0 {
      forall i | 0 <= i < |Kids(h[x])| ensures EqualToDepth(h, eqv, n - 1, Kids(h[x])[i], Kids(h[z])[i]) {
        EqualToDepthTransitive(h, eqv, n - 1, Kids(h[x])[i], Kids(h[y])[i], Kids(h[z])[i]);
      }
    }
  }

  ghost predicate SameToDepth(h: Heap, eqv: Eqv, n: nat, x: Obj, y: Obj)
    requires Closed(h)
  {
    x == y || (x in h && y in h && EqualToDepth(h, eqv, n, x, y))
  }

  lemma SameToDepthIsEquivalence(h: Heap, eqv: Eqv, n: nat, E: (Obj, Obj) -> bool)
    requires Closed(h) && IsEquivalence(eqv) && forall a, b :: E(a, b) == SameToDepth(h, eqv, n, a, b)
    ensures IsEquivalenceRelation(E)
  {
    forall a, b | E(a, b) ensures E(b, a) {
      if a != b {
        EqualToDepthSymmetric(h, eqv, n, a, b);
      }
    }
    forall a, b, c | E(a, b) && E(b, c) ensures E(a, c) {
      if a != b && b != c {
        EqualToDepthTransitive(h, eqv, n, a, b, c);
      }
    }
  }

  /** When all merged pairs were looked into, objects of one class agree to every depth. */
  lemma {:induction false} MergedToDepth(h: Heap, eqv: Eqv, m: seq<(Obj, Obj)>, n: nat, x: Obj, y: Obj)
    requires Closed(h) && IsEquivalence(eqv) && HasGrown(h, eqv, [], m) && x in h && y in h
    requires MergeAll(h.Keys, m)[x] == MergeAll(h.Keys, m)[y]
    ensures EqualToDepth(h, eqv, n, x, y)
    decreases n
  {
    if n > 0 {
      var E := (a: Obj, b: Obj) => SameToDepth(h, eqv, n, a, b);
      SameToDepthIsEquivalence(h, eqv, n, E);
      forall t | 0 <= t < |m| ensures E(m[t].0, m[t].1) {
        SettledToDepth(h, eqv, m, n, t);
      }
      MergedIsRelated(h.Keys, m, E, x, y);
      EqualToDepthRefl(h, eqv, n, x);
    }
  }

  lemma {:induction false} SettledToDepth(h: Heap, eqv: Eqv, m: seq<(Obj, Obj)>, n: nat, t: nat)
    requires Closed(h) && IsEquivalence(eqv) && HasGrown(h, eqv, [], m) && t < |m| && n > 0
    ensures m[t].0 in h && m[t].1 in h && EqualToDepth(h, eqv, n, m[t].0, m[t].1)
    decreases n, 0
  {
    var x, y := m[t].0, m[t].1;
    assert IsSettled(h, eqv, m, t);
    forall i | 0 <= i < |Kids(h[x])| ensures EqualToDepth(h, eqv, n - 1, Kids(h[x])[i], Kids(h[y])[i]) {
      var d, e := Kids(h[x])[i], Kids(h[y])[i];
      assert IsTaken(h, eqv, m, d, e);
      if MergeAll(h.Keys, m)[d] == MergeAll(h.Keys, m)[e] {
        MergedToDepth(h, eqv, m, n - 1, d, e);
      }
    }
  }

  /** When no budget drawn is zero, every answer is right, on every heap. */
  lemma PositiveIsRight(n: nat, h: Heap, eqv: Eqv, draws: nat -> nat, x: Obj, y: Obj)
    requires Closed(h) && x in h && y in h && IsEquivalence(eqv) && NoneIsZero(draws)
    ensures !EqualRun(n, h, eqv, draws, x, y).Running? ==>
              (EqualRun(n, h, eqv, draws, x, y).Same? <==> SameUnfolding(h, eqv, x, y))
  {
    NegativeIsRight(n, h, eqv, draws, x, y);
    DifferentUnfoldings(h, eqv, x, y);
    PreIsRight(h, eqv, x, y, K0);
    if IsCutOff(h, eqv, x, y) {
      var r := EqualRuns.EP(n, h, eqv, draws, Undrawn([]), x, y, 0);
      RunTakes(n, h, eqv, draws, Undrawn([]), x, y, 0);
      if r.Ran? && r.verdict.Budget? && !SameUnfolding(h, eqv, x, y) {
        var d: nat :| !EqualToDepth(h, eqv, d, x, y);
        MergedToDepth(h, eqv, r.log.merged, d, x, y);
      }
    }
  }

  // ----- heaps without cycles -----

  /** Objects can be ranked above all their children. */
  ghost predicate IsRanked(h: Heap, rank: map<Obj, nat>) {
    && rank.Keys == h.Keys
    && forall o, i :: o in h && 0 <= i < |Kids(h[o])| ==> Kids(h[o])[i] in rank && rank[Kids(h[o])[i]] < rank[o]
  }

  lemma {:induction false} RankedRunEnds(n: nat, h: Heap, eqv: Eqv, draws: nat -> nat, m: Log, x: Obj, y: Obj, k: int,
      rank: map<Obj, nat>)
    requires CanRun(h, m, x, y) && IsRanked(h, rank) && rank[x] < n
    ensures EqualRuns.EP(n, h, eqv, draws, m, x, y, k).Ran?
    decreases n, 2, 0
  {
    if x != y && SameShape(h[x], h[y], eqv) {
      var k' := if k > 0 then k else if k == KB then draws(m.drawn) else if h[x].Vector? then k - 1 else k;
      var m' := if k > 0 then m else if k == KB then m.Drawn() else m.With(x, y);
      if h[x].Pair? {
        RankedPairEnds(n - 1, h, eqv, draws, m', x, y, k', rank);
      } else if h[x].Vector? {
        RankedElementsEnd(n - 1, h, eqv, draws, m', x, y, 0, k', TakesFastPath(k), rank);
      }
    }
  }

  lemma {:induction false} RankedPairEnds(n: nat, h: Heap, eqv: Eqv, draws: nat -> nat, m: Log, x: Obj, y: Obj, k: int,
      rank: map<Obj, nat>)
    requires CanRun(h, m, x, y) && IsRanked(h, rank) && rank[x] <= n && h[x].Pair? && h[y].Pair?
    ensures PairP(n, h, eqv, draws, m, x, y, k).Ran?
    decreases n, 3, 0
  {
    assert Kids(h[x])[0] in h && Kids(h[x])[1] in h && Kids(h[y])[0] in h && Kids(h[y])[1] in h;
    RankedRunEnds(n, h, eqv, draws, m, h[x].car, h[y].car, k, rank);
    var r := EqualRuns.EP(n, h, eqv, draws, m, h[x].car, h[y].car, k);
    if r.verdict.Budget? {
      RankedRunEnds(n, h, eqv, draws, r.log, h[x].cdr, h[y].cdr, r.verdict.k, rank);
    }
  }

  lemma {:induction false} RankedElementsEnd(n: nat, h: Heap, eqv: Eqv, draws: nat -> nat, m: Log, x: Obj, y: Obj,
      i: nat, k: int, fast: bool, rank: map<Obj, nat>)
    requires CanRun(h, m, x, y) && IsRanked(h, rank) && rank[x] <= n
    requires h[x].Vector? && h[y].Vector? && i <= |h[x].elements| == |h[y].elements|
    ensures ElementsP(n, h, eqv, draws, m, x, y, i, k, fast).Ran?
    decreases n, 3, |h[x].elements| - i
  {
    if i < |h[x].elements| && !(fast && k <= 0) {
      assert Kids(h[x])[i] in h && Kids(h[y])[i] in h;
      RankedRunEnds(n, h, eqv, draws, m, h[x].elements[i], h[y].elements[i], k, rank);
      var r := EqualRuns.EP(n, h, eqv, draws, m, h[x].elements[i], h[y].elements[i], k);
      if r.verdict.Budget? {
        RankedElementsEnd(n, h, eqv, draws, r.log, x, y, i + 1, r.verdict.k, fast, rank);
      }
    }
  }

  /** On a heap without cycles every call ends, whatever is drawn. */
  lemma AcyclicEnds(n: nat, h: Heap, eqv: Eqv, draws: nat -> nat, x: Obj, y: Obj, rank: map<Obj, nat>)
    requires Closed(h) && x in h && y in h && IsRanked(h, rank) && rank[x] < n
    ensures !EqualRun(n, h, eqv, draws, x, y).Running?
  {
    RankedRunEnds(n, h, eqv, draws, Undrawn([]), x, y, 0, rank);
  }
}
