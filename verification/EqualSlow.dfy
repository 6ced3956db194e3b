/**
 Which difference `equal?` meets first once the precheck was cut off (src/compare.c,
     `slow_p`): the walk is left to right,
 and what was taken for equal before is not entered again.
 */
module EqualSlow {
  import opened Objects
  import opened Partitions
  import opened EqualRuns
  import opened Equal

  type Merges = seq<(Obj, Obj)>

  /** What the walk of two objects finds.  `between` are the pairs merged by the time the cdr, or the next element, is
      looked at. */
  datatype Slow =
    | Equal
    | Unlike(mixed: bool)
    | Known
    | InCar(car: Slow)
    | InBoth(car: Slow, between: Merges, cdr: Slow)
    | InElements(rest: Rest)

  datatype Rest = NoMore | Stops(walk: Slow) | Goes(walk: Slow, between: Merges, rest: Rest)

  /** The first difference, if there is one: whether it is a string opposite something else. */
  datatype Find = Nothing | Found(mixed: bool)

  function Finds(w: Slow): Find {
    match w
    case Equal => Nothing
    case Unlike(mixed) => Found(mixed)
    case Known => Nothing
    case InCar(a) => Finds(a)
    case InBoth(_, _, d) => Finds(d)
    case InElements(rest) => RestFinds(rest)
  }

  function RestFinds(rest: Rest): Find {
    match rest
    case NoMore => Nothing
    case Stops(w) => Finds(w)
    case Goes(_, _, more) => RestFinds(more)
  }

  ghost predicate AreRelated(h: Heap, m: Merges, x: Obj, y: Obj)
    requires InUniverse(h.Keys, m) && x in h && y in h
  {
    MergeAll(h.Keys, m)[x] == MergeAll(h.Keys, m)[y]
  }

  /** Two containers of one kind that were not taken for equal yet are taken for equal, and entered. */
  ghost predicate IsEntered(h: Heap, m: Merges, x: Obj, y: Obj)
    requires InUniverse(h.Keys, m) && x in h && y in h
  {
    x != y && SameContainer(h[x], h[y]) && !AreRelated(h, m, x, y) && InUniverse(h.Keys, m + [(x, y)])
  }

  /** The walk is one of `x` and `y` that starts with the merged pairs `m` and ends with `m'`. */
  ghost predicate IsSlow(h: Heap, eqv: Eqv, m: Merges, x: Obj, y: Obj, w: Slow, m': Merges)
    requires Closed(h) && x in h && y in h && InUniverse(h.Keys, m)
    decreases w
  {
    match w
    case Equal => m' == m && (x == y || (SameShape(h[x], h[y], eqv) && !SameContainer(h[x], h[y])))
    case Unlike(mixed) => m' == m && x != y && !SameShape(h[x], h[y], eqv) && mixed == IsMixed(h[x], h[y])
    case Known => m' == m && x != y && SameContainer(h[x], h[y]) && AreRelated(h, m, x, y)
    case InCar(a) =>
      && IsEntered(h, m, x, y) && h[x].Pair? && Finds(a).Found?
      && IsSlow(h, eqv, m + [(x, y)], Kids(h[x])[0], Kids(h[y])[0], a, m')
    case InBoth(a, between, d) =>
      && IsEntered(h, m, x, y) && h[x].Pair? && Finds(a).Nothing? && InUniverse(h.Keys, between)
      && IsSlow(h, eqv, m + [(x, y)], Kids(h[x])[0], Kids(h[y])[0], a, between)
      && IsSlow(h, eqv, between, Kids(h[x])[1], Kids(h[y])[1], d, m')
    case InElements(rest) =>
      IsEntered(h, m, x, y) && h[x].Vector? && IsRest(h, eqv, m + [(x, y)], x, y, 0, rest, m')
  }

  ghost predicate IsRest(h: Heap, eqv: Eqv, m: Merges, x: Obj, y: Obj, i: nat, rest: Rest, m': Merges)
    requires Closed(h) && x in h && y in h && InUniverse(h.Keys, m) && SameContainer(h[x], h[y])
    decreases rest
  {
    if i >= |Kids(h[x])| then rest.NoMore? && m' == m
    else match rest
      case NoMore => false
      case Stops(w) => Finds(w).Found? && IsSlow(h, eqv, m, Kids(h[x])[i], Kids(h[y])[i], w, m')
      case Goes(w, between, more) =>
        && Finds(w).Nothing? && InUniverse(h.Keys, between)
        && IsSlow(h, eqv, m, Kids(h[x])[i], Kids(h[y])[i], w, between)
        && IsRest(h, eqv, between, x, y, i + 1, more, m')
  }

  /** There is one such walk. */
  lemma {:induction false} SlowIsUnique(h: Heap, eqv: Eqv, m: Merges, x: Obj, y: Obj, w: Slow, m1: Merges, v: Slow,
      m2: Merges)
    requires Closed(h) && x in h && y in h && InUniverse(h.Keys, m)
    requires IsSlow(h, eqv, m, x, y, w, m1) && IsSlow(h, eqv, m, x, y, v, m2)
    ensures w == v && m1 == m2
    decreases w
  {
    match w
    case InCar(a) =>
      var b := v.car;
      SlowIsUnique(h, eqv, m + [(x, y)], Kids(h[x])[0], Kids(h[y])[0], a, m1, b, if v.InCar? then m2 else v.between);
    case InBoth(a, between, d) =>
      SlowIsUnique(h, eqv, m + [(x, y)], Kids(h[x])[0], Kids(h[y])[0], a, between, v.car,
          if v.InCar? then m2 else v.between);
      SlowIsUnique(h, eqv, between, Kids(h[x])[1], Kids(h[y])[1], d, m1, v.cdr, m2);
    case InElements(rest) =>
      RestIsUnique(h, eqv, m + [(x, y)], x, y, 0, rest, m1, v.rest, m2);
    case _ =>
  }

  lemma {:induction false} RestIsUnique(h: Heap, eqv: Eqv, m: Merges, x: Obj, y: Obj, i: nat, r: Rest, m1: Merges,
      s: Rest,
      m2: Merges)
    requires Closed(h) && x in h && y in h && InUniverse(h.Keys, m) && SameContainer(h[x], h[y])
    requires IsRest(h, eqv, m, x, y, i, r, m1) && IsRest(h, eqv, m, x, y, i, s, m2)
    ensures r == s && m1 == m2
    decreases r
  {
    match r
    case NoMore =>
    case Stops(w) =>
      SlowIsUnique(h, eqv, m, Kids(h[x])[i], Kids(h[y])[i], w, m1, s.walk, if s.Stops? then m2 else s.between);
    case Goes(w, between, more) =>
      SlowIsUnique(h, eqv, m, Kids(h[x])[i], Kids(h[y])[i], w, between, s.walk, if s.Stops? then m2 else s.between);
      RestIsUnique(h, eqv, between, x, y, i + 1, more, m1, s.rest, m2);
  }

  // ----- the runs follow the walk -----

  /** What a verdict says about the first difference. */
  predicate Tells(v: Verdict, f: Find) {
    match v
    case Budget(_) => f.Nothing?
    case Differ => f == Found(false)
    case Misread => f == Found(true)
  }

  /** The state in which comparisons take the slow path. */
  ghost predicate IsSlowState(h: Heap, m: Merges, k: int) {
    InUniverse(h.Keys, m) && MergedContainers(h, m) && Affordable(h, MergeAll(h.Keys, m), k)
  }

  /** A run that ended has followed the walk. */
  ghost predicate Follows(h: Heap, eqv: Eqv, m: Merges, x: Obj, y: Obj, r: Run, w: Slow)
    requires Closed(h) && x in h && y in h && InUniverse(h.Keys, m)
  {
    r.Ran? ==>
      && IsSlow(h, eqv, m, x, y, w, r.log.merged) && Tells(r.verdict, Finds(w))
      && (r.verdict.Budget? ==> IsSlowState(h, r.log.merged, r.verdict.k))
  }

  ghost predicate RestFollows(h: Heap, eqv: Eqv, m: Merges, x: Obj, y: Obj, i: nat, r: Run, rest: Rest)
    requires Closed(h) && x in h && y in h && InUniverse(h.Keys, m) && SameContainer(h[x], h[y])
  {
    r.Ran? ==>
      && IsRest(h, eqv, m, x, y, i, rest, r.log.merged) && Tells(r.verdict, RestFinds(rest))
      && (r.verdict.Budget? ==> IsSlowState(h, r.log.merged, r.verdict.k))
  }

  lemma KnownIsAffordable(h: Heap, m: Merges)
    requires InUniverse(h.Keys, m) && MergedContainers(h, m)
    ensures IsSlowState(h, m, 0)
  {
    ClassesAtMost(MergeAll(h.Keys, m), Vectors(h));
  }

  lemma EnteredIsAffordable(h: Heap, m: Merges, x: Obj, y: Obj, k: int)
    requires IsSlowState(h, m, k) && x in h && y in h && x != y && SameContainer(h[x], h[y]) && !AreRelated(h, m, x, y)
    ensures IsEntered(h, m, x, y) && IsSlowState(h, m + [(x, y)], if h[x].Vector? then k - 1 else k)
  {
    MergePays(h, m, x, y, k);
    assert (m + [(x, y)])[..|m|] == m;
  }

  lemma {:induction false} RunFollows(n: nat, h: Heap, eqv: Eqv, draws: nat -> nat, m: Log, x: Obj, y: Obj, k: int)
    returns (w: Slow)
    requires CanRun(h, m, x, y) && IsEquivalence(eqv) && |Vectors(h)| <= -KB && IsSlowState(h, m.merged, k)
    ensures Follows(h, eqv, m.merged, x, y, EqualRuns.EP(n, h, eqv, draws, m, x, y, k), w)
    decreases n, 2, 0
  {
    AffordableIsSlow(h, MergeAll(h.Keys, m.merged), k);
    w := SlowFollows(n, h, eqv, draws, m, x, y, k);
  }

  lemma {:induction false} SlowFollows(n: nat, h: Heap, eqv: Eqv, draws: nat -> nat, m: Log, x: Obj, y: Obj, k: int)
    returns (w: Slow)
    requires CanRun(h, m, x, y) && IsEquivalence(eqv) && |Vectors(h)| <= -KB && IsSlowState(h, m.merged, k)
    ensures Follows(h, eqv, m.merged, x, y, EqualRuns.SlowP(n, h, eqv, draws, m, x, y, k), w)
    decreases n, 1, 0
  {
    w := Slow.Equal;
    if n > 0 && x != y {
      if !SameShape(h[x], h[y], eqv) {
        w := Unlike(IsMixed(h[x], h[y]));
      } else if SameContainer(h[x], h[y]) {
        SlowSteps(n - 1, h, eqv, draws, m, x, y, k);
        if AreRelated(h, m.merged, x, y) {
          w := Known;
          KnownIsAffordable(h, m.merged);
        } else {
          EnteredIsAffordable(h, m.merged, x, y, k);
          if h[x].Pair? {
            w := PairFollows(n - 1, h, eqv, draws, m.merged, m.With(x, y), x, y, k);
          } else {
            var rest := ElementsFollow(n - 1, h, eqv, draws, m.With(x, y), x, y, 0, k - 1);
            w := InElements(rest);
          }
        }
      }
    }
  }

  lemma {:induction false} PairFollows(n: nat, h: Heap, eqv: Eqv, draws: nat -> nat, m0: Merges, m: Log, x: Obj, y: Obj,
      k: int) returns (w: Slow)
    requires CanRun(h, m, x, y) && IsEquivalence(eqv) && |Vectors(h)| <= -KB && h[x].Pair? && h[y].Pair?
    requires InUniverse(h.Keys, m0) && IsEntered(h, m0, x, y) && m.merged == m0 + [(x, y)]
        && IsSlowState(h, m.merged, k)
    ensures Follows(h, eqv, m0, x, y, PairP(n, h, eqv, draws, m, x, y, k), w)
    decreases n, 3, 0
  {
    assert Kids(h[x])[0] in h && Kids(h[x])[1] in h && Kids(h[y])[0] in h && Kids(h[y])[1] in h;
    var r1 := EqualRuns.EP(n, h, eqv, draws, m, h[x].car, h[y].car, k);
    var a := RunFollows(n, h, eqv, draws, m, h[x].car, h[y].car, k);
    w := InCar(a);
    if r1.Ran? && r1.verdict.Budget? {
      var d := RunFollows(n, h, eqv, draws, r1.log, h[x].cdr, h[y].cdr, r1.verdict.k);
      w := InBoth(a, r1.log.merged, d);
      BothFollow(h, eqv, m0, m.merged, x, y, a, r1.log.merged, d,
          EqualRuns.EP(n, h, eqv, draws, r1.log, h[x].cdr, h[y].cdr, r1.verdict.k));
    }
  }

  lemma BothFollow(h: Heap, eqv: Eqv, m0: Merges, m1: Merges, x: Obj, y: Obj, a: Slow, m2: Merges, d: Slow, r: Run)
    requires Closed(h) && x in h && y in h && h[x].Pair? && h[y].Pair?
    requires h[x].car in h && h[x].cdr in h && h[y].car in h && h[y].cdr in h
    requires InUniverse(h.Keys, m0) && IsEntered(h, m0, x, y) && m1 == m0 + [(x, y)] && InUniverse(h.Keys, m2)
    requires IsSlow(h, eqv, m1, h[x].car, h[y].car, a, m2) && Finds(a).Nothing?
    requires Follows(h, eqv, m2, h[x].cdr, h[y].cdr, r, d)
    ensures Follows(h, eqv, m0, x, y, r, InBoth(a, m2, d))
  {
  }

  lemma {:induction false} ElementsFollow(n: nat, h: Heap, eqv: Eqv, draws: nat -> nat, m: Log, x: Obj, y: Obj, i: nat,
      k: int) returns (rest: Rest)
    requires CanRun(h, m, x, y) && IsEquivalence(eqv) && |Vectors(h)| <= -KB && IsSlowState(h, m.merged, k)
    requires h[x].Vector? && SameContainer(h[x], h[y]) && i <= |h[x].elements|
    ensures RestFollows(h, eqv, m.merged, x, y, i, ElementsP(n, h, eqv, draws, m, x, y, i, k, false), rest)
    decreases n, 3, |h[x].elements| - i
  {
    rest := NoMore;
    if i < |h[x].elements| {
      assert Kids(h[x])[i] in h && Kids(h[y])[i] in h;
      var r1 := EqualRuns.EP(n, h, eqv, draws, m, h[x].elements[i], h[y].elements[i], k);
      var w := RunFollows(n, h, eqv, draws, m, h[x].elements[i], h[y].elements[i], k);
      rest := Stops(w);
      if r1.Ran? && r1.verdict.Budget? {
        var more := ElementsFollow(n, h, eqv, draws, r1.log, x, y, i + 1, r1.verdict.k);
        rest := Goes(w, r1.log.merged, more);
      }
    }
  }

  /** Once the budget of the precheck is used up, the call ends with the first difference of the left-to-right walk: it
      crashes exactly when that is a string opposite something else. */
  lemma FirstDifferenceDecides(n: nat, h: Heap, eqv: Eqv, draws: nat -> nat, x: Obj, y: Obj)
    returns (w: Slow, m: Merges)
    requires Closed(h) && x in h && y in h && IsEquivalence(eqv) && |Vectors(h)| <= -KB
    requires IsUsedUp(h, eqv, x, y, K0) && !EqualRun(n, h, eqv, draws, x, y).Running?
    ensures IsSlow(h, eqv, [], x, y, w, m)
    ensures var r := EqualRun(n, h, eqv, draws, x, y);
            && (r.Crash? <==> Finds(w) == Found(true)) && (r.Different? <==> Finds(w) == Found(false))
            && (r.Same? <==> Finds(w) == Nothing)
  {
    CutOffIsUsedUp(h, eqv, x, y);
    KnownIsAffordable(h, []);
    w := RunFollows(n, h, eqv, draws, Undrawn([]), x, y, 0);
    m := EqualRuns.EP(n, h, eqv, draws, Undrawn([]), x, y, 0).log.merged;
  }
}
