/**
 How far a budget takes the lock-step walk of two objects, in left-to-right order (src/compare.c, `pre_p`): each pair
 that is entered and each vector element that is visited costs one.
 */
module Walks {
  import opened Objects

  /** What the walk of two objects finds.  `Car` ends in the cars; a pair that cannot be paid for is `Cut`. */
  datatype Walk = Alike | Split | Cut | Car(car: Walk) | Both(car: Walk, cdr: Walk) | Elements(loop: Loop)

  /** The elements from some index on: none is left, the next one cannot be paid for, the next one differs, or the walk
      goes on behind it. */
  datatype Loop = Done | Stopped | Last(walk: Walk) | Next(walk: Walk, rest: Loop)

  /** A difference was met. */
  predicate Splits(w: Walk) {
    match w
    case Alike => false
    case Split => true
    case Cut => false
    case Car(_) => true
    case Both(_, d) => Splits(d)
    case Elements(l) => LoopSplits(l)
  }

  predicate LoopSplits(l: Loop) {
    match l
    case Done => false
    case Stopped => false
    case Last(_) => true
    case Next(_, rest) => LoopSplits(rest)
  }

  /** Something was not entered. */
  predicate IsCut(w: Walk) {
    match w
    case Alike => false
    case Split => false
    case Cut => true
    case Car(a) => IsCut(a)
    case Both(a, d) => IsCut(a) || IsCut(d)
    case Elements(l) => IsLoopCut(l)
  }

  predicate IsLoopCut(l: Loop) {
    match l
    case Done => false
    case Stopped => true
    case Last(w) => IsCut(w)
    case Next(w, rest) => IsCut(w) || IsLoopCut(rest)
  }

  /** The number of pairs entered and elements visited. */
  function Visits(w: Walk): nat {
    match w
    case Alike => 0
    case Split => 0
    case Cut => 0
    case Car(a) => 1 + Visits(a)
    case Both(a, d) => 1 + Visits(a) + Visits(d)
    case Elements(l) => LoopVisits(l)
  }

  function LoopVisits(l: Loop): nat {
    match l
    case Done => 0
    case Stopped => 0
    case Last(w) => 1 + Visits(w)
    case Next(w, rest) => 1 + Visits(w) + LoopVisits(rest)
  }

  /** Nothing is entered any more once something was not. */
  predicate IsOrderly(w: Walk) {
    match w
    case Alike => true
    case Split => true
    case Cut => true
    case Car(a) => IsOrderly(a)
    case Both(a, d) => IsOrderly(a) && IsOrderly(d) && (IsCut(a) ==> Visits(d) == 0)
    case Elements(l) => IsLoopOrderly(l)
  }

  predicate IsLoopOrderly(l: Loop) {
    match l
    case Done => true
    case Stopped => true
    case Last(w) => IsOrderly(w)
    case Next(w, rest) => IsOrderly(w) && IsLoopOrderly(rest) && (IsCut(w) ==> LoopVisits(rest) == 0)
  }

  lemma UncutIsOrderly(w: Walk)
    requires !IsCut(w)
    ensures IsOrderly(w)
    decreases w
  {
    match w
    case Car(a) => UncutIsOrderly(a);
    case Both(a, d) =>
      UncutIsOrderly(a);
      UncutIsOrderly(d);
    case Elements(l) => UncutLoopIsOrderly(l);
    case _ =>
  }

  lemma UncutLoopIsOrderly(l: Loop)
    requires !IsLoopCut(l)
    ensures IsLoopOrderly(l)
    decreases l
  {
    match l
    case Last(w) => UncutIsOrderly(w);
    case Next(w, rest) =>
      UncutIsOrderly(w);
      UncutLoopIsOrderly(rest);
    case _ =>
  }

  /** The walk is one of `x` and `y`, up to the first difference. */
  ghost predicate IsWalk(h: Heap, eqv: Eqv, x: Obj, y: Obj, w: Walk)
    requires Closed(h) && x in h && y in h
    decreases w
  {
    match w
    case Alike => x == y || (SameShape(h[x], h[y], eqv) && !SameContainer(h[x], h[y]))
    case Split => x != y && !SameShape(h[x], h[y], eqv)
    case Cut => x != y && h[x].Pair? && h[y].Pair?
    case Car(a) =>
      && x != y && h[x].Pair? && h[y].Pair? && Splits(a)
      && IsWalk(h, eqv, Kids(h[x])[0], Kids(h[y])[0], a)
    case Both(a, d) =>
      && x != y && h[x].Pair? && h[y].Pair? && !Splits(a)
      && IsWalk(h, eqv, Kids(h[x])[0], Kids(h[y])[0], a) && IsWalk(h, eqv, Kids(h[x])[1], Kids(h[y])[1], d)
    case Elements(l) =>
      x != y && h[x].Vector? && SameContainer(h[x], h[y]) && IsLoop(h, eqv, x, y, 0, l)
  }

  ghost predicate IsLoop(h: Heap, eqv: Eqv, x: Obj, y: Obj, i: nat, l: Loop)
    requires Closed(h) && x in h && y in h && h[x].Vector? && SameContainer(h[x], h[y])
    decreases l
  {
    if i >= |Kids(h[x])| then l.Done?
    else match l
      case Done => false
      case Stopped => true
      case Last(w) => Splits(w) && IsWalk(h, eqv, Kids(h[x])[i], Kids(h[y])[i], w)
      case Next(w, rest) =>
        !Splits(w) && IsWalk(h, eqv, Kids(h[x])[i], Kids(h[y])[i], w) && IsLoop(h, eqv, x, y, i + 1, rest)
  }

  /** As much as `k` visits reach: all of it, or as far as they go. */
  predicate IsSpent(w: Walk, k: nat) {
    IsOrderly(w) && Visits(w) <= k && (IsCut(w) ==> Visits(w) == k)
  }

  predicate IsLoopSpent(l: Loop, k: nat) {
    IsLoopOrderly(l) && LoopVisits(l) <= k && (IsLoopCut(l) ==> LoopVisits(l) == k)
  }

  ghost predicate IsWalkOf(h: Heap, eqv: Eqv, x: Obj, y: Obj, w: Walk, k: nat)
    requires Closed(h) && x in h && y in h
  {
    IsWalk(h, eqv, x, y, w) && IsSpent(w, k)
  }

  ghost predicate IsLoopOf(h: Heap, eqv: Eqv, x: Obj, y: Obj, i: nat, l: Loop, k: nat)
    requires Closed(h) && x in h && y in h && h[x].Vector? && SameContainer(h[x], h[y])
  {
    IsLoop(h, eqv, x, y, i, l) && IsLoopSpent(l, k)
  }
}
