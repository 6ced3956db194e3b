/**
 The runs of the interleaved comparison of `equal?` (src/compare.c) on heaps of every kind.  A run may go on for
 ever, so that it is cut off after `n` nested calls.  The i-th draw of a random budget gives `draws(i)`.
 */
module EqualRuns {
  import opened Objects
  import opened Partitions

  /** The budgets that `Sg_EqualP` puts into its context. */
  const K0 := 400
  const KB := -40

  /** Either `#f`, or the budget that is left; or something that is no string was read as one. */
  datatype Verdict = Differ | Misread | Budget(k: int)

  /** The pairs of containers merged so far, and how many budgets were drawn. */
  datatype Log = Log(merged: seq<(Obj, Obj)>, drawn: nat) {
    function With(x: Obj, y: Obj): Log {
      this.(merged := merged + [(x, y)])
    }

    function Drawn(): Log {
      this.(drawn := drawn + 1)
    }
  }

  /** A run that was cut off, or its verdict and log. */
  datatype Run = Hung | Ran(verdict: Verdict, log: Log)

  /** `eP` leaves the union-find comparison only with a positive budget or at exactly `KB`. */
  predicate TakesFastPath(k: int) {
    k > 0 || k == KB
  }

  /** What the comparison of two objects of different shape ends with. */
  function Mismatch(h: Heap, x: Obj, y: Obj): Verdict
    requires x in h && y in h
  {
    if IsMixed(h[x], h[y]) then Misread else Differ
  }

  /** Where comparisons may start. */
  ghost predicate CanRun(h: Heap, m: Log, x: Obj, y: Obj) {
    Closed(h) && x in h && y in h && InUniverse(h.Keys, m.merged)
  }

  /** `eP` */
  ghost function EP(n: nat, h: Heap, eqv: Eqv, draws: nat -> nat, m: Log, x: Obj, y: Obj, k: int): (r: Run)
    requires CanRun(h, m, x, y)
    ensures r.Ran? ==> InUniverse(h.Keys, r.log.merged)
    decreases n, 2, 0
  {
    if k > 0 then FastP(n, h, eqv, draws, m, x, y, k)
    else if k == KB then FastP(n, h, eqv, draws, m.Drawn(), x, y, draws(m.drawn))
    else SlowP(n, h, eqv, draws, m, x, y, k)
  }

  /** `fast_p` */
  ghost function FastP(n: nat, h: Heap, eqv: Eqv, draws: nat -> nat, m: Log, x: Obj, y: Obj, k: int): (r: Run)
    requires CanRun(h, m, x, y)
    ensures r.Ran? ==> InUniverse(h.Keys, r.log.merged)
    decreases n, 1, 0
  {
    if n == 0 then Hung
    else if x == y then Ran(Budget(k), m)
    else if !SameShape(h[x], h[y], eqv) then Ran(Mismatch(h, x, y), m)
    else match h[x]
      case Pair(_, _) => PairP(n - 1, h, eqv, draws, m, x, y, k)
      case Vector(_) => ElementsP(n - 1, h, eqv, draws, m, x, y, 0, k, true)
      case _ => Ran(Budget(k), m)
  }

  /** `slow_p` */
  ghost function SlowP(n: nat, h: Heap, eqv: Eqv, draws: nat -> nat, m: Log, x: Obj, y: Obj, k: int): (r: Run)
    requires CanRun(h, m, x, y)
    ensures r.Ran? ==> InUniverse(h.Keys, r.log.merged)
    decreases n, 1, 0
  {
    if n == 0 then Hung
    else if x == y then Ran(Budget(k), m)
    else if !SameShape(h[x], h[y], eqv) then Ran(Mismatch(h, x, y), m)
    else if !h[x].Pair? && !h[x].Vector? then Ran(Budget(k), m)
    else if MergeAll(h.Keys, m.merged)[x] == MergeAll(h.Keys, m.merged)[y] then Ran(Budget(0), m)
    else if h[x].Pair? then PairP(n - 1, h, eqv, draws, m.With(x, y), x, y, k)
    else ElementsP(n - 1, h, eqv, draws, m.With(x, y), x, y, 0, k - 1, false)
  }

  /** The two comparisons of a pair, car first. */
  ghost function PairP(n: nat, h: Heap, eqv: Eqv, draws: nat -> nat, m: Log, x: Obj, y: Obj, k: int): (r: Run)
    requires CanRun(h, m, x, y) && h[x].Pair? && h[y].Pair?
    ensures r.Ran? ==> InUniverse(h.Keys, r.log.merged)
    decreases n, 3, 0
  {
    assert Kids(h[x])[0] in h && Kids(h[x])[1] in h && Kids(h[y])[0] in h && Kids(h[y])[1] in h;
    var r := EP(n, h, eqv, draws, m, h[x].car, h[y].car, k);
    if r.Hung? || !r.verdict.Budget? then r
    else EP(n, h, eqv, draws, r.log, h[x].cdr, h[y].cdr, r.verdict.k)
  }

  /** The element loop of a vector, which the fast comparison leaves when the budget is not positive. */
  ghost function ElementsP(n: nat, h: Heap, eqv: Eqv, draws: nat -> nat, m: Log, x: Obj, y: Obj, i: nat, k: int,
      fast: bool)
    : (r: Run)
    requires CanRun(h, m, x, y) && h[x].Vector? && h[y].Vector? && i <= |h[x].elements| == |h[y].elements|
    ensures r.Ran? ==> InUniverse(h.Keys, r.log.merged)
    decreases n, 3, |h[x].elements| - i
  {
    if i == |h[x].elements| || (fast && k <= 0) then Ran(Budget(k), m)
    else
      assert Kids(h[x])[i] in h && Kids(h[y])[i] in h;
      var r := EP(n, h, eqv, draws, m, h[x].elements[i], h[y].elements[i], k);
      if r.Hung? || !r.verdict.Budget? then r
      else ElementsP(n, h, eqv, draws, r.log, x, y, i + 1, r.verdict.k, fast)
  }

  // ----- negative verdicts are right -----

  /** On every heap and for every stream of draws, a run ends without a budget only where the objects differ. */
  lemma {:induction false} FalseIsRight(n: nat, h: Heap, eqv: Eqv, draws: nat -> nat, m: Log, x: Obj, y: Obj,
      k: int)
    requires CanRun(h, m, x, y)
    ensures var r := EP(n, h, eqv, draws, m, x, y, k);
            r.Ran? && !r.verdict.Budget? ==> Differs(h, eqv, x, y, r.verdict.Misread?)
    decreases n, 2, 0
  {
    FastIsRight(n, h, eqv, draws, m, x, y, k);
    FastIsRight(n, h, eqv, draws, m.Drawn(), x, y, draws(m.drawn));
    SlowIsRight(n, h, eqv, draws, m, x, y, k);
  }

  lemma {:induction false} FastIsRight(n: nat, h: Heap, eqv: Eqv, draws: nat -> nat, m: Log, x: Obj, y: Obj, k: int)
    requires CanRun(h, m, x, y)
    ensures var r := FastP(n, h, eqv, draws, m, x, y, k);
            r.Ran? && !r.verdict.Budget? ==> Differs(h, eqv, x, y, r.verdict.Misread?)
    decreases n, 1, 0
  {
    if n > 0 && x != y {
      if !SameShape(h[x], h[y], eqv) {
        DiffersHere(h, eqv, x, y);
      } else if h[x].Pair? {
        PairIsRight(n - 1, h, eqv, draws, m, x, y, k);
      } else if h[x].Vector? {
        ElementsAreRight(n - 1, h, eqv, draws, m, x, y, 0, k, true);
      }
    }
  }

  lemma {:induction false} SlowIsRight(n: nat, h: Heap, eqv: Eqv, draws: nat -> nat, m: Log, x: Obj, y: Obj, k: int)
    requires CanRun(h, m, x, y)
    ensures var r := SlowP(n, h, eqv, draws, m, x, y, k);
            r.Ran? && !r.verdict.Budget? ==> Differs(h, eqv, x, y, r.verdict.Misread?)
    decreases n, 1, 0
  {
    if n > 0 && x != y {
      if !SameShape(h[x], h[y], eqv) {
        DiffersHere(h, eqv, x, y);
      } else if h[x].Pair? {
        PairIsRight(n - 1, h, eqv, draws, m.With(x, y), x, y, k);
      } else if h[x].Vector? {
        ElementsAreRight(n - 1, h, eqv, draws, m.With(x, y), x, y, 0, k - 1, false);
      }
    }
  }

  lemma {:induction false} PairIsRight(n: nat, h: Heap, eqv: Eqv, draws: nat -> nat, m: Log, x: Obj, y: Obj, k: int)
    requires CanRun(h, m, x, y) && h[x].Pair? && h[y].Pair?
    ensures var r := PairP(n, h, eqv, draws, m, x, y, k);
            r.Ran? && !r.verdict.Budget? ==> Differs(h, eqv, x, y, r.verdict.Misread?)
    decreases n, 3, 0
  {
    assert Kids(h[x])[0] in h && Kids(h[x])[1] in h && Kids(h[y])[0] in h && Kids(h[y])[1] in h;
    FalseIsRight(n, h, eqv, draws, m, h[x].car, h[y].car, k);
    var r := EP(n, h, eqv, draws, m, h[x].car, h[y].car, k);
    if r.Ran? {
      if !r.verdict.Budget? {
        DiffersBelow(h, eqv, x, y, 0, r.verdict.Misread?);
      } else {
        FalseIsRight(n, h, eqv, draws, r.log, h[x].cdr, h[y].cdr, r.verdict.k);
        var r' := EP(n, h, eqv, draws, r.log, h[x].cdr, h[y].cdr, r.verdict.k);
        if r'.Ran? && !r'.verdict.Budget? {
          DiffersBelow(h, eqv, x, y, 1, r'.verdict.Misread?);
        }
      }
    }
  }

  lemma {:induction false} ElementsAreRight(n: nat, h: Heap, eqv: Eqv, draws: nat -> nat, m: Log, x: Obj, y: Obj,
      i: nat,
      k: int, fast: bool)
    requires CanRun(h, m, x, y) && h[x].Vector? && h[y].Vector? && i <= |h[x].elements| == |h[y].elements|
    ensures var r := ElementsP(n, h, eqv, draws, m, x, y, i, k, fast);
            r.Ran? && !r.verdict.Budget? ==> Differs(h, eqv, x, y, r.verdict.Misread?)
    decreases n, 3, |h[x].elements| - i
  {
    if i < |h[x].elements| {
      assert Kids(h[x])[i] in h && Kids(h[y])[i] in h;
      FalseIsRight(n, h, eqv, draws, m, h[x].elements[i], h[y].elements[i], k);
      var r := EP(n, h, eqv, draws, m, h[x].elements[i], h[y].elements[i], k);
      if r.Ran? {
        if !r.verdict.Budget? {
          DiffersBelow(h, eqv, x, y, i, r.verdict.Misread?);
        } else {
          ElementsAreRight(n, h, eqv, draws, r.log, x, y, i + 1, r.verdict.k, fast);
        }
      }
    }
  }

  // ----- longer cut-offs -----

  /** A run that ended ends the same way when it is cut off later. */
  lemma {:induction false} LongerEP(n: nat, n': nat, h: Heap, eqv: Eqv, draws: nat -> nat, m: Log, x: Obj, y: Obj,
      k: int)
    requires CanRun(h, m, x, y) && n <= n' && EP(n, h, eqv, draws, m, x, y, k).Ran?
    ensures EP(n', h, eqv, draws, m, x, y, k) == EP(n, h, eqv, draws, m, x, y, k)
    decreases n, 2, 0
  {
    if n > 0 && x != y && SameShape(h[x], h[y], eqv) {
      var fast := TakesFastPath(k);
      var k' := if k > 0 then k else if k == KB then draws(m.drawn) else if h[x].Vector? then k - 1 else k;
      var m' := if k > 0 then m else if k == KB then m.Drawn() else m.With(x, y);
      if h[x].Pair? && (fast || MergeAll(h.Keys, m.merged)[x] != MergeAll(h.Keys, m.merged)[y]) {
        LongerPair(n - 1, n' - 1, h, eqv, draws, m', x, y, k');
      } else if h[x].Vector? && (fast || MergeAll(h.Keys, m.merged)[x] != MergeAll(h.Keys, m.merged)[y]) {
        LongerElements(n - 1, n' - 1, h, eqv, draws, m', x, y, 0, k', fast);
      }
    }
  }

  lemma {:induction false} LongerPair(n: nat, n': nat, h: Heap, eqv: Eqv, draws: nat -> nat, m: Log, x: Obj,
      y: Obj, k: int)
    requires CanRun(h, m, x, y) && h[x].Pair? && h[y].Pair?
    requires n <= n' && PairP(n, h, eqv, draws, m, x, y, k).Ran?
    ensures PairP(n', h, eqv, draws, m, x, y, k) == PairP(n, h, eqv, draws, m, x, y, k)
    decreases n, 3, 0
  {
    assert Kids(h[x])[0] in h && Kids(h[x])[1] in h && Kids(h[y])[0] in h && Kids(h[y])[1] in h;
    LongerEP(n, n', h, eqv, draws, m, h[x].car, h[y].car, k);
    var r := EP(n, h, eqv, draws, m, h[x].car, h[y].car, k);
    if r.verdict.Budget? {
      LongerEP(n, n', h, eqv, draws, r.log, h[x].cdr, h[y].cdr, r.verdict.k);
    }
  }

  lemma {:induction false} LongerElements(n: nat, n': nat, h: Heap, eqv: Eqv, draws: nat -> nat, m: Log, x: Obj,
      y: Obj,
      i: nat, k: int, fast: bool)
    requires CanRun(h, m, x, y) && h[x].Vector? && h[y].Vector? && i <= |h[x].elements| == |h[y].elements|
    requires n <= n' && ElementsP(n, h, eqv, draws, m, x, y, i, k, fast).Ran?
    ensures ElementsP(n', h, eqv, draws, m, x, y, i, k, fast) == ElementsP(n, h, eqv, draws, m, x, y, i, k, fast)
    decreases n, 3, |h[x].elements| - i
  {
    if i < |h[x].elements| && !(fast && k <= 0) {
      assert Kids(h[x])[i] in h && Kids(h[y])[i] in h;
      LongerEP(n, n', h, eqv, draws, m, h[x].elements[i], h[y].elements[i], k);
      var r := EP(n, h, eqv, draws, m, h[x].elements[i], h[y].elements[i], k);
      if r.verdict.Budget? {
        LongerElements(n, n', h, eqv, draws, r.log, x, y, i + 1, r.verdict.k, fast);
      }
    }
  }

  /** From index `i` on, the slow element loop goes on like the whole loop. */
  ghost predicate IsAt(n: nat, h: Heap, eqv: Eqv, draws: nat -> nat, m0: Log, k0: int, x: Obj, y: Obj,
      m: Log, i: nat, k: int)
    requires CanRun(h, m0, x, y) && CanRun(h, m, x, y)
    requires h[x].Vector? && h[y].Vector? && i <= |h[x].elements| == |h[y].elements|
  {
    forall n': nat {:trigger ElementsP(n', h, eqv, draws, m0, x, y, 0, k0, false)} :: n <= n' ==>
      ElementsP(n', h, eqv, draws, m0, x, y, 0, k0, false) == ElementsP(n', h, eqv, draws, m, x, y, i, k, false)
  }

  /** One element more. */
  lemma GoesOn(n: nat, h: Heap, eqv: Eqv, draws: nat -> nat, m0: Log, k0: int, x: Obj, y: Obj,
      m: Log, i: nat, k: int, n': nat, r: Run)
    requires CanRun(h, m0, x, y) && CanRun(h, m, x, y)
    requires h[x].Vector? && h[y].Vector? && i < |h[x].elements| == |h[y].elements|
    requires Kids(h[x])[i] in h && Kids(h[y])[i] in h && IsAt(n, h, eqv, draws, m0, k0, x, y, m, i, k)
    requires r == EP(n', h, eqv, draws, m, h[x].elements[i], h[y].elements[i], k) && r.Ran?
    ensures var n1 := if n < n' then n' else n;
            if r.verdict.Budget? then IsAt(n1, h, eqv, draws, m0, k0, x, y, r.log, i + 1, r.verdict.k)
            else ElementsP(n1, h, eqv, draws, m0, x, y, 0, k0, false) == r
  {
    var n1 := if n < n' then n' else n;
    forall n2: nat | n1 <= n2
      ensures ElementsP(n2, h, eqv, draws, m0, x, y, 0, k0, false) ==
              if r.verdict.Budget? then ElementsP(n2, h, eqv, draws, r.log, x, y, i + 1, r.verdict.k, false) else r
    {
      LongerEP(n', n2, h, eqv, draws, m, h[x].elements[i], h[y].elements[i], k);
    }
  }

  /** What a slow comparison of two containers of one kind comes to. */
  lemma SlowSteps(n: nat, h: Heap, eqv: Eqv, draws: nat -> nat, m: Log, x: Obj, y: Obj, k: int)
    requires CanRun(h, m, x, y) && x != y && SameContainer(h[x], h[y])
    ensures CanRun(h, m.With(x, y), x, y)
    ensures SlowP(n + 1, h, eqv, draws, m, x, y, k) ==
            if MergeAll(h.Keys, m.merged)[x] == MergeAll(h.Keys, m.merged)[y] then Ran(Budget(0), m)
            else if h[x].Pair? then PairP(n, h, eqv, draws, m.With(x, y), x, y, k)
            else ElementsP(n, h, eqv, draws, m.With(x, y), x, y, 0, k - 1, false)
  {
  }
}
