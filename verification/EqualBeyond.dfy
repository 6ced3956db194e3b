/**
 `equal?` (src/compare.c) on heaps with more than 40 vectors: after 40 merges of vectors the comparison leaves the
 union-find forest with a random budget.  A budget of zero skips the vectors it meets, and a positive one is never
 lowered, so that a cycle is followed for ever.
 */
module EqualBeyond {
  import opened Objects
  import opened Partitions
  import opened EqualRuns
  import opened Equal

  /** Two towers of 40 vectors of one element, from the addresses `a` and `b` on. */
  ghost predicate AreTowers(h: Heap, a: int, b: int) {
    && Closed(h) && a + 40 < b && Obj(a + 40) in h && Obj(b + 40) in h
    && forall j {:trigger Floor(h, a, b, j)} :: 0 <= j < 40 ==> Floor(h, a, b, j)
  }

  ghost predicate Floor(h: Heap, a: int, b: int, j: int) {
    && Obj(a + j) in h && h[Obj(a + j)] == Vector([Obj(a + j + 1)])
    && Obj(b + j) in h && h[Obj(b + j)] == Vector([Obj(b + j + 1)])
  }

  /** No object from floor `i` of the first tower on was merged. */
  ghost predicate IsFresh(m: seq<(Obj, Obj)>, a: int, i: int) {
    forall t :: 0 <= t < |m| ==> !(a + i <= m[t].0.address < a + 40) && !(a + i <= m[t].1.address < a + 40)
  }

  /** An object that was never merged is in a class of its own. */
  lemma Unmerged(universe: set<Obj>, m: seq<(Obj, Obj)>, x: Obj, y: Obj)
    requires InUniverse(universe, m) && x in universe && y in universe && x != y
    requires forall t :: 0 <= t < |m| ==> m[t].0 != x && m[t].1 != x
    ensures MergeAll(universe, m)[x] != MergeAll(universe, m)[y]
  {
    var E := (c: Obj, d: Obj) => c == d || (c != x && d != x);
    if MergeAll(universe, m)[x] == MergeAll(universe, m)[y] {
      assert IsEquivalenceRelation(E);
      MergedIsRelated(universe, m, E, x, y);
    }
  }

  /** Two vectors of one element come to the comparison of their elements, with a budget of one less. */
  lemma FloorRuns(n: nat, h: Heap, eqv: Eqv, draws: nat -> nat, m: Log, x: Obj, y: Obj, d: Obj, e: Obj, k: int)
    requires CanRun(h, m, x, y) && x != y && d in h && e in h && h[x] == Vector([d]) && h[y] == Vector([e])
    requires MergeAll(h.Keys, m.merged)[x] != MergeAll(h.Keys, m.merged)[y] && !TakesFastPath(k) && n > 0
    ensures CanRun(h, m.With(x, y), d, e)
    ensures var r := EqualRuns.EP(n - 1, h, eqv, draws, m.With(x, y), d, e, k - 1);
            r.Hung? || r.verdict.Budget? ==> EqualRuns.EP(n, h, eqv, draws, m, x, y, k) == r
  {
    SlowSteps(n - 1, h, eqv, draws, m, x, y, k);
  }

  /** Climbing the towers pays the whole budget: their tops are compared with the budget that abandons the forest. */
  lemma {:induction false} TowersRun(n: nat, h: Heap, eqv: Eqv, draws: nat -> nat, m: Log, a: int, b: int, i: int)
    returns (m': Log)
    requires AreTowers(h, a, b) && 0 <= i <= 40 && InUniverse(h.Keys, m.merged) && IsFresh(m.merged, a, i)
    ensures InUniverse(h.Keys, m'.merged) && m'.drawn == m.drawn && CanRun(h, m, Obj(a + i), Obj(b + i))
    ensures var run := EqualRuns.EP(n, h, eqv, draws, m, Obj(a + i), Obj(b + i), -i);
            var top := if n < 40 - i then Hung
                else EqualRuns.EP(n - (40 - i), h, eqv, draws, m', Obj(a + 40), Obj(b + 40), KB);
            (top.Hung? || top.verdict.Budget?) ==> run == top
    decreases 40 - i
  {
    m' := m;
    if i < 40 {
      assert Floor(h, a, b, i);
      var x, y, d, e := Obj(a + i), Obj(b + i), Obj(a + i + 1), Obj(b + i + 1);
      assert Kids(h[x])[0] == d && Kids(h[y])[0] == e;
      if n > 0 {
        Unmerged(h.Keys, m.merged, x, y);
        FloorRuns(n, h, eqv, draws, m, x, y, d, e, -i);
        m' := TowersRun(n - 1, h, eqv, draws, m.With(x, y), a, b, i + 1);
      }
    }
  }

  // ----- a wrong answer -----

  /** The lists (p . v) and (q . w), where p and q are two cyclic lists. */
  ghost predicate AreLists(h: Heap, x: Obj, y: Obj, p: Obj, q: Obj, one: Obj, v: Obj, w: Obj) {
    && x in h && y in h && p in h && q in h && one in h && v in h && w in h && x != y && p != q && p != x && p != y
    && h[x] == Pair(p, v) && h[y] == Pair(q, w) && h[p] == Pair(one, p) && h[q] == Pair(one, q)
  }

  /** An object that is no floor of the first tower. */
  predicate IsOutside(a: int, o: Obj) {
    !(a <= o.address < a + 40)
  }

  /** Lists that end in two towers, on top of which are vectors of the atoms 1 and 2. */
  ghost predicate DifferOnTop(h: Heap, a: int, b: int, x: Obj, y: Obj, p: Obj, q: Obj, one: Obj, two: Obj) {
    && AreTowers(h, a, b) && AreLists(h, x, y, p, q, one, Obj(a), Obj(b)) && two in h
    && IsOutside(a, x) && IsOutside(a, y) && IsOutside(a, p) && IsOutside(a, q)
    && h[Obj(a + 40)] == Vector([one]) && h[Obj(b + 40)] == Vector([two]) && h[one] == Atom(1) && h[two] == Atom(2)
  }

  lemma {:induction false} TowersDiffer(h: Heap, eqv: Eqv, a: int, b: int, i: int, mixed: bool)
    requires AreTowers(h, a, b) && 0 <= i <= 40 && Differs(h, eqv, Obj(a + 40), Obj(b + 40), mixed)
    ensures Obj(a + i) in h && Obj(b + i) in h && Differs(h, eqv, Obj(a + i), Obj(b + i), mixed)
    decreases 40 - i
  {
    if i < 40 {
      assert Floor(h, a, b, i);
      TowersDiffer(h, eqv, a, b, i + 1, mixed);
      DiffersBelow(h, eqv, Obj(a + i), Obj(b + i), 0, mixed);
    }
  }

  lemma TopsDiffer(h: Heap, eqv: Eqv, a: int, b: int, x: Obj, y: Obj, p: Obj, q: Obj, one: Obj, two: Obj)
    requires DifferOnTop(h, a, b, x, y, p, q, one, two) && !eqv(1, 2)
    ensures !SameUnfolding(h, eqv, x, y)
  {
    DiffersHere(h, eqv, one, two);
    DiffersBelow(h, eqv, Obj(a + 40), Obj(b + 40), 0, false);
    TowersDiffer(h, eqv, a, b, 0, false);
    DiffersBelow(h, eqv, x, y, 1, false);
    DifferentUnfoldings(h, eqv, x, y);
  }

  /** Two cyclic lists are merged, and then found to be merged. */
  lemma CyclesRun(n: nat, h: Heap, eqv: Eqv, draws: nat -> nat, m: Log, p: Obj, q: Obj, one: Obj)
    requires CanRun(h, m, p, q) && one in h && p != q && h[p] == Pair(one, p) && h[q] == Pair(one, q) && n >= 2
    requires MergeAll(h.Keys, m.merged)[p] != MergeAll(h.Keys, m.merged)[q]
    ensures EqualRuns.EP(n, h, eqv, draws, m, p, q, 0) == Ran(Budget(0), m.With(p, q))
  {
    SlowSteps(n - 1, h, eqv, draws, m, p, q, 0);
    var m1 := m.With(p, q);
    MergedPairsAreTogether(h.Keys, m1.merged, |m.merged|);
    SlowSteps(n - 2, h, eqv, draws, m1, p, q, 0);
    assert EqualRuns.EP(n - 1, h, eqv, draws, m1, one, one, 0) == Ran(Budget(0), m1);
    assert EqualRuns.EP(n - 1, h, eqv, draws, m1, p, q, 0) == Ran(Budget(0), m1);
    assert PairP(n - 1, h, eqv, draws, m1, p, q, 0) == Ran(Budget(0), m1);
  }

  /** A budget of zero takes the tops for equal. */
  lemma TopsSkipped(n: nat, h: Heap, eqv: Eqv, draws: nat -> nat, m: Log, a: int, b: int)
    requires AreTowers(h, a, b) && InUniverse(h.Keys, m.merged) && n > 0 && draws(m.drawn) == 0
    requires h[Obj(a + 40)].Vector? && h[Obj(b + 40)].Vector? && |h[Obj(a + 40)].elements| == |h[Obj(b + 40)].elements|
    ensures EqualRuns.EP(n, h, eqv, draws, m, Obj(a + 40), Obj(b + 40), KB) == Ran(Budget(0), m.Drawn())
  {
    var x, y := Obj(a + 40), Obj(b + 40);
    assert ElementsP(n - 1, h, eqv, draws, m.Drawn(), x, y, 0, 0, true) == Ran(Budget(0), m.Drawn());
    assert FastP(n, h, eqv, draws, m.Drawn(), x, y, 0) == Ran(Budget(0), m.Drawn());
  }

  lemma PrecheckIsCutOff(h: Heap, eqv: Eqv, a: int, b: int, x: Obj, y: Obj, p: Obj, q: Obj, one: Obj, two: Obj)
    requires DifferOnTop(h, a, b, x, y, p, q, one, two)
    ensures IsCutOff(h, eqv, x, y)
  {
    assert Floor(h, a, b, 0);
    CyclesUseUp(h, eqv, p, q, K0 - 1);
    assert PreElements(h, eqv, Obj(a), Obj(b), 0, 0) == Budget(0);
    assert Pre(h, eqv, Obj(a), Obj(b), 0) == Budget(0);
  }

  /** Two pairs whose cars are taken for equal come to the comparison of their cdrs. */
  lemma CarsRun(n: nat, h: Heap, eqv: Eqv, draws: nat -> nat, m: Log, x: Obj, y: Obj, m': Log)
    requires CanRun(h, m, x, y) && x != y && h[x].Pair? && h[y].Pair? && n > 0
    requires MergeAll(h.Keys, m.merged)[x] != MergeAll(h.Keys, m.merged)[y]
    requires CanRun(h, m.With(x, y), h[x].car, h[y].car) && CanRun(h, m', h[x].cdr, h[y].cdr)
    requires EqualRuns.EP(n - 1, h, eqv, draws, m.With(x, y), h[x].car, h[y].car, 0) == Ran(Budget(0), m')
    ensures var r := EqualRuns.EP(n - 1, h, eqv, draws, m', h[x].cdr, h[y].cdr, 0);
            r.Ran? ==> EqualRuns.EP(n, h, eqv, draws, m, x, y, 0) == r
  {
    SlowSteps(n - 1, h, eqv, draws, m, x, y, 0);
    if EqualRuns.EP(n - 1, h, eqv, draws, m', h[x].cdr, h[y].cdr, 0).Ran? {
      PairRuns(n - 1, n - 1, h, eqv, draws, m.With(x, y), x, y, 0, m', 0);
    }
  }

  /** The lists come to the comparison of their tails. */
  lemma ListsRun(n: nat, h: Heap, eqv: Eqv, draws: nat -> nat, x: Obj, y: Obj, p: Obj, q: Obj, one: Obj, v: Obj,
      w: Obj)
    requires Closed(h) && AreLists(h, x, y, p, q, one, v, w) && n >= 3
    ensures CanRun(h, Undrawn([]), x, y) && CanRun(h, Undrawn([(x, y), (p, q)]), v, w)
    ensures var r := EqualRuns.EP(n - 1, h, eqv, draws, Undrawn([(x, y), (p, q)]), v, w, 0);
            r.Ran? ==> EqualRuns.EP(n, h, eqv, draws, Undrawn([]), x, y, 0) == r
  {
    var m0, m1, m2 := Undrawn([]), Undrawn([(x, y)]), Undrawn([(x, y), (p, q)]);
    assert m0.With(x, y) == m1 && m1.With(p, q) == m2;
    Unmerged(h.Keys, m0.merged, x, y);
    Unmerged(h.Keys, m1.merged, p, q);
    CyclesRun(n - 1, h, eqv, draws, m1, p, q, one);
    CarsRun(n, h, eqv, draws, m0, x, y, m2);
  }

  lemma WrongRun(n: nat, h: Heap, eqv: Eqv, draws: nat -> nat, a: int, b: int, x: Obj, y: Obj, p: Obj, q: Obj,
      one: Obj, two: Obj)
    requires DifferOnTop(h, a, b, x, y, p, q, one, two) && n >= 50 && draws(0) == 0
    ensures var r := EqualRuns.EP(n, h, eqv, draws, Undrawn([]), x, y, 0); r.Ran? && r.verdict == Budget(0)
  {
    var m2 := Undrawn([(x, y), (p, q)]);
    ListsRun(n, h, eqv, draws, x, y, p, q, one, Obj(a), Obj(b));
    var m3 := TowersRun(n - 1, h, eqv, draws, m2, a, b, 0);
    TopsSkipped(n - 41, h, eqv, draws, m3, a, b);
  }

  /** Unequal objects that are answered to be the same when the first budget drawn is zero. */
  lemma WrongAnswer(n: nat, h: Heap, eqv: Eqv, draws: nat -> nat, a: int, b: int, x: Obj, y: Obj, p: Obj, q: Obj,
      one: Obj, two: Obj)
    requires DifferOnTop(h, a, b, x, y, p, q, one, two) && !eqv(1, 2) && n >= 50 && draws(0) == 0
    ensures EqualRun(n, h, eqv, draws, x, y) == Same && !SameUnfolding(h, eqv, x, y)
  {
    TopsDiffer(h, eqv, a, b, x, y, p, q, one, two);
    PrecheckIsCutOff(h, eqv, a, b, x, y, p, q, one, two);
    WrongRun(n, h, eqv, draws, a, b, x, y, p, q, one, two);
  }

  // ----- no answer -----

  /** A positive budget follows a cycle for ever. */
  lemma {:induction false} CyclesHang(n: nat, h: Heap, eqv: Eqv, draws: nat -> nat, m: Log, p: Obj, q: Obj,
      one: Obj, k: int)
    requires CanRun(h, m, p, q) && one in h && p != q && h[p] == Pair(one, p) && h[q] == Pair(one, q) && k > 0
    ensures FastP(n, h, eqv, draws, m, p, q, k) == Hung
  {
    if n > 0 {
      CyclesHang(n - 1, h, eqv, draws, m, p, q, one, k);
      var first := FastP(n - 1, h, eqv, draws, m, one, one, k);
      assert first == if n == 1 then Hung else Ran(Budget(k), m);
      assert EqualRuns.EP(n - 1, h, eqv, draws, m, one, one, k) == first;
      assert PairP(n - 1, h, eqv, draws, m, p, q, k) == Hung;
    }
  }

  /** Towers with cyclic lists on top. */
  ghost predicate CyclesOnTop(h: Heap, a: int, b: int, one: Obj) {
    && AreTowers(h, a, b) && one in h && h[one] == Atom(1)
    && h[Obj(a + 40)] == Pair(one, Obj(a + 40)) && h[Obj(b + 40)] == Pair(one, Obj(b + 40))
  }

  lemma {:induction false} PreOfTowers(h: Heap, eqv: Eqv, a: int, b: int, one: Obj, i: int, k: int)
    requires CyclesOnTop(h, a, b, one) && 0 <= i <= 40 <= k + i
    ensures Obj(a + i) in h && Obj(b + i) in h && Pre(h, eqv, Obj(a + i), Obj(b + i), k) == Budget(0)
    decreases 40 - i
  {
    if i == 40 {
      CyclesUseUp(h, eqv, Obj(a + 40), Obj(b + 40), k);
    } else {
      assert Floor(h, a, b, i);
      PreOfTowers(h, eqv, a, b, one, i + 1, k - 1);
      assert Kids(h[Obj(a + i)])[0] in h && Kids(h[Obj(b + i)])[0] in h;
      assert PreElements(h, eqv, Obj(a + i), Obj(b + i), 1, 0) == Budget(0);
    }
  }

  lemma {:induction false} TowersUnfoldAlike(h: Heap, eqv: Eqv, a: int, b: int, one: Obj, i: int, n: nat)
    requires CyclesOnTop(h, a, b, one) && 0 <= i <= 40 && IsEquivalence(eqv)
    ensures Obj(a + i) in h && Obj(b + i) in h && EqualToDepth(h, eqv, n, Obj(a + i), Obj(b + i))
    decreases n
  {
    if i < 40 {
      assert Floor(h, a, b, i);
    }
    if n > 0 {
      TowersUnfoldAlike(h, eqv, a, b, one, if i < 40 then i + 1 else i, n - 1);
      EqualToDepthRefl(h, eqv, n - 1, one);
    }
  }

  /** Equal objects on which the call never ends when the first budget drawn is positive. */
  lemma NoAnswer(n: nat, h: Heap, eqv: Eqv, draws: nat -> nat, a: int, b: int, one: Obj)
    requires CyclesOnTop(h, a, b, one) && IsEquivalence(eqv) && draws(0) > 0
    ensures Obj(a) in h && Obj(b) in h && SameUnfolding(h, eqv, Obj(a), Obj(b))
    ensures EqualRun(n, h, eqv, draws, Obj(a), Obj(b)) == Running
  {
    forall d: nat ensures Obj(a) in h && Obj(b) in h && EqualToDepth(h, eqv, d, Obj(a), Obj(b)) {
      TowersUnfoldAlike(h, eqv, a, b, one, 0, d);
    }
    PreOfTowers(h, eqv, a, b, one, 0, K0);
    var m := TowersRun(n, h, eqv, draws, Undrawn([]), a, b, 0);
    if n >= 40 {
      CyclesHang(n - 40, h, eqv, draws, m.Drawn(), Obj(a + 40), Obj(b + 40), one, draws(0));
    }
  }

  // ----- such heaps -----

  /** Lists and atoms at low addresses, towers from 100 and 200 on, and what stands on top of them. */
  function NodeAt(j: int, top: Node, top': Node): Node {
    if j == 140 then top
    else if j == 240 then top'
    else if 100 <= j then Vector([Obj(j + 1)])
    else if j == 0 then Pair(Obj(1), Obj(100))
    else if j == 10 then Pair(Obj(11), Obj(200))
    else if j == 1 || j == 11 then Pair(Obj(2), Obj(j))
    else Atom(j - 1)
  }

  function Addresses(): set<Obj> {
    set j | 0 <= j <= 240 :: Obj(j)
  }

  function TowerHeap(top: Node, top': Node): Heap {
    map o | o in Addresses() :: NodeAt(o.address, top, top')
  }

  lemma TowerHeapAt(top: Node, top': Node, o: Obj)
    ensures var h := TowerHeap(top, top');
            (o in h <==> 0 <= o.address <= 240) && (o in h ==> h[o] == NodeAt(o.address, top, top'))
  {
    assert o == Obj(o.address);
  }

  ghost predicate IsTop(top: Node) {
    forall i :: 0 <= i < |Kids(top)| ==> 0 <= Kids(top)[i].address <= 240
  }

  lemma TowerHeapHas(top: Node, top': Node)
    requires IsTop(top) && IsTop(top')
    ensures AreTowers(TowerHeap(top, top'), 100, 200)
  {
    var h := TowerHeap(top, top');
    forall j | 0 <= j < 40 ensures Floor(h, 100, 200, j) {
      TowerHeapAt(top, top', Obj(100 + j));
      TowerHeapAt(top, top', Obj(200 + j));
    }
    TowerHeapAt(top, top', Obj(140));
    TowerHeapAt(top, top', Obj(240));
    forall o, i | o in h && 0 <= i < |Kids(h[o])| ensures Kids(h[o])[i] in h {
      TowerHeapAt(top, top', o);
      TowerHeapAt(top, top', Kids(h[o])[i]);
    }
  }

  lemma SomeDifferOnTop(h: Heap, top: Node, top': Node)
    requires top == Vector([Obj(2)]) && top' == Vector([Obj(3)]) && h == TowerHeap(top, top')
    ensures DifferOnTop(h, 100, 200, Obj(0), Obj(10), Obj(1), Obj(11), Obj(2), Obj(3))
  {
    TowerHeapHas(top, top');
    var os := [Obj(0), Obj(10), Obj(1), Obj(11), Obj(2), Obj(3), Obj(100), Obj(200), Obj(140), Obj(240)];
    forall i | 0 <= i < |os| ensures os[i] in h && h[os[i]] == NodeAt(os[i].address, top, top') {
      TowerHeapAt(top, top', os[i]);
    }
    assert os[0] in h && os[1] in h && os[2] in h && os[3] in h && os[4] in h && os[5] in h && os[6] in h && os[7] in h;
    assert os[8] in h && os[9] in h;
  }

  lemma SomeCyclesOnTop(h: Heap, top: Node, top': Node)
    requires top == Pair(Obj(2), Obj(140)) && top' == Pair(Obj(2), Obj(240)) && h == TowerHeap(top, top')
    ensures CyclesOnTop(h, 100, 200, Obj(2))
  {
    TowerHeapHas(top, top');
    TowerHeapAt(top, top', Obj(2));
    TowerHeapAt(top, top', Obj(140));
    TowerHeapAt(top, top', Obj(240));
  }
}
