/**
 The object graph that `equal?` walks (src/compare.c), and what equality of two
 objects means on it.

 A heap is a finite map from addresses to nodes and may be cyclic.  Strings are compared
 by their characters; numbers, symbols and the other objects that are neither strings nor
 containers are atoms, compared by `eqv_internal`, which is a parameter here.
 */
module Objects {

  datatype Obj = Obj(address: int)

  datatype Node = Atom(value: int) | Text(chars: seq<int>) | Pair(car: Obj, cdr: Obj) | Vector(elements: seq<Obj>)

  type Heap = map<Obj, Node>

  type Eqv = (int, int) -> bool

  function Kids(n: Node): seq<Obj> {
    match n
    case Atom(_) => []
    case Text(_) => []
    case Pair(a, d) => [a, d]
    case Vector(es) => es
  }

  /** The two nodes look alike when only their own tag, size and atom value are inspected. */
  predicate SameShape(m: Node, n: Node, eqv: Eqv) {
    match m
    case Atom(v) => n.Atom? && eqv(v, n.value)
    case Text(cs) => n.Text? && cs == n.chars
    case Pair(_, _) => n.Pair?
    case Vector(es) => n.Vector? && |es| == |n.elements|
  }

  ghost predicate Closed(h: Heap) {
    forall o, i :: o in h && 0 <= i < |Kids(h[o])| ==> Kids(h[o])[i] in h
  }

  ghost predicate IsEquivalence(eqv: Eqv) {
    && (forall a :: eqv(a, a))
    && (forall a, b :: eqv(a, b) ==> eqv(b, a))
    && (forall a, b, c :: eqv(a, b) && eqv(b, c) ==> eqv(a, c))
  }

  /** The unfoldings of `x` and `y` agree when both are cut off at depth `n`. */
  ghost predicate EqualToDepth(h: Heap, eqv: Eqv, n: nat, x: Obj, y: Obj)
    requires Closed(h) && x in h && y in h
  {
    n == 0 ||
    (&& SameShape(h[x], h[y], eqv)
     && forall i :: 0 <= i < |Kids(h[x])| ==> EqualToDepth(h, eqv, n - 1, Kids(h[x])[i], Kids(h[y])[i]))
  }

  /** The possibly infinite unfoldings of `x` and `y` are the same tree (R6RS section 11.5). */
  ghost predicate SameUnfolding(h: Heap, eqv: Eqv, x: Obj, y: Obj)
    requires Closed(h) && x in h && y in h
  {
    forall n: nat :: EqualToDepth(h, eqv, n, x, y)
  }

  /** `R` relates only nodes of the same shape, whose children it relates pairwise. */
  ghost predicate IsBisimulation(h: Heap, eqv: Eqv, R: set<(Obj, Obj)>)
    requires Closed(h)
  {
    forall p :: p in R ==>
      && p.0 in h && p.1 in h
      && SameShape(h[p.0], h[p.1], eqv)
      && forall i :: 0 <= i < |Kids(h[p.0])| ==> (Kids(h[p.0])[i], Kids(h[p.1])[i]) in R
  }

  lemma {:induction false} EqualToDepthRefl(h: Heap, eqv: Eqv, n: nat, x: Obj)
    requires Closed(h) && x in h && IsEquivalence(eqv)
    ensures EqualToDepth(h, eqv, n, x, x)
  {
    if n > 0 {
      forall i | 0 <= i < |Kids(h[x])| ensures EqualToDepth(h, eqv, n - 1, Kids(h[x])[i], Kids(h[x])[i]) {
        EqualToDepthRefl(h, eqv, n - 1, Kids(h[x])[i]);
      }
    }
  }

  lemma {:induction false} DeeperIsFiner(h: Heap, eqv: Eqv, m: nat, n: nat, x: Obj, y: Obj)
    requires Closed(h) && x in h && y in h && m <= n
    requires EqualToDepth(h, eqv, n, x, y)
    ensures EqualToDepth(h, eqv, m, x, y)
  {
    if m > 0 {
      forall i | 0 <= i < |Kids(h[x])| ensures EqualToDepth(h, eqv, m - 1, Kids(h[x])[i], Kids(h[y])[i]) {
        DeeperIsFiner(h, eqv, m - 1, n - 1, Kids(h[x])[i], Kids(h[y])[i]);
      }
    }
  }

  lemma {:induction false} BisimulationToDepth(h: Heap, eqv: Eqv, R: set<(Obj, Obj)>, n: nat, x: Obj, y: Obj)
    requires Closed(h) && IsBisimulation(h, eqv, R) && (x, y) in R && x in h && y in h
    ensures EqualToDepth(h, eqv, n, x, y)
  {
    if n > 0 {
      assert (x, y).0 == x && (x, y).1 == y;
      forall i | 0 <= i < |Kids(h[x])| ensures EqualToDepth(h, eqv, n - 1, Kids(h[x])[i], Kids(h[y])[i]) {
        BisimulationToDepth(h, eqv, R, n - 1, Kids(h[x])[i], Kids(h[y])[i]);
      }
    }
  }

  /** One child whose unfoldings differ makes the parents differ. */
  lemma DifferentKids(h: Heap, eqv: Eqv, x: Obj, y: Obj, i: nat)
    requires Closed(h) && x in h && y in h
    requires i < |Kids(h[x])| && i < |Kids(h[y])|
    requires !SameUnfolding(h, eqv, Kids(h[x])[i], Kids(h[y])[i])
    ensures !SameUnfolding(h, eqv, x, y)
  {
    var n: nat :| !EqualToDepth(h, eqv, n, Kids(h[x])[i], Kids(h[y])[i]);
    assert !EqualToDepth(h, eqv, n + 1, x, y);
  }

  lemma DifferentShapes(h: Heap, eqv: Eqv, x: Obj, y: Obj)
    requires Closed(h) && x in h && y in h
    requires !SameShape(h[x], h[y], eqv)
    ensures !SameUnfolding(h, eqv, x, y)
  {
    assert !EqualToDepth(h, eqv, 1, x, y);
  }

  /** Children that all unfold alike, under nodes of one shape, make the parents unfold alike. */
  lemma SameKids(h: Heap, eqv: Eqv, x: Obj, y: Obj)
    requires Closed(h) && x in h && y in h
    requires SameShape(h[x], h[y], eqv)
    requires forall i :: 0 <= i < |Kids(h[x])| ==> SameUnfolding(h, eqv, Kids(h[x])[i], Kids(h[y])[i])
    ensures SameUnfolding(h, eqv, x, y)
  {
  }

  /** Having the same unfolding is the largest bisimulation. */
  lemma SameUnfoldingIsBisimilarity(h: Heap, eqv: Eqv, x: Obj, y: Obj)
    requires Closed(h) && x in h && y in h
    ensures SameUnfolding(h, eqv, x, y) <==> exists R :: IsBisimulation(h, eqv, R) && (x, y) in R
  {
    var U := set a, b | a in h && b in h && SameUnfolding(h, eqv, a, b) :: (a, b);
    forall p | p in U
      ensures SameShape(h[p.0], h[p.1], eqv)
      ensures forall i :: 0 <= i < |Kids(h[p.0])| ==> (Kids(h[p.0])[i], Kids(h[p.1])[i]) in U
    {
      assert EqualToDepth(h, eqv, 1, p.0, p.1);
      forall i | 0 <= i < |Kids(h[p.0])| ensures (Kids(h[p.0])[i], Kids(h[p.1])[i]) in U {
        if !SameUnfolding(h, eqv, Kids(h[p.0])[i], Kids(h[p.1])[i]) {
          DifferentKids(h, eqv, p.0, p.1, i);
          assert false;
        }
      }
    }
    assert IsBisimulation(h, eqv, U);
    if R :| IsBisimulation(h, eqv, R) && (x, y) in R {
      forall n: nat ensures EqualToDepth(h, eqv, n, x, y) {
        BisimulationToDepth(h, eqv, R, n, x, y);
      }
    }
  }

  // ----- strings opposite other objects -----

  /** A string on the left, and something else on the right. */
  predicate IsMixed(m: Node, n: Node) {
    m.Text? && !n.Text?
  }

  predicate SameContainer(m: Node, n: Node) {
    (m.Pair? && n.Pair?) || (m.Vector? && n.Vector? && |m.elements| == |n.elements|)
  }

  /** Up to depth `n` the unfoldings meet a difference: one of a string and something else, or another one. */
  ghost predicate DiffersAt(h: Heap, eqv: Eqv, n: nat, x: Obj, y: Obj, mixed: bool)
    requires Closed(h) && x in h && y in h
  {
    || (!SameShape(h[x], h[y], eqv) && mixed == IsMixed(h[x], h[y]))
    || (n > 0 && SameContainer(h[x], h[y]) &&
        exists i {:trigger Kids(h[x])[i]} :: 0 <= i < |Kids(h[x])| &&
          DiffersAt(h, eqv, n - 1, Kids(h[x])[i], Kids(h[y])[i], mixed))
  }

  ghost predicate Differs(h: Heap, eqv: Eqv, x: Obj, y: Obj, mixed: bool)
    requires Closed(h) && x in h && y in h
  {
    exists n: nat :: DiffersAt(h, eqv, n, x, y, mixed)
  }

  lemma DiffersHere(h: Heap, eqv: Eqv, x: Obj, y: Obj)
    requires Closed(h) && x in h && y in h && !SameShape(h[x], h[y], eqv)
    ensures Differs(h, eqv, x, y, IsMixed(h[x], h[y]))
  {
    assert DiffersAt(h, eqv, 0, x, y, IsMixed(h[x], h[y]));
  }

  lemma DiffersBelow(h: Heap, eqv: Eqv, x: Obj, y: Obj, i: nat, mixed: bool)
    requires Closed(h) && x in h && y in h && SameContainer(h[x], h[y]) && i < |Kids(h[x])|
    requires Differs(h, eqv, Kids(h[x])[i], Kids(h[y])[i], mixed)
    ensures Differs(h, eqv, x, y, mixed)
  {
    var n: nat :| DiffersAt(h, eqv, n, Kids(h[x])[i], Kids(h[y])[i], mixed);
    assert DiffersAt(h, eqv, n + 1, x, y, mixed);
  }

  lemma {:induction false} DifferenceIsMet(h: Heap, eqv: Eqv, n: nat, x: Obj, y: Obj) returns (mixed: bool)
    requires Closed(h) && x in h && y in h && !EqualToDepth(h, eqv, n, x, y)
    ensures Differs(h, eqv, x, y, mixed)
  {
    if !SameShape(h[x], h[y], eqv) {
      mixed := IsMixed(h[x], h[y]);
      DiffersHere(h, eqv, x, y);
    } else {
      var i :| 0 <= i < |Kids(h[x])| && !EqualToDepth(h, eqv, n - 1, Kids(h[x])[i], Kids(h[y])[i]);
      mixed := DifferenceIsMet(h, eqv, n - 1, Kids(h[x])[i], Kids(h[y])[i]);
      DiffersBelow(h, eqv, x, y, i, mixed);
    }
  }

  lemma {:induction false} MetIsDifferent(h: Heap, eqv: Eqv, n: nat, x: Obj, y: Obj, mixed: bool)
    requires Closed(h) && x in h && y in h && DiffersAt(h, eqv, n, x, y, mixed)
    ensures !SameUnfolding(h, eqv, x, y)
  {
    if !SameShape(h[x], h[y], eqv) {
      DifferentShapes(h, eqv, x, y);
    } else {
      var i :| 0 <= i < |Kids(h[x])| && DiffersAt(h, eqv, n - 1, Kids(h[x])[i], Kids(h[y])[i], mixed);
      MetIsDifferent(h, eqv, n - 1, Kids(h[x])[i], Kids(h[y])[i], mixed);
      DifferentKids(h, eqv, x, y, i);
    }
  }

  /** Unfoldings differ exactly when they meet a difference of one of the two kinds. */
  lemma DifferentUnfoldings(h: Heap, eqv: Eqv, x: Obj, y: Obj)
    requires Closed(h) && x in h && y in h
    ensures !SameUnfolding(h, eqv, x, y) <==> Differs(h, eqv, x, y, true) || Differs(h, eqv, x, y, false)
  {
    if !SameUnfolding(h, eqv, x, y) {
      var n: nat :| !EqualToDepth(h, eqv, n, x, y);
      var mixed := DifferenceIsMet(h, eqv, n, x, y);
    }
    forall mixed | Differs(h, eqv, x, y, mixed) ensures !SameUnfolding(h, eqv, x, y) {
      var n: nat :| DiffersAt(h, eqv, n, x, y, mixed);
      MetIsDifferent(h, eqv, n, x, y, mixed);
    }
  }

  /** `R` relates nodes of the same shape, whose children it relates pairwise, and strings to other objects. */
  ghost predicate IsBisimulationButStrings(h: Heap, eqv: Eqv, R: set<(Obj, Obj)>)
    requires Closed(h)
  {
    forall x, y {:trigger AlikeButStrings(h, eqv, R, x, y)} :: (x, y) in R ==> AlikeButStrings(h, eqv, R, x, y)
  }

  ghost predicate AlikeButStrings(h: Heap, eqv: Eqv, R: set<(Obj, Obj)>, x: Obj, y: Obj)
    requires Closed(h)
  {
    && x in h && y in h
    && (SameShape(h[x], h[y], eqv) || IsMixed(h[x], h[y]))
    && (SameContainer(h[x], h[y]) ==> forall i :: 0 <= i < |Kids(h[x])| ==> (Kids(h[x])[i], Kids(h[y])[i]) in R)
  }

  lemma {:induction false} OnlyStringsDiffer(h: Heap, eqv: Eqv, R: set<(Obj, Obj)>, n: nat, x: Obj, y: Obj)
    requires Closed(h) && IsBisimulationButStrings(h, eqv, R) && (x, y) in R && x in h && y in h
    ensures !DiffersAt(h, eqv, n, x, y, false)
  {
    assert AlikeButStrings(h, eqv, R, x, y);
    if n > 0 && SameContainer(h[x], h[y]) {
      forall i | 0 <= i < |Kids(h[x])| ensures !DiffersAt(h, eqv, n - 1, Kids(h[x])[i], Kids(h[y])[i], false) {
        OnlyStringsDiffer(h, eqv, R, n - 1, Kids(h[x])[i], Kids(h[y])[i]);
      }
    }
  }
}
