/**
 `equal?` (src/compare.c): a budgeted precheck, then an interleaved comparison that
 records in a union-find forest which containers it has already assumed equal.
 */
module Equal {
  import opened Objects
  import opened Partitions
  import opened BoxForest
  import opened EqualRuns
  import opened Walks

  // ----- the precheck -----

  function Pre(h: Heap, eqv: Eqv, x: Obj, y: Obj, k: int): (v: Verdict)
    requires Closed(h) && x in h && y in h
    ensures !v.Misread? && (v.Budget? ==> v.k <= k)
    decreases if k <= 0 then 0 else k, 1, 0, |h|
  {
    if x == y then Budget(k)
    else match h[x]
      case Pair(a, d) =>
        if !h[y].Pair? then Differ
        else if k <= 0 then Budget(k)
        else
          assert Kids(h[x]) == [a, d] && Kids(h[y]) == [h[y].car, h[y].cdr];
          assert Kids(h[x])[0] in h && Kids(h[x])[1] in h && Kids(h[y])[0] in h && Kids(h[y])[1] in h;
          var v := Pre(h, eqv, a, h[y].car, k - 1);
          if v.Differ? then Differ else Pre(h, eqv, d, h[y].cdr, v.k)
      case Vector(es) =>
        if !h[y].Vector? || |es| != |h[y].elements| then Differ else PreElements(h, eqv, x, y, 0, k)
      case Text(cs) =>
        if h[y].Text? && cs == h[y].chars then Budget(k) else Differ
      case Atom(a) =>
        if h[y].Atom? && eqv(a, h[y].value) then Budget(k) else Differ
  }

  /** The element loop of the precheck, from index `i` on. */
  function PreElements(h: Heap, eqv: Eqv, x: Obj, y: Obj, i: nat, k: int): (v: Verdict)
    requires Closed(h) && x in h && y in h
    requires h[x].Vector? && h[y].Vector? && |h[x].elements| == |h[y].elements| && i <= |h[x].elements|
    ensures !v.Misread? && (v.Budget? ==> v.k <= k)
    decreases if k <= 0 then 0 else k, 0, |h[x].elements| - i
  {
    if i == |h[x].elements| || k <= 0 then Budget(k)
    else
      assert Kids(h[x])[i] in h && Kids(h[y])[i] in h;
      var v := Pre(h, eqv, h[x].elements[i], h[y].elements[i], k - 1);
      if v.Differ? then Differ else PreElements(h, eqv, x, y, i + 1, v.k)
  }

  /** A positive remaining budget means that nothing was cut off; `#f` is always right. */
  lemma {:induction false} PreIsRight(h: Heap, eqv: Eqv, x: Obj, y: Obj, k: int)
    requires Closed(h) && x in h && y in h && IsEquivalence(eqv)
    ensures Pre(h, eqv, x, y, k).Differ? ==> !SameUnfolding(h, eqv, x, y)
    ensures Pre(h, eqv, x, y, k).Budget? && Pre(h, eqv, x, y, k).k > 0 ==> SameUnfolding(h, eqv, x, y)
    decreases if k <= 0 then 0 else k, 1, 0
  {
    if x == y {
      forall n: nat ensures EqualToDepth(h, eqv, n, x, y) {
        EqualToDepthRefl(h, eqv, n, x);
      }
    } else if !SameShape(h[x], h[y], eqv) {
      DifferentShapes(h, eqv, x, y);
    } else {
      match h[x]
      case Pair(a, d) =>
        if k > 0 {
          assert Kids(h[x])[0] in h && Kids(h[x])[1] in h && Kids(h[y])[0] in h && Kids(h[y])[1] in h;
          var v := Pre(h, eqv, a, h[y].car, k - 1);
          PreIsRight(h, eqv, a, h[y].car, k - 1);
          if v.Differ? {
            DifferentKids(h, eqv, x, y, 0);
          } else {
            PreIsRight(h, eqv, d, h[y].cdr, v.k);
            var w := Pre(h, eqv, d, h[y].cdr, v.k);
            if w.Differ? {
              DifferentKids(h, eqv, x, y, 1);
            } else if w.k > 0 {
              SameKids(h, eqv, x, y);
            }
          }
        }
      case Vector(es) =>
        PreElementsIsRight(h, eqv, x, y, 0, k);
        if PreElements(h, eqv, x, y, 0, k).Budget? && PreElements(h, eqv, x, y, 0, k).k > 0 {
          SameKids(h, eqv, x, y);
        }
      case Text(_) =>
        SameKids(h, eqv, x, y);
      case Atom(_) =>
        SameKids(h, eqv, x, y);
    }
  }

  lemma {:induction false} PreElementsIsRight(h: Heap, eqv: Eqv, x: Obj, y: Obj, i: nat, k: int)
    requires Closed(h) && x in h && y in h && IsEquivalence(eqv)
    requires h[x].Vector? && h[y].Vector? && |h[x].elements| == |h[y].elements| && i <= |h[x].elements|
    ensures var v := PreElements(h, eqv, x, y, i, k); v.Differ? ==> !SameUnfolding(h, eqv, x, y)
    ensures var v := PreElements(h, eqv, x, y, i, k);
      v.Budget? && v.k > 0 ==>
        forall j :: i <= j < |h[x].elements| ==> SameUnfolding(h, eqv, Kids(h[x])[j], Kids(h[y])[j])
    decreases if k <= 0 then 0 else k, 0, |h[x].elements| - i
  {
    if i < |h[x].elements| && k > 0 {
      assert Kids(h[x])[i] in h && Kids(h[y])[i] in h;
      PreIsRight(h, eqv, h[x].elements[i], h[y].elements[i], k - 1);
      var v := Pre(h, eqv, h[x].elements[i], h[y].elements[i], k - 1);
      if v.Differ? {
        DifferentKids(h, eqv, x, y, i);
      } else {
        PreElementsIsRight(h, eqv, x, y, i + 1, v.k);
      }
    }
  }

  // ----- how far the precheck goes -----

  /** The precheck answers what the walk finds that its budget pays for. */
  lemma {:induction false} PreFollows(h: Heap, eqv: Eqv, x: Obj, y: Obj, w: Walk, k: nat)
    requires Closed(h) && x in h && y in h && IsWalkOf(h, eqv, x, y, w, k)
    ensures Pre(h, eqv, x, y, k) == if Splits(w) then Differ else Budget(k - Visits(w))
    decreases w
  {
    match w
    case Alike =>
    case Split =>
    case Cut =>
    case Car(a) =>
      PreFollows(h, eqv, Kids(h[x])[0], Kids(h[y])[0], a, k - 1);
    case Both(a, d) =>
      PreFollows(h, eqv, Kids(h[x])[0], Kids(h[y])[0], a, k - 1);
      PreFollows(h, eqv, Kids(h[x])[1], Kids(h[y])[1], d, k - 1 - Visits(a));
    case Elements(l) =>
      PreElementsFollow(h, eqv, x, y, 0, l, k);
  }

  lemma {:induction false} PreElementsFollow(h: Heap, eqv: Eqv, x: Obj, y: Obj, i: nat, l: Loop, k: nat)
    requires Closed(h) && x in h && y in h && h[x].Vector? && SameContainer(h[x], h[y]) && i <= |h[x].elements|
    requires IsLoopOf(h, eqv, x, y, i, l, k)
    ensures PreElements(h, eqv, x, y, i, k) == if LoopSplits(l) then Differ else Budget(k - LoopVisits(l))
    decreases l
  {
    match l
    case Done =>
    case Stopped =>
    case Last(w) =>
      PreFollows(h, eqv, Kids(h[x])[i], Kids(h[y])[i], w, k - 1);
    case Next(w, rest) =>
      PreFollows(h, eqv, Kids(h[x])[i], Kids(h[y])[i], w, k - 1);
      PreElementsFollow(h, eqv, x, y, i + 1, rest, k - 1 - Visits(w));
  }

  /** Every budget takes the walk somewhere. */
  lemma {:induction false} WalkExists(h: Heap, eqv: Eqv, x: Obj, y: Obj, k: nat) returns (w: Walk)
    requires Closed(h) && x in h && y in h
    ensures IsWalkOf(h, eqv, x, y, w, k)
    decreases k, 1, 0
  {
    if x == y {
      w := Alike;
    } else if !SameShape(h[x], h[y], eqv) {
      w := Split;
    } else if h[x].Pair? {
      if k == 0 {
        w := Cut;
      } else {
        var a := WalkExists(h, eqv, Kids(h[x])[0], Kids(h[y])[0], k - 1);
        if Splits(a) {
          w := Car(a);
        } else {
          var d := WalkExists(h, eqv, Kids(h[x])[1], Kids(h[y])[1], k - 1 - Visits(a));
          w := Both(a, d);
        }
      }
    } else if h[x].Vector? {
      var l := LoopExists(h, eqv, x, y, 0, k);
      w := Elements(l);
    } else {
      w := Alike;
    }
  }

  lemma {:induction false} LoopExists(h: Heap, eqv: Eqv, x: Obj, y: Obj, i: nat, k: nat) returns (l: Loop)
    requires Closed(h) && x in h && y in h && h[x].Vector? && SameContainer(h[x], h[y]) && i <= |h[x].elements|
    ensures IsLoopOf(h, eqv, x, y, i, l, k)
    decreases k, 0, |h[x].elements| - i
  {
    if i == |h[x].elements| {
      l := Done;
    } else if k == 0 {
      l := Stopped;
    } else {
      var w := WalkExists(h, eqv, Kids(h[x])[i], Kids(h[y])[i], k - 1);
      if Splits(w) {
        l := Last(w);
      } else {
        var rest := LoopExists(h, eqv, x, y, i + 1, k - 1 - Visits(w));
        l := Next(w, rest);
      }
    }
  }

  /** The walk of `x` and `y` uses up all `k` visits and meets no difference that far. */
  ghost predicate IsUsedUp(h: Heap, eqv: Eqv, x: Obj, y: Obj, k: nat)
    requires Closed(h) && x in h && y in h
  {
    exists w :: IsWalkOf(h, eqv, x, y, w, k) && !Splits(w) && Visits(w) == k
  }

  /** The precheck is cut off exactly when its budget is used up; with fewer visits it decides. */
  lemma CutOffIsUsedUp(h: Heap, eqv: Eqv, x: Obj, y: Obj)
    requires Closed(h) && x in h && y in h
    ensures IsCutOff(h, eqv, x, y) <==> IsUsedUp(h, eqv, x, y, K0)
  {
    var w := WalkExists(h, eqv, x, y, K0);
    forall w | IsWalkOf(h, eqv, x, y, w, K0)
      ensures Pre(h, eqv, x, y, K0) == if Splits(w) then Differ else Budget(K0 - Visits(w))
    {
      PreFollows(h, eqv, x, y, w, K0);
    }
  }

  /** A walk that ends after few enough visits is decided by the precheck. */
  lemma ShortIsDecided(h: Heap, eqv: Eqv, x: Obj, y: Obj, w: Walk)
    requires Closed(h) && x in h && y in h && IsWalk(h, eqv, x, y, w) && !IsCut(w)
    requires if Splits(w) then Visits(w) <= K0 else Visits(w) < K0
    ensures !IsUsedUp(h, eqv, x, y, K0)
  {
    UncutIsOrderly(w);
    CutOffIsUsedUp(h, eqv, x, y);
    PreFollows(h, eqv, x, y, w, K0);
  }

  // ----- what the forest records -----

  ghost predicate Related(h: Heap, eqv: Eqv, p: Partition, x: Obj, y: Obj)
    requires p.Keys == h.Keys && x in h && y in h
  {
    p[x] == p[y] || SameLeaf(h[x], h[y], eqv)
  }

  predicate SameLeaf(m: Node, n: Node, eqv: Eqv) {
    (m.Atom? || m.Text?) && SameShape(m, n, eqv)
  }

  /** Two nodes of one shape whose children are related pairwise. */
  ghost predicate Matched(h: Heap, eqv: Eqv, p: Partition, x: Obj, y: Obj)
    requires Closed(h) && p.Keys == h.Keys && x in h && y in h
  {
    && SameShape(h[x], h[y], eqv)
    && forall i {:trigger Kids(h[x])[i]} {:trigger Kids(h[y])[i]} ::
         0 <= i < |Kids(h[x])| ==> Related(h, eqv, p, Kids(h[x])[i], Kids(h[y])[i])
  }

  ghost predicate SameOrMatched(h: Heap, eqv: Eqv, p: Partition, x: Obj, y: Obj)
    requires Closed(h) && p.Keys == h.Keys
  {
    x == y || (x in h && y in h && Matched(h, eqv, p, x, y))
  }

  /** Only containers of one kind and size were ever merged. */
  ghost predicate MergedContainers(h: Heap, merged: seq<(Obj, Obj)>) {
    forall i :: 0 <= i < |merged| ==>
      merged[i].0 in h && merged[i].1 in h && SameContainer(h[merged[i].0], h[merged[i].1])
  }

  /** The children of every pair merged since `from` have been compared and found related. */
  ghost predicate Explored(h: Heap, eqv: Eqv, p: Partition, merged: seq<(Obj, Obj)>, from: nat)
    requires Closed(h) && p.Keys == h.Keys && MergedContainers(h, merged)
  {
    forall i :: from <= i < |merged| ==> Matched(h, eqv, p, merged[i].0, merged[i].1)
  }

  ghost function Vectors(h: Heap): set<Obj> {
    set o | o in h && h[o].Vector?
  }

  ghost predicate SameOrContainer(h: Heap, a: Obj, b: Obj) {
    a == b || (a in h && b in h && SameContainer(h[a], h[b]))
  }

  lemma ClassesAreHomogeneous(h: Heap, merged: seq<(Obj, Obj)>, x: Obj, y: Obj)
    requires MergedContainers(h, merged) && InUniverse(h.Keys, merged) && x in h && y in h
    requires MergeAll(h.Keys, merged)[x] == MergeAll(h.Keys, merged)[y]
    ensures x == y || SameContainer(h[x], h[y])
  {
    var E := (a: Obj, b: Obj) => SameOrContainer(h, a, b);
    MergedIsRelated(h.Keys, merged, E, x, y);
  }

  lemma {:induction false} MoreMergesAreCoarser(universe: set<Obj>, m: seq<(Obj, Obj)>, n: seq<(Obj, Obj)>)
    requires m <= n && InUniverse(universe, n)
    ensures InUniverse(universe, m) && Coarser(MergeAll(universe, n), MergeAll(universe, m))
  {
    assert forall i :: 0 <= i < |m| ==> m[i] == n[i];
    if m != n {
      MoreMergesAreCoarser(universe, m, n[..|n| - 1]);
    }
  }

  lemma ExploredIsMonotone(h: Heap, eqv: Eqv, p: Partition, q: Partition, m: seq<(Obj, Obj)>, n: seq<(Obj, Obj)>,
      from: nat)
    requires Closed(h) && p.Keys == h.Keys && Coarser(q, p) && m <= n
    requires MergedContainers(h, m) && MergedContainers(h, n)
    requires Explored(h, eqv, p, m, from) && Explored(h, eqv, q, n, |m|)
    ensures Explored(h, eqv, q, n, from)
  {
  }

  /** When every merged pair was explored, relatedness is a bisimulation. */
  lemma ExploredIsBisimulation(h: Heap, eqv: Eqv, merged: seq<(Obj, Obj)>, x: Obj, y: Obj)
    requires Closed(h) && IsEquivalence(eqv) && MergedContainers(h, merged) && InUniverse(h.Keys, merged)
    requires Explored(h, eqv, MergeAll(h.Keys, merged), merged, 0)
    requires x in h && y in h && Related(h, eqv, MergeAll(h.Keys, merged), x, y)
    ensures SameUnfolding(h, eqv, x, y)
  {
    var p := MergeAll(h.Keys, merged);
    var R := set a, b | a in h && b in h && Related(h, eqv, p, a, b) :: (a, b);
    forall r | r in R ensures Matched(h, eqv, p, r.0, r.1) {
      if p[r.0] == p[r.1] {
        MergedAreMatched(h, eqv, merged, r.0, r.1);
      }
    }
    assert IsBisimulation(h, eqv, R);
    assert (x, y) in R;
    SameUnfoldingIsBisimilarity(h, eqv, x, y);
  }

  lemma RelatedIsTransitive(h: Heap, eqv: Eqv, merged: seq<(Obj, Obj)>, x: Obj, y: Obj, z: Obj)
    requires IsEquivalence(eqv) && MergedContainers(h, merged) && InUniverse(h.Keys, merged)
    requires x in h && y in h && z in h
    requires var p := MergeAll(h.Keys, merged); Related(h, eqv, p, x, y) && Related(h, eqv, p, y, z)
    ensures Related(h, eqv, MergeAll(h.Keys, merged), x, z)
  {
    var p := MergeAll(h.Keys, merged);
    if p[x] == p[y] && p[y] != p[z] {
      ClassesAreHomogeneous(h, merged, x, y);
    } else if p[x] != p[y] && p[y] == p[z] {
      ClassesAreHomogeneous(h, merged, y, z);
    }
  }

  lemma MatchedIsTransitive(h: Heap, eqv: Eqv, merged: seq<(Obj, Obj)>, x: Obj, y: Obj, z: Obj)
    requires Closed(h) && IsEquivalence(eqv) && MergedContainers(h, merged) && InUniverse(h.Keys, merged)
    requires x in h && y in h && z in h
    requires var p := MergeAll(h.Keys, merged); Matched(h, eqv, p, x, y) && Matched(h, eqv, p, y, z)
    ensures Matched(h, eqv, MergeAll(h.Keys, merged), x, z)
  {
    forall i | 0 <= i < |Kids(h[x])|
      ensures Related(h, eqv, MergeAll(h.Keys, merged), Kids(h[x])[i], Kids(h[z])[i])
    {
      RelatedIsTransitive(h, eqv, merged, Kids(h[x])[i], Kids(h[y])[i], Kids(h[z])[i]);
    }
  }

  /** Being matched extends from the merged pairs to whole classes. */
  lemma MergedAreMatched(h: Heap, eqv: Eqv, merged: seq<(Obj, Obj)>, x: Obj, y: Obj)
    requires Closed(h) && IsEquivalence(eqv) && MergedContainers(h, merged) && InUniverse(h.Keys, merged)
    requires Explored(h, eqv, MergeAll(h.Keys, merged), merged, 0)
    requires x in h && y in h && MergeAll(h.Keys, merged)[x] == MergeAll(h.Keys, merged)[y]
    ensures Matched(h, eqv, MergeAll(h.Keys, merged), x, y)
  {
    var p := MergeAll(h.Keys, merged);
    var E := (a: Obj, b: Obj) => SameOrMatched(h, eqv, p, a, b);
    forall a, b ensures E(a, b) ==> E(b, a) {}
    forall a, b, c ensures E(a, b) && E(b, c) ==> E(a, c) {
      if E(a, b) && E(b, c) && a != b && b != c {
        MatchedIsTransitive(h, eqv, merged, a, b, c);
      }
    }
    assert IsEquivalenceRelation(E);
    MergedIsRelated(h.Keys, merged, E, x, y);
    SelfMatched(h, eqv, p, x);
  }

  lemma SelfMatched(h: Heap, eqv: Eqv, p: Partition, x: Obj)
    requires Closed(h) && IsEquivalence(eqv) && p.Keys == h.Keys && x in h
    ensures Matched(h, eqv, p, x, x)
  {
  }

  // ----- the interleaved comparison -----

  /** The budget has paid at most one for every class of vectors that was merged away. */
  ghost predicate Affordable(h: Heap, p: Partition, k: int) {
    |Classes(p, Vectors(h))| - |Vectors(h)| <= k <= 0
  }

  lemma ClassesOfSome(p: Partition, some: set<Obj>, o: Obj)
    requires o in some && o in p
    ensures |Classes(p, some)| >= 1
  {
    assert p[o] in Classes(p, some);
  }

  /** With at most 40 vectors in the heap, the budget never reaches the value that abandons the forest. */
  lemma AffordableIsSlow(h: Heap, p: Partition, k: int)
    requires p.Keys == h.Keys && |Vectors(h)| <= -KB && Affordable(h, p, k)
    ensures !TakesFastPath(k)
  {
    if |Vectors(h)| > 0 {
      var o :| o in Vectors(h);
      ClassesOfSome(p, Vectors(h), o);
    }
  }

  /** What a comparison expects of the forest. */
  ghost predicate Ready(h: Heap, uf: UnionFind)
    reads uf, uf.boxes
  {
    uf.Valid() && uf.universe == h.Keys && MergedContainers(h, uf.merged)
  }

  /** One more merge of two containers that were apart: one class less, and it is paid for. */
  lemma MergePays(h: Heap, merged: seq<(Obj, Obj)>, x: Obj, y: Obj, k: int)
    requires MergedContainers(h, merged) && InUniverse(h.Keys, merged) && x in h && y in h
    requires SameContainer(h[x], h[y])
    requires Affordable(h, MergeAll(h.Keys, merged), k)
    requires MergeAll(h.Keys, merged)[x] != MergeAll(h.Keys, merged)[y]
    ensures var p := MergeAll(h.Keys, merged); var q := Merge(p, x, y);
      && |Classes(q, h.Keys)| < |Classes(p, h.Keys)|
      && Affordable(h, q, if h[x].Vector? then k - 1 else k)
  {
    var p := MergeAll(h.Keys, merged);
    MergeDropsOneClass(p, h.Keys, x, y);
    if h[x].Vector? {
      MergeDropsOneClass(p, Vectors(h), x, y);
    } else {
      forall o | o in p && (p[o] == p[x] || p[o] == p[y]) ensures o !in Vectors(h) {
        if p[o] == p[x] {
          ClassesAreHomogeneous(h, merged, o, x);
        } else {
          ClassesAreHomogeneous(h, merged, o, y);
        }
      }
      MergeKeepsOtherClasses(p, Vectors(h), x, y);
    }
  }

  /** The first `n` children of `x` and `y` are related, and everything merged since `from` is explored. */
  ghost predicate Progress(h: Heap, eqv: Eqv, merged: seq<(Obj, Obj)>, from: nat, x: Obj, y: Obj, n: nat)
    requires Closed(h) && MergedContainers(h, merged) && x in h && y in h
    requires n <= |Kids(h[x])| == |Kids(h[y])|
  {
    && InUniverse(h.Keys, merged)
    && Explored(h, eqv, MergeAll(h.Keys, merged), merged, from)
    && forall i {:trigger Kids(h[x])[i]} :: 0 <= i < n ==>
         Related(h, eqv, MergeAll(h.Keys, merged), Kids(h[x])[i], Kids(h[y])[i])
  }

  /** Comparing the next child keeps what earlier comparisons established. */
  lemma ProgressGoesOn(h: Heap, eqv: Eqv, m: seq<(Obj, Obj)>, n: seq<(Obj, Obj)>, from: nat, x: Obj, y: Obj, i: nat)
    requires Closed(h) && MergedContainers(h, m) && MergedContainers(h, n) && m <= n && InUniverse(h.Keys, n)
    requires x in h && y in h && i < |Kids(h[x])| == |Kids(h[y])|
    requires Progress(h, eqv, m, from, x, y, i)
    requires Explored(h, eqv, MergeAll(h.Keys, n), n, |m|)
    requires Related(h, eqv, MergeAll(h.Keys, n), Kids(h[x])[i], Kids(h[y])[i])
    ensures Progress(h, eqv, n, from, x, y, i + 1)
  {
    var p, q := MergeAll(h.Keys, m), MergeAll(h.Keys, n);
    MoreMergesAreCoarser(h.Keys, m, n);
    ExploredIsMonotone(h, eqv, p, q, m, n, from);
    forall j | 0 <= j < i ensures Related(h, eqv, q, Kids(h[x])[j], Kids(h[y])[j]) {
      assert Related(h, eqv, p, Kids(h[x])[j], Kids(h[y])[j]);
    }
  }

  /** All children related: the merge of `x` and `y` itself is explored. */
  lemma ProgressIsDone(h: Heap, eqv: Eqv, merged: seq<(Obj, Obj)>, from: nat, x: Obj, y: Obj)
    requires Closed(h) && MergedContainers(h, merged) && x in h && y in h && SameContainer(h[x], h[y])
    requires from < |merged| && merged[from] == (x, y)
    requires Progress(h, eqv, merged, from + 1, x, y, |Kids(h[x])|)
    ensures Explored(h, eqv, MergeAll(h.Keys, merged), merged, from)
    ensures Related(h, eqv, MergeAll(h.Keys, merged), x, y)
  {
    MergedPairsAreTogether(h.Keys, merged, from);
    assert Matched(h, eqv, MergeAll(h.Keys, merged), x, y);
  }

  /** The log of a comparison that has not drawn a budget. */
  ghost function Undrawn(m: seq<(Obj, Obj)>): Log {
    Log(m, 0)
  }

  method EP(uf: UnionFind, h: Heap, eqv: Eqv, x: Obj, y: Obj, k: int, ghost draws: nat -> nat)
    returns (v: Verdict, ghost n: nat)
    requires Closed(h) && IsEquivalence(eqv) && x in h && y in h && |Vectors(h)| <= -KB
    requires Ready(h, uf) && Affordable(h, uf.Parts(), k)
    modifies uf, uf.boxes
    ensures Ready(h, uf) && fresh(uf.boxes - old(uf.boxes)) && old(uf.merged) <= uf.merged
    ensures |Classes(uf.Parts(), h.Keys)| <= old(|Classes(uf.Parts(), h.Keys)|)
    ensures !v.Budget? ==> Differs(h, eqv, x, y, v.Misread?)
    ensures v.Budget? ==>
      && Affordable(h, uf.Parts(), v.k)
      && Related(h, eqv, uf.Parts(), x, y)
      && Explored(h, eqv, uf.Parts(), uf.merged, old(|uf.merged|))
    ensures CanRun(h, Undrawn(old(uf.merged)), x, y)
        && EqualRuns.EP(n, h, eqv, draws, Undrawn(old(uf.merged)), x, y, k) == Ran(v, Undrawn(uf.merged))
    decreases |Classes(uf.Parts(), h.Keys)|, 3
  {
    AffordableIsSlow(h, uf.Parts(), k);
    assert !TakesFastPath(k);
    v, n := SlowP(uf, h, eqv, x, y, k, draws);
  }

  method SlowP(uf: UnionFind, h: Heap, eqv: Eqv, x: Obj, y: Obj, k: int, ghost draws: nat -> nat)
    returns (v: Verdict, ghost n: nat)
    requires Closed(h) && IsEquivalence(eqv) && x in h && y in h && |Vectors(h)| <= -KB
    requires Ready(h, uf) && Affordable(h, uf.Parts(), k)
    modifies uf, uf.boxes
    ensures Ready(h, uf) && fresh(uf.boxes - old(uf.boxes)) && old(uf.merged) <= uf.merged
    ensures |Classes(uf.Parts(), h.Keys)| <= old(|Classes(uf.Parts(), h.Keys)|)
    ensures !v.Budget? ==> Differs(h, eqv, x, y, v.Misread?)
    ensures v.Budget? ==>
      && Affordable(h, uf.Parts(), v.k)
      && Related(h, eqv, uf.Parts(), x, y)
      && Explored(h, eqv, uf.Parts(), uf.merged, old(|uf.merged|))
    ensures CanRun(h, Undrawn(old(uf.merged)), x, y)
        && EqualRuns.SlowP(n, h, eqv, draws, Undrawn(old(uf.merged)), x, y, k) == Ran(v, Undrawn(uf.merged))
    decreases |Classes(uf.Parts(), h.Keys)|, 2
  {
    v, n := Budget(k), 1;
    if x == y {
      return;
    }
    if !SameShape(h[x], h[y], eqv) {
      DiffersHere(h, eqv, x, y);
      v := Mismatch(h, x, y);
      return;
    }
    if h[x].Pair? {
      v, n := SlowPair(uf, h, eqv, x, y, k, draws);
    } else if h[x].Vector? {
      v, n := SlowVector(uf, h, eqv, x, y, k, draws);
    }
  }

  method SlowPair(uf: UnionFind, h: Heap, eqv: Eqv, x: Obj, y: Obj, k: int, ghost draws: nat -> nat)
    returns (v: Verdict, ghost n: nat)
    requires Closed(h) && IsEquivalence(eqv) && x in h && y in h && |Vectors(h)| <= -KB
    requires Ready(h, uf) && Affordable(h, uf.Parts(), k)
    requires x != y && h[x].Pair? && h[y].Pair?
    modifies uf, uf.boxes
    ensures Ready(h, uf) && fresh(uf.boxes - old(uf.boxes)) && old(uf.merged) <= uf.merged
    ensures |Classes(uf.Parts(), h.Keys)| <= old(|Classes(uf.Parts(), h.Keys)|)
    ensures !v.Budget? ==> Differs(h, eqv, x, y, v.Misread?)
    ensures v.Budget? ==>
      && Affordable(h, uf.Parts(), v.k)
      && Related(h, eqv, uf.Parts(), x, y)
      && Explored(h, eqv, uf.Parts(), uf.merged, old(|uf.merged|))
    ensures CanRun(h, Undrawn(old(uf.merged)), x, y)
        && EqualRuns.SlowP(n, h, eqv, draws, Undrawn(old(uf.merged)), x, y, k) == Ran(v, Undrawn(uf.merged))
    decreases |Classes(uf.Parts(), h.Keys)|, 1
  {
    ghost var from, m0 := |uf.merged|, uf.merged;
    var already := Assume(uf, h, x, y, k);
    if already {
      v, n := Budget(0), 0;
    } else {
      v, n := PairKids(uf, h, eqv, x, y, k, draws);
      if v.Budget? {
        ProgressIsDone(h, eqv, uf.merged, from, x, y);
      }
    }
    assert Undrawn(m0).With(x, y) == Undrawn(m0 + [(x, y)]);
    SlowSteps(n, h, eqv, draws, Undrawn(m0), x, y, k);
    n := n + 1;
  }

  /** The two recursive comparisons of a pair, car first. */
  method PairKids(uf: UnionFind, h: Heap, eqv: Eqv, x: Obj, y: Obj, k: int, ghost draws: nat -> nat)
    returns (v: Verdict, ghost n: nat)
    requires Closed(h) && IsEquivalence(eqv) && x in h && y in h && |Vectors(h)| <= -KB
    requires Ready(h, uf) && Affordable(h, uf.Parts(), k)
    requires h[x].Pair? && h[y].Pair?
    modifies uf, uf.boxes
    ensures Ready(h, uf) && fresh(uf.boxes - old(uf.boxes)) && old(uf.merged) <= uf.merged
    ensures |Classes(uf.Parts(), h.Keys)| <= old(|Classes(uf.Parts(), h.Keys)|)
    ensures !v.Budget? ==> Differs(h, eqv, x, y, v.Misread?)
    ensures v.Budget? ==>
      && Affordable(h, uf.Parts(), v.k)
      && Progress(h, eqv, uf.merged, old(|uf.merged|), x, y, |Kids(h[x])|)
    ensures CanRun(h, Undrawn(old(uf.merged)), x, y)
        && PairP(n, h, eqv, draws, Undrawn(old(uf.merged)), x, y, k) == Ran(v, Undrawn(uf.merged))
    decreases |Classes(uf.Parts(), h.Keys)|, 4
  {
    assert Kids(h[x])[0] in h && Kids(h[y])[0] in h && Kids(h[x])[1] in h && Kids(h[y])[1] in h;
    ghost var m0 := uf.merged;
    v, n := EP(uf, h, eqv, h[x].car, h[y].car, k, draws);
    ghost var k1, n1 := if v.Budget? then v.k else 0, n;
    if !v.Budget? {
      DiffersBelow(h, eqv, x, y, 0, v.Misread?);
      return;
    }
    ghost var m1 := uf.merged;
    ProgressGoesOn(h, eqv, m0, m1, |m0|, x, y, 0);
    v, n := EP(uf, h, eqv, h[x].cdr, h[y].cdr, v.k, draws);
    PairRuns(n1, n, h, eqv, draws, Undrawn(m0), x, y, k, Undrawn(m1), k1);
    n := if n < n1 then n1 else n;
    if !v.Budget? {
      DiffersBelow(h, eqv, x, y, 1, v.Misread?);
      return;
    }
    ProgressGoesOn(h, eqv, m1, uf.merged, |m0|, x, y, 1);
  }

  lemma PairRuns(n1: nat, n2: nat, h: Heap, eqv: Eqv, draws: nat -> nat, m0: Log, x: Obj, y: Obj, k: int,
      m1: Log, k1: int)
    requires CanRun(h, m0, x, y) && h[x].Pair? && h[y].Pair? && CanRun(h, m0, h[x].car, h[y].car)
    requires CanRun(h, m1, h[x].cdr, h[y].cdr)
    requires EqualRuns.EP(n1, h, eqv, draws, m0, h[x].car, h[y].car, k) == Ran(Budget(k1), m1)
    requires EqualRuns.EP(n2, h, eqv, draws, m1, h[x].cdr, h[y].cdr, k1).Ran?
    ensures PairP(if n2 < n1 then n1 else n2, h, eqv, draws, m0, x, y, k) ==
            EqualRuns.EP(n2, h, eqv, draws, m1, h[x].cdr, h[y].cdr, k1)
  {
    var n := if n2 < n1 then n1 else n2;
    LongerEP(n1, n, h, eqv, draws, m0, h[x].car, h[y].car, k);
    LongerEP(n2, n, h, eqv, draws, m1, h[x].cdr, h[y].cdr, k1);
  }

  method SlowVector(uf: UnionFind, h: Heap, eqv: Eqv, x: Obj, y: Obj, k: int, ghost draws: nat -> nat)
    returns (v: Verdict, ghost n: nat)
    requires Closed(h) && IsEquivalence(eqv) && x in h && y in h && |Vectors(h)| <= -KB
    requires Ready(h, uf) && Affordable(h, uf.Parts(), k)
    requires x != y && h[x].Vector? && h[y].Vector? && |h[x].elements| == |h[y].elements|
    modifies uf, uf.boxes
    ensures Ready(h, uf) && fresh(uf.boxes - old(uf.boxes)) && old(uf.merged) <= uf.merged
    ensures |Classes(uf.Parts(), h.Keys)| <= old(|Classes(uf.Parts(), h.Keys)|)
    ensures !v.Budget? ==> Differs(h, eqv, x, y, v.Misread?)
    ensures v.Budget? ==>
      && Affordable(h, uf.Parts(), v.k)
      && Related(h, eqv, uf.Parts(), x, y)
      && Explored(h, eqv, uf.Parts(), uf.merged, old(|uf.merged|))
    ensures CanRun(h, Undrawn(old(uf.merged)), x, y)
        && EqualRuns.SlowP(n, h, eqv, draws, Undrawn(old(uf.merged)), x, y, k) == Ran(v, Undrawn(uf.merged))
    decreases |Classes(uf.Parts(), h.Keys)|, 1
  {
    ghost var from, m0 := |uf.merged|, uf.merged;
    var already := Assume(uf, h, x, y, k);
    if already {
      v, n := Budget(0), 0;
    } else {
      v, n := VectorKids(uf, h, eqv, x, y, k - 1, draws);
      if v.Budget? {
        ProgressIsDone(h, eqv, uf.merged, from, x, y);
      }
    }
    assert Undrawn(m0).With(x, y) == Undrawn(m0 + [(x, y)]);
    SlowSteps(n, h, eqv, draws, Undrawn(m0), x, y, k);
    n := n + 1;
  }

  /** The element loop of a vector. */
  method VectorKids(uf: UnionFind, h: Heap, eqv: Eqv, x: Obj, y: Obj, k: int, ghost draws: nat -> nat)
    returns (v: Verdict, ghost n: nat)
    requires Closed(h) && IsEquivalence(eqv) && x in h && y in h && |Vectors(h)| <= -KB
    requires Ready(h, uf) && Affordable(h, uf.Parts(), k)
    requires h[x].Vector? && h[y].Vector? && |h[x].elements| == |h[y].elements|
    modifies uf, uf.boxes
    ensures Ready(h, uf) && fresh(uf.boxes - old(uf.boxes)) && old(uf.merged) <= uf.merged
    ensures |Classes(uf.Parts(), h.Keys)| <= old(|Classes(uf.Parts(), h.Keys)|)
    ensures !v.Budget? ==> Differs(h, eqv, x, y, v.Misread?)
    ensures v.Budget? ==>
      && Affordable(h, uf.Parts(), v.k)
      && Progress(h, eqv, uf.merged, old(|uf.merged|), x, y, |Kids(h[x])|)
    ensures CanRun(h, Undrawn(old(uf.merged)), x, y)
    ensures ElementsP(n, h, eqv, draws, Undrawn(old(uf.merged)), x, y, 0, k, false) == Ran(v, Undrawn(uf.merged))
    decreases |Classes(uf.Parts(), h.Keys)|, 5
  {
    ghost var m0 := uf.merged;
    v, n := Budget(k), 0;
    for i := 0 to |h[x].elements|
      invariant Ready(h, uf) && fresh(uf.boxes - old(uf.boxes)) && m0 <= uf.merged
      invariant |Classes(uf.Parts(), h.Keys)| <= old(|Classes(uf.Parts(), h.Keys)|)
      invariant v.Budget? && Affordable(h, uf.Parts(), v.k)
          && IsBetween(n, h, eqv, draws, m0, k, x, y, uf.merged, i, v.k)
    {
      v, n := VectorKid(uf, h, eqv, x, y, i, v.k, draws, m0, k, n);
      if !v.Budget? {
        return;
      }
    }
  }

  /** The first `i` elements are done. */
  ghost predicate IsBetween(n: nat, h: Heap, eqv: Eqv, draws: nat -> nat, m0: seq<(Obj, Obj)>, k0: int, x: Obj, y: Obj,
      m: seq<(Obj, Obj)>, i: nat, k: int)
    requires Closed(h) && x in h && y in h && MergedContainers(h, m)
    requires h[x].Vector? && h[y].Vector? && i <= |h[x].elements| == |h[y].elements|
  {
    && CanRun(h, Undrawn(m0), x, y) && CanRun(h, Undrawn(m), x, y)
    && IsAt(n, h, eqv, draws, Undrawn(m0), k0, x, y, Undrawn(m), i, k)
    && Progress(h, eqv, m, |m0|, x, y, i)
  }

  method VectorKid(uf: UnionFind, h: Heap, eqv: Eqv, x: Obj, y: Obj, i: nat, k: int, ghost draws: nat -> nat,
      ghost m0: seq<(Obj, Obj)>, ghost k0: int, ghost n0: nat)
    returns (v: Verdict, ghost n: nat)
    requires Closed(h) && IsEquivalence(eqv) && x in h && y in h && |Vectors(h)| <= -KB
    requires Ready(h, uf) && Affordable(h, uf.Parts(), k)
    requires h[x].Vector? && h[y].Vector? && i < |h[x].elements| == |h[y].elements|
    requires IsBetween(n0, h, eqv, draws, m0, k0, x, y, uf.merged, i, k)
    modifies uf, uf.boxes
    ensures Ready(h, uf) && fresh(uf.boxes - old(uf.boxes)) && old(uf.merged) <= uf.merged
    ensures |Classes(uf.Parts(), h.Keys)| <= old(|Classes(uf.Parts(), h.Keys)|)
    ensures !v.Budget? ==>
      && Differs(h, eqv, x, y, v.Misread?)
      && ElementsP(n, h, eqv, draws, Undrawn(m0), x, y, 0, k0, false) == Ran(v, Undrawn(uf.merged))
    ensures v.Budget? ==>
      && Affordable(h, uf.Parts(), v.k)
      && IsBetween(n, h, eqv, draws, m0, k0, x, y, uf.merged, i + 1, v.k)
    decreases |Classes(uf.Parts(), h.Keys)|, 4
  {
    assert Kids(h[x])[i] in h && Kids(h[y])[i] in h;
    ghost var m := uf.merged;
    v, n := EP(uf, h, eqv, h[x].elements[i], h[y].elements[i], k, draws);
    GoesOn(n0, h, eqv, draws, Undrawn(m0), k0, x, y, Undrawn(m), i, k, n, Ran(v, Undrawn(uf.merged)));
    n := if n0 < n then n else n0;
    if !v.Budget? {
      DiffersBelow(h, eqv, x, y, i, v.Misread?);
      return;
    }
    ProgressGoesOn(h, eqv, m, uf.merged, |m0|, x, y, i);
  }

  /** `call_union_find`: either the two containers are already assumed equal, or they are from now on. */
  method Assume(uf: UnionFind, h: Heap, x: Obj, y: Obj, ghost k: int) returns (already: bool)
    requires x in h && y in h && x != y && SameContainer(h[x], h[y])
    requires Ready(h, uf) && Affordable(h, uf.Parts(), k)
    modifies uf, uf.boxes
    ensures Ready(h, uf) && fresh(uf.boxes - old(uf.boxes))
    ensures already == (old(uf.Parts()[x]) == old(uf.Parts()[y]))
    ensures already ==> uf.merged == old(uf.merged) && uf.Parts()[x] == uf.Parts()[y]
    ensures !already ==>
      && uf.merged == old(uf.merged) + [(x, y)]
      && |Classes(uf.Parts(), h.Keys)| < old(|Classes(uf.Parts(), h.Keys)|)
      && Affordable(h, uf.Parts(), if h[x].Vector? then k - 1 else k)
  {
    ghost var p := uf.Parts();
    if p[x] != p[y] {
      MergePays(h, uf.merged, x, y, k);
    } else {
      uf.TogetherInTable(x, y);
    }
    already := uf.Union(x, y);
    assert uf.Parts() == Merge(p, x, y);
  }

  /** `interleave_p` */
  method Interleave(h: Heap, eqv: Eqv, x: Obj, y: Obj, ghost draws: nat -> nat) returns (v: Verdict, ghost n: nat)
    requires Closed(h) && IsEquivalence(eqv) && x in h && y in h && |Vectors(h)| <= -KB
    ensures if v.Budget? then SameUnfolding(h, eqv, x, y) else Differs(h, eqv, x, y, v.Misread?)
    ensures var r := EqualRuns.EP(n, h, eqv, draws, Undrawn([]), x, y, 0); r.Ran? && r.verdict == v
  {
    var uf := new UnionFind(h.Keys);
    ClassesAtMost(uf.Parts(), Vectors(h));
    v, n := EP(uf, h, eqv, x, y, 0, draws);
    if v.Budget? {
      ExploredIsBisimulation(h, eqv, uf.merged, x, y);
    }
  }

  /** The precheck is cut off before it has decided. */
  predicate IsCutOff(h: Heap, eqv: Eqv, x: Obj, y: Obj)
    requires Closed(h) && x in h && y in h
  {
    var v := Pre(h, eqv, x, y, K0);
    v.Budget? && v.k <= 0
  }

  /** What becomes of a call: an answer, an access to something as a string that is none, or no end within `n`
      nested calls. */
  datatype Outcome = Same | Different | Crash | Running

  /** `Sg_EqualP`, cut off after `n` nested calls. */
  ghost function EqualRun(n: nat, h: Heap, eqv: Eqv, draws: nat -> nat, x: Obj, y: Obj): Outcome
    requires Closed(h) && x in h && y in h
  {
    var v := Pre(h, eqv, x, y, K0);
    if !IsCutOff(h, eqv, x, y) then OutcomeOf(v)
    else
      var r := EqualRuns.EP(n, h, eqv, draws, Undrawn([]), x, y, 0);
      if r.Hung? then Running else OutcomeOf(r.verdict)
  }

  function OutcomeOf(v: Verdict): Outcome {
    match v
    case Budget(_) => Same
    case Differ => Different
    case Misread => Crash
  }

  /** On every heap, a negative answer is right, and a crash comes from a string that meets something else after the
      precheck was cut off. */
  lemma NegativeIsRight(n: nat, h: Heap, eqv: Eqv, draws: nat -> nat, x: Obj, y: Obj)
    requires Closed(h) && x in h && y in h && IsEquivalence(eqv)
    ensures EqualRun(n, h, eqv, draws, x, y).Different? ==> !SameUnfolding(h, eqv, x, y)
    ensures EqualRun(n, h, eqv, draws, x, y).Crash? ==> IsUsedUp(h, eqv, x, y, K0) && Differs(h, eqv, x, y, true)
  {
    CutOffIsUsedUp(h, eqv, x, y);
    PreIsRight(h, eqv, x, y, K0);
    DifferentUnfoldings(h, eqv, x, y);
    FalseIsRight(n, h, eqv, draws, Undrawn([]), x, y, 0);
  }

  /** `Sg_EqualP`: with at most 40 vectors it terminates, on cyclic heaps too.  Objects are answered to be the same
      exactly when their unfoldings are; the call reads something as a string that is none only where a string meets
      something else after the precheck was cut off, and always when nothing else is different there. */
  method EqualP(h: Heap, eqv: Eqv, x: Obj, y: Obj, ghost draws: nat -> nat) returns (r: Outcome, ghost n: nat)
    requires Closed(h) && IsEquivalence(eqv) && x in h && y in h && |Vectors(h)| <= -KB
    ensures r == EqualRun(n, h, eqv, draws, x, y) && !r.Running?
    ensures r.Same? <==> SameUnfolding(h, eqv, x, y)
    ensures r.Crash? ==> IsUsedUp(h, eqv, x, y, K0) && Differs(h, eqv, x, y, true)
    ensures IsUsedUp(h, eqv, x, y, K0) && Differs(h, eqv, x, y, true) && !Differs(h, eqv, x, y, false) ==> r.Crash?
  {
    var v := Pre(h, eqv, x, y, K0);
    CutOffIsUsedUp(h, eqv, x, y);
    PreIsRight(h, eqv, x, y, K0);
    DifferentUnfoldings(h, eqv, x, y);
    n := 0;
    if v.Budget? && v.k <= 0 {
      v, n := Interleave(h, eqv, x, y, draws);
    }
    r := OutcomeOf(v);
  }

  /** Two cyclic lists of one element use up the whole budget of the precheck. */
  lemma {:induction false} CyclesUseUp(h: Heap, eqv: Eqv, p: Obj, q: Obj, k: nat)
    requires Closed(h) && p in h && q in h && p != q && h[p].Pair? && h[q].Pair?
    requires h[p].cdr == p && h[q].cdr == q && h[p].car == h[q].car && h[p].car in h
    ensures Pre(h, eqv, p, q, k) == Budget(0)
  {
    if k > 0 {
      CyclesUseUp(h, eqv, p, q, k - 1);
    }
  }

  /** The heap of the lists (p "…") and (q 5), where p and q are two cyclic lists of the element 1. */
  function StringAgainstNumber(chars: seq<int>): Heap {
    map[Obj(0) := Pair(Obj(1), Obj(3)), Obj(10) := Pair(Obj(11), Obj(13)),
        Obj(1) := Pair(Obj(2), Obj(1)), Obj(11) := Pair(Obj(2), Obj(11)), Obj(2) := Atom(1),
        Obj(3) := Pair(Obj(4), Obj(6)), Obj(13) := Pair(Obj(5), Obj(6)),
        Obj(4) := Text(chars), Obj(5) := Atom(5), Obj(6) := Atom(0)]
  }

  lemma StringAgainstNumberIsCutOff(h: Heap, eqv: Eqv, chars: seq<int>)
    requires h == StringAgainstNumber(chars)
    ensures Closed(h) && IsCutOff(h, eqv, Obj(0), Obj(10))
  {
    CyclesUseUp(h, eqv, Obj(1), Obj(11), K0 - 1);
  }

  lemma StringAgainstNumberIsMixed(h: Heap, eqv: Eqv, chars: seq<int>)
    requires h == StringAgainstNumber(chars) && Closed(h)
    ensures Differs(h, eqv, Obj(0), Obj(10), true)
  {
    DiffersHere(h, eqv, Obj(4), Obj(5));
    DiffersBelow(h, eqv, Obj(3), Obj(13), 0, true);
    DiffersBelow(h, eqv, Obj(0), Obj(10), 1, true);
  }

  lemma StringAgainstNumberIsOnlyMixed(h: Heap, eqv: Eqv, chars: seq<int>)
    requires h == StringAgainstNumber(chars) && Closed(h) && IsEquivalence(eqv)
    ensures !Differs(h, eqv, Obj(0), Obj(10), false)
  {
    var R := {(Obj(0), Obj(10)), (Obj(1), Obj(11)), (Obj(2), Obj(2)), (Obj(3), Obj(13)), (Obj(4), Obj(5)),
        (Obj(6), Obj(6))};
    assert AlikeButStrings(h, eqv, R, Obj(0), Obj(10)) && AlikeButStrings(h, eqv, R, Obj(1), Obj(11));
    assert AlikeButStrings(h, eqv, R, Obj(2), Obj(2)) && AlikeButStrings(h, eqv, R, Obj(3), Obj(13));
    assert AlikeButStrings(h, eqv, R, Obj(4), Obj(5)) && AlikeButStrings(h, eqv, R, Obj(6), Obj(6));
    forall n: nat ensures !DiffersAt(h, eqv, n, Obj(0), Obj(10), false) {
      OnlyStringsDiffer(h, eqv, R, n, Obj(0), Obj(10));
    }
  }

  /** Two lists that differ in a string against a number, behind elements that use up the precheck. */
  method StringIsMisread(h: Heap, chars: seq<int>, eqv: Eqv) returns (r: Outcome)
    requires h == StringAgainstNumber(chars) && IsEquivalence(eqv)
    ensures r == Crash
  {
    StringAgainstNumberIsCutOff(h, eqv, chars);
    CutOffIsUsedUp(h, eqv, Obj(0), Obj(10));
    StringAgainstNumberIsMixed(h, eqv, chars);
    StringAgainstNumberIsOnlyMixed(h, eqv, chars);
    NoVectors(h);
    ghost var n;
    r, n := EqualP(h, eqv, Obj(0), Obj(10), _ => 0);
  }

  lemma NoVectors(h: Heap)
    requires forall o :: o in h ==> !h[o].Vector?
    ensures |Vectors(h)| == 0
  {
    assert Vectors(h) == {};
  }

  lemma {:induction false} ClassesAtMost(p: Partition, some: set<Obj>)
    ensures |Classes(p, some)| <= |some|
  {
    if |some| > 0 {
      var o :| o in some;
      ClassesAtMost(p, some - {o});
      assert Classes(p, some) == Classes(p, some - {o}) + if o in p then {p[o]} else {};
    } else {
      assert Classes(p, some) == {};
    }
  }
}
