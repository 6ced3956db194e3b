/** The object graphs that the cache stores, and the sharing marks of its two passes (src/cache.c). */
module CacheGraph {
  import Objects

  type Obj = Objects.Obj
  type Char = c: int | 0 <= c < 0x1_0000_0000

  /** The word of the empty list. */
  const NIL_WORD := 0x213

  datatype Node =
    | Imm(word: nat)
    | Str(text: seq<Char>)
    | Sym(interned: bool, text: seq<Char>)
    | Vec(elements: seq<Obj>)
    | Pair(car: Obj, cdr: Obj)

  /** A heap, and the symbols that name the classes of strings and of symbols. */
  datatype Graph = Graph(nodes: map<Obj, Node>, stringClass: Obj, symbolClass: Obj)

  function Kids(n: Node): seq<Obj> {
    match n
    case Vec(es) => es
    case Pair(a, d) => [a, d]
    case _ => []
  }

  /** What the scan visits from a node: its children, or the name of its class. */
  function ScanKids(g: Graph, n: Node): seq<Obj> {
    match n
    case Str(_) => [g.stringClass]
    case Sym(_, _) => [g.symbolClass]
    case _ => Kids(n)
  }

  /** Objects whose sharing is recorded: everything but immediates. */
  predicate Tracked(g: Graph, o: Obj)
    requires o in g.nodes
  {
    !g.nodes[o].Imm?
  }

  ghost predicate Closed(g: Graph) {
    forall o, i :: o in g.nodes && 0 <= i < |ScanKids(g, g.nodes[o])| ==> ScanKids(g, g.nodes[o])[i] in g.nodes
  }

  /** `Once` is `#f`, `Shared` is `#t`; `Tail` is the one-element list that marks a shared list tail
      whose body is being written. */
  datatype Mark = Once | Shared | Defined(uid: nat) | Tail(uid: nat)

  type Marks = map<Obj, Mark>

  /** The `index`-th child of `from`; the entry to the whole graph is an edge with a negative index. */
  datatype Edge = Edge(from: Obj, index: int)

  type Owners = map<Obj, Edge>

  /** The child was visited, and if it was visited only once, then along this very edge. */
  ghost predicate EdgeScanned(g: Graph, marks: Marks, owner: Owners, e: Edge, kid: Obj)
    requires kid in g.nodes
  {
    Tracked(g, kid) ==> kid in marks && (marks[kid] == Once ==> kid in owner && owner[kid] == e)
  }

  ghost predicate NodeScanned(g: Graph, marks: Marks, owner: Owners, p: Obj, n: nat)
    requires Closed(g) && p in g.nodes && n <= |ScanKids(g, g.nodes[p])|
  {
    forall i {:trigger ScanKids(g, g.nodes[p])[i]} :: 0 <= i < n ==>
      EdgeScanned(g, marks, owner, Edge(p, i), ScanKids(g, g.nodes[p])[i])
  }

  /** Every marked object outside `open` had all its children visited. */
  ghost predicate Scanned(g: Graph, marks: Marks, owner: Owners, open: set<Obj>)
    requires Closed(g)
  {
    && marks.Keys <= g.nodes.Keys
    && (forall p {:trigger IsScanMark(g, marks, p)} :: p in marks ==> IsScanMark(g, marks, p))
    && (forall p {:trigger AllScanned(g, marks, owner, p)} :: p in marks && p !in open ==>
        AllScanned(g, marks, owner, p))
  }

  ghost predicate IsScanMark(g: Graph, marks: Marks, p: Obj)
    requires p in marks && p in g.nodes
  {
    Tracked(g, p) && (marks[p] == Once || marks[p] == Shared)
  }

  ghost predicate AllScanned(g: Graph, marks: Marks, owner: Owners, p: Obj)
    requires Closed(g) && p in g.nodes
  {
    NodeScanned(g, marks, owner, p, |ScanKids(g, g.nodes[p])|)
  }

  /** Marks only go up, and an object still visited only once keeps its edge. */
  ghost predicate MarkGrew(m: Marks, owner: Owners, m': Marks, owner': Owners, p: Obj) {
    p in m ==>
      && p in m'
      && (m[p] == Shared ==> m'[p] == Shared)
      && (m'[p] == Once ==> m[p] == Once && (p in owner ==> p in owner' && owner'[p] == owner[p]))
  }

  ghost predicate Grew(m: Marks, owner: Owners, m': Marks, owner': Owners) {
    forall p {:trigger MarkGrew(m, owner, m', owner', p)} :: MarkGrew(m, owner, m', owner', p)
  }

  lemma GrewTransitive(m0: Marks, o0: Owners, m1: Marks, o1: Owners, m2: Marks, o2: Owners)
    requires Grew(m0, o0, m1, o1) && Grew(m1, o1, m2, o2)
    ensures Grew(m0, o0, m2, o2)
  {
    forall p ensures MarkGrew(m0, o0, m2, o2, p) {
      assert MarkGrew(m0, o0, m1, o1, p) && MarkGrew(m1, o1, m2, o2, p);
    }
  }

  lemma ScannedNodeStays(g: Graph, m: Marks, owner: Owners, m': Marks, owner': Owners, p: Obj, n: nat)
    requires Closed(g) && p in g.nodes && n <= |ScanKids(g, g.nodes[p])|
    requires NodeScanned(g, m, owner, p, n) && Grew(m, owner, m', owner')
    ensures NodeScanned(g, m', owner', p, n)
  {
    forall i | 0 <= i < n ensures EdgeScanned(g, m', owner', Edge(p, i), ScanKids(g, g.nodes[p])[i]) {
      var kid := ScanKids(g, g.nodes[p])[i];
      assert EdgeScanned(g, m, owner, Edge(p, i), kid) && MarkGrew(m, owner, m', owner', kid);
    }
  }

  /** Two different references to one tracked object: the scan has marked it as shared. */
  lemma TwoReferencesAreShared(g: Graph, marks: Marks, owner: Owners, p: Obj, i: nat, q: Obj, j: nat)
    requires Closed(g) && Scanned(g, marks, owner, {}) && p in marks && q in marks
    requires i < |ScanKids(g, g.nodes[p])| && j < |ScanKids(g, g.nodes[q])| && (p, i) != (q, j)
    requires ScanKids(g, g.nodes[p])[i] == ScanKids(g, g.nodes[q])[j]
    requires Tracked(g, ScanKids(g, g.nodes[p])[i])
    ensures var kid := ScanKids(g, g.nodes[p])[i]; kid in marks && marks[kid] == Shared
  {
    assert AllScanned(g, marks, owner, p) && AllScanned(g, marks, owner, q);
    var kid := ScanKids(g, g.nodes[p])[i];
    assert EdgeScanned(g, marks, owner, Edge(p, i), kid) && EdgeScanned(g, marks, owner, Edge(q, j), kid);
    assert IsScanMark(g, marks, kid);
  }

  ghost function SharedSet(marks: Marks): set<Obj> {
    set o | o in marks && marks[o] == Shared
  }

  /** The mark and the edge an object gets when it is visited along `e` and is not yet `Shared`. */
  ghost function Visited(m: Marks, owner: Owners, o: Obj, e: Edge): (Marks, Owners) {
    if o in m then (m[o := Shared], owner) else (m[o := Once], owner[o := e])
  }

  lemma VisitKeepsScanned(g: Graph, m: Marks, owner: Owners, open: set<Obj>, o: Obj, e: Edge)
    requires Closed(g) && o in g.nodes && Tracked(g, o) && Scanned(g, m, owner, open)
    requires o in m ==> m[o] == Once
    ensures var (m', owner') := Visited(m, owner, o, e);
      && Scanned(g, m', owner', open + {o})
      && Grew(m, owner, m', owner')
      && (m'[o] == Once ==> o in owner' && owner'[o] == e)
  {
    var (m', owner') := Visited(m, owner, o, e);
    forall p ensures MarkGrew(m, owner, m', owner', p) {}
    forall p | p in m' ensures IsScanMark(g, m', p) {
      assert p in m ==> IsScanMark(g, m, p);
    }
    forall p | p in m' && p !in open + {o} ensures AllScanned(g, m', owner', p) {
      assert AllScanned(g, m, owner, p);
      ScannedNodeStays(g, m, owner, m', owner', p, |ScanKids(g, g.nodes[p])|);
    }
  }

  lemma FullyScanned(g: Graph, m: Marks, owner: Owners, open: set<Obj>, o: Obj)
    requires Closed(g) && o in g.nodes && Scanned(g, m, owner, open + {o}) && AllScanned(g, m, owner, o)
    ensures Scanned(g, m, owner, open)
  {
  }

  // ----- the marks are exact -----

  /** A path from the root: which child to go to at each step. */
  ghost predicate IsPath(g: Graph, root: Obj, path: seq<nat>, o: Obj)
    decreases |path|
  {
    if path == [] then o == root else IsStep(g, root, path, o)
  }

  ghost predicate IsStep(g: Graph, root: Obj, path: seq<nat>, o: Obj)
    requires path != []
    decreases |path|, 0
  {
    exists p :: IsLastStep(g, path, p, o) && IsPath(g, root, path[..|path| - 1], p)
  }

  /** The last step of the path goes from `p` to `o`. */
  ghost predicate IsLastStep(g: Graph, path: seq<nat>, p: Obj, o: Obj)
    requires path != []
  {
    var i := path[|path| - 1];
    p in g.nodes && i < |ScanKids(g, g.nodes[p])| && ScanKids(g, g.nodes[p])[i] == o
  }

  lemma PathGoesOn(g: Graph, root: Obj, path: seq<nat>, p: Obj, i: nat)
    requires IsPath(g, root, path, p) && p in g.nodes && i < |ScanKids(g, g.nodes[p])|
    ensures IsPath(g, root, path + [i], ScanKids(g, g.nodes[p])[i])
  {
    assert (path + [i])[..|path|] == path;
    assert IsLastStep(g, path + [i], p, ScanKids(g, g.nodes[p])[i]);
  }

  ghost predicate HasTwoPaths(g: Graph, root: Obj, o: Obj) {
    exists p, q :: p != q && IsPath(g, root, p, o) && IsPath(g, root, q, o)
  }

  /** Each object was first met on its path; one that is marked as shared was met on another one, too. */
  ghost predicate Met(g: Graph, root: Obj, marks: Marks, first: map<Obj, seq<nat>>, walked: set<seq<nat>>, o: Obj) {
    o in marks ==>
      && o in first && first[o] in walked && IsPath(g, root, first[o], o)
      && (marks[o] == Shared ==> HasTwoPaths(g, root, o))
  }

  ghost predicate AllMet(g: Graph, root: Obj, marks: Marks, first: map<Obj, seq<nat>>, walked: set<seq<nat>>) {
    forall o {:trigger Met(g, root, marks, first, walked, o)} :: Met(g, root, marks, first, walked, o)
  }

  ghost predicate IsEdge(g: Graph, p: Obj, i: nat) {
    p in g.nodes && i < |ScanKids(g, g.nodes[p])|
  }

  /** How often the scan has gone along an edge. */
  ghost function Passed(passed: map<Edge, nat>, p: Obj, i: nat): nat {
    if Edge(p, i) in passed then passed[Edge(p, i)] else 0
  }

  /** How often the scan came to an object. */
  ghost function Seen(seen: map<Obj, nat>, o: Obj): nat {
    if o in seen then seen[o] else 0
  }

  /** The mark tells whether the scan came to the object once or more often. */
  ghost predicate SeenMark(g: Graph, marks: Marks, seen: map<Obj, nat>, o: Obj)
    requires o in g.nodes
  {
    Tracked(g, o) ==>
      && (o in marks <==> Seen(seen, o) > 0)
      && (o in marks ==> (marks[o] == Shared <==> Seen(seen, o) > 1))
  }

  ghost predicate SeenMarks(g: Graph, marks: Marks, seen: map<Obj, nat>) {
    forall o {:trigger SeenMark(g, marks, seen, o)} :: o in g.nodes ==> SeenMark(g, marks, seen, o)
  }

  /** How often the scan came to the child otherwise than along the edge. */
  ghost function Slack(g: Graph, seen: map<Obj, nat>, passed: map<Edge, nat>, p: Obj, i: nat): int
    requires IsEdge(g, p, i)
  {
    Seen(seen, ScanKids(g, g.nodes[p])[i]) - Passed(passed, p, i)
  }

  ghost predicate IsEdgeTo(g: Graph, p: Obj, i: nat, o: Obj) {
    IsEdge(g, p, i) && ScanKids(g, g.nodes[p])[i] == o
  }

  ghost predicate IsTrackedEdge(g: Graph, p: Obj, i: nat)
    requires Closed(g)
  {
    IsEdge(g, p, i) && Tracked(g, ScanKids(g, g.nodes[p])[i])
  }

  ghost predicate NotLess(g: Graph, s: map<Obj, nat>, d: map<Edge, nat>, s': map<Obj, nat>, d': map<Edge, nat>)
    requires Closed(g)
  {
    forall p, i: nat {:trigger Slack(g, s', d', p, i)} :: IsTrackedEdge(g, p, i) ==>
      Slack(g, s', d', p, i) >= Slack(g, s, d, p, i)
  }

  /** ... and the scan came to `o` once more. */
  ghost predicate IsMore(g: Graph, s: map<Obj, nat>, d: map<Edge, nat>, s': map<Obj, nat>, d': map<Edge, nat>, o: Obj)
    requires Closed(g)
  {
    && NotLess(g, s, d, s', d')
    && forall p, i: nat {:trigger Slack(g, s', d', p, i)} :: IsTrackedEdge(g, p, i) && IsEdgeTo(g, p, i, o) ==>
         Slack(g, s', d', p, i) > Slack(g, s, d, p, i)
  }

  /** How many visits to the object have not gone along its edge yet. */
  ghost function Due(visits: map<Obj, nat>, passed: map<Edge, nat>, p: Obj, i: nat): int {
    (if p in visits then visits[p] else 0) - Passed(passed, p, i)
  }

  ghost predicate NotBehind(g: Graph, v: map<Obj, nat>, d: map<Edge, nat>, v': map<Obj, nat>, d': map<Edge, nat>) {
    forall p, i: nat {:trigger Due(v', d', p, i)} :: IsEdge(g, p, i) ==> Due(v', d', p, i) <= Due(v, d, p, i)
  }

  /** Each of the first `n` edges of `o` was gone along once more than `o` was visited. */
  ghost predicate IsAhead(g: Graph, v: map<Obj, nat>, d: map<Edge, nat>, v': map<Obj, nat>, d': map<Edge, nat>, o: Obj,
      n: nat)
  {
    && NotBehind(g, v, d, v', d')
    && forall i: nat {:trigger Due(v', d', o, i)} :: i < n && IsEdge(g, o, i) ==> Due(v', d', o, i) < Due(v, d, o, i)
  }

  /** The path goes on from another one, to one of its first `n` children. */
  ghost predicate IsBelow(path: seq<nat>, q: seq<nat>, n: nat) {
    path < q && q[|path|] < n
  }

  lemma PassOnce(g: Graph, s: map<Obj, nat>, d: map<Edge, nat>, s': map<Obj, nat>, d': map<Edge, nat>, p: Obj, i: nat)
    requires Closed(g) && IsEdge(g, p, i)
    requires Tracked(g, ScanKids(g, g.nodes[p])[i]) ==> IsMore(g, s, d, s', d', ScanKids(g, g.nodes[p])[i])
    requires NotLess(g, s, d, s', d')
    ensures NotLess(g, s, d, s', d'[Edge(p, i) := Passed(d', p, i) + 1])
  {
    var d'' := d'[Edge(p, i) := Passed(d', p, i) + 1];
    forall q, j: nat | IsTrackedEdge(g, q, j) ensures Slack(g, s', d'', q, j) >= Slack(g, s, d, q, j) {
      assert Slack(g, s', d', q, j) >= Slack(g, s, d, q, j);
      assert (q, j) == (p, i) ==> IsEdgeTo(g, q, j, ScanKids(g, g.nodes[p])[i]);
    }
  }

  lemma DueLess(g: Graph, v: map<Obj, nat>, d: map<Edge, nat>, v': map<Obj, nat>, d': map<Edge, nat>, p: Obj, i: nat)
    requires IsEdge(g, p, i) && NotBehind(g, v, d, v', d')
    ensures var d'' := d'[Edge(p, i) := Passed(d', p, i) + 1];
      NotBehind(g, v, d, v', d'') && Due(v', d'', p, i) < Due(v, d, p, i)
  {
    var d'' := d'[Edge(p, i) := Passed(d', p, i) + 1];
    forall q, j: nat | IsEdge(g, q, j) ensures Due(v', d'', q, j) <= Due(v, d, q, j) {
      assert Due(v', d', q, j) <= Due(v, d, q, j);
    }
    assert Due(v', d', p, i) <= Due(v, d, p, i);
  }

  lemma SeeOnce(g: Graph, seen: map<Obj, nat>, passed: map<Edge, nat>, o: Obj)
    requires Closed(g)
    ensures IsMore(g, seen, passed, seen[o := Seen(seen, o) + 1], passed, o)
  {
  }

  lemma SeenStays(g: Graph, marks: Marks, seen: map<Obj, nat>, o: Obj)
    requires SeenMarks(g, marks, seen) && o in g.nodes && Tracked(g, o)
    ensures SeenMarks(g, if o in marks then marks[o := Shared] else marks[o := Once], seen[o := Seen(seen, o) + 1])
  {
    var marks' := if o in marks then marks[o := Shared] else marks[o := Once];
    forall q | q in g.nodes ensures SeenMark(g, marks', seen[o := Seen(seen, o) + 1], q) {
      assert SeenMark(g, marks, seen, q) && SeenMark(g, marks, seen, o);
    }
  }

  lemma AlreadyShared(g: Graph, marks: Marks, seen: map<Obj, nat>, o: Obj)
    requires SeenMarks(g, marks, seen) && o in g.nodes && Tracked(g, o) && o in marks && marks[o] == Shared
    ensures SeenMarks(g, marks, seen[o := Seen(seen, o) + 1])
  {
    SeenStays(g, marks, seen, o);
    assert marks[o := Shared] == marks;
  }

  /** One more visit to `o`, and then once along each of its edges. */
  lemma VisitedAndPassed(g: Graph, v: map<Obj, nat>, d: map<Edge, nat>, v': map<Obj, nat>, d': map<Edge, nat>, o: Obj)
    requires o in g.nodes && o in v && IsAhead(g, v[o := v[o] + 1], d, v', d', o, |ScanKids(g, g.nodes[o])|)
    ensures NotBehind(g, v, d, v', d')
  {
    var v1 := v[o := v[o] + 1];
    forall p, i: nat | IsEdge(g, p, i) ensures Due(v', d', p, i) <= Due(v, d, p, i) {
      assert Due(v', d', p, i) <= Due(v1, d, p, i);
    }
  }

  lemma MoreStays(g: Graph, s0: map<Obj, nat>, d0: map<Edge, nat>, s1: map<Obj, nat>, d1: map<Edge, nat>,
      s2: map<Obj, nat>, d2: map<Edge, nat>, o: Obj)
    requires Closed(g) && IsMore(g, s0, d0, s1, d1, o) && NotLess(g, s1, d1, s2, d2)
    ensures IsMore(g, s0, d0, s2, d2, o)
  {
    forall p, i: nat | IsTrackedEdge(g, p, i)
      ensures Slack(g, s2, d2, p, i) >= Slack(g, s0, d0, p, i)
      ensures IsEdgeTo(g, p, i, o) ==> Slack(g, s2, d2, p, i) > Slack(g, s0, d0, p, i)
    {
      assert Slack(g, s2, d2, p, i) >= Slack(g, s1, d1, p, i) && Slack(g, s1, d1, p, i) >= Slack(g, s0, d0, p, i);
    }
  }

  lemma MetStays(g: Graph, root: Obj, marks: Marks, first: map<Obj, seq<nat>>, walked: set<seq<nat>>, o: Obj,
      path: seq<nat>)
    requires AllMet(g, root, marks, first, walked) && path !in walked && IsPath(g, root, path, o)
    ensures AllMet(g, root, if o in marks then marks[o := Shared] else marks[o := Once],
                if o in marks then first else first[o := path], walked + {path})
  {
    assert Met(g, root, marks, first, walked, o);
    var marks' := if o in marks then marks[o := Shared] else marks[o := Once];
    var first' := if o in marks then first else first[o := path];
    forall q ensures Met(g, root, marks', first', walked + {path}, q) {
      assert Met(g, root, marks, first, walked, q);
    }
  }

  /** The scan from the root: all marks are in place, none too many. */
  ghost predicate MarksAreExact(g: Graph, marks: Marks, root: Obj)
    requires Closed(g)
  {
    forall o {:trigger MarkIsExact(g, marks, root, o)} :: o in g.nodes && Tracked(g, o) ==>
        MarkIsExact(g, marks, root, o)
  }

  ghost predicate MarkIsExact(g: Graph, marks: Marks, root: Obj, o: Obj) {
    && (o in marks <==> exists p :: IsPath(g, root, p, o))
    && (o in marks ==> marks[o] == if HasTwoPaths(g, root, o) then Shared else Once)
  }

  /** What the scan from the root leaves behind. */
  ghost predicate IsScan(g: Graph, marks: Marks, owner: Owners, root: Obj)
    requires Closed(g) && root in g.nodes
  {
    && Scanned(g, marks, owner, {}) && EdgeScanned(g, marks, owner, Edge(root, -1), root)
    && (forall o {:trigger HasTwoPaths(g, root, o)} :: o in marks && marks[o] == Shared ==> HasTwoPaths(g, root, o))
    && (forall o {:trigger Leads(g, root, o)} :: o in marks ==> Leads(g, root, o))
    && (forall p {:trigger KidShared(g, marks, p)} :: p in marks && marks[p] == Shared ==> KidShared(g, marks, p))
  }

  ghost predicate Leads(g: Graph, root: Obj, o: Obj) {
    exists p :: IsPath(g, root, p, o)
  }

  /** What is visited from a shared object is shared. */
  ghost predicate KidShared(g: Graph, marks: Marks, p: Obj)
    requires Closed(g) && p in g.nodes
  {
    forall i {:trigger ScanKids(g, g.nodes[p])[i]} :: 0 <= i < |ScanKids(g, g.nodes[p])| ==>
      var kid := ScanKids(g, g.nodes[p])[i]; Tracked(g, kid) ==> kid in marks && marks[kid] == Shared
  }

  lemma ScanEnds(g: Graph, marks: Marks, owner: Owners, root: Obj, first: map<Obj, seq<nat>>, walked: set<seq<nat>>,
      before: map<Obj, nat>, visits: map<Obj, nat>, seen: map<Obj, nat>, passed: map<Edge, nat>)
    requires Closed(g) && root in g.nodes
    requires Scanned(g, marks, owner, {}) && EdgeScanned(g, marks, owner, Edge(root, -1), root)
    requires AllMet(g, root, marks, first, walked) && SeenMarks(g, marks, seen)
        && NotLess(g, map[], map[], seen, passed)
    requires (forall o :: o in before ==> before[o] == 0) && NotBehind(g, before, map[], visits, passed)
    requires forall p :: p in marks && marks[p] == Shared ==> p in visits && visits[p] == 2
    ensures IsScan(g, marks, owner, root)
  {
    forall o | o in marks ensures Leads(g, root, o) && (marks[o] == Shared ==> HasTwoPaths(g, root, o)) {
      assert Met(g, root, marks, first, walked, o);
    }
    forall p | p in marks && marks[p] == Shared ensures KidShared(g, marks, p) {
      forall i | 0 <= i < |ScanKids(g, g.nodes[p])|
        ensures var kid := ScanKids(g, g.nodes[p])[i]; Tracked(g, kid) ==> kid in marks && marks[kid] == Shared
      {
        assert IsEdge(g, p, i) && SeenMark(g, marks, seen, ScanKids(g, g.nodes[p])[i]);
        assert Due(visits, passed, p, i) <= Due(before, map[], p, i);
        assert IsTrackedEdge(g, p, i) ==> Slack(g, seen, passed, p, i) >= Slack(g, map[], map[], p, i);
      }
    }
  }

  lemma {:induction false} ReachedIsMarked(g: Graph, marks: Marks, owner: Owners, root: Obj, path: seq<nat>, o: Obj)
    requires Closed(g) && root in g.nodes && IsScan(g, marks, owner, root) && IsPath(g, root, path, o)
    ensures o in g.nodes && (Tracked(g, o) ==> o in marks)
    decreases |path|
  {
    if path != [] {
      var p :| IsLastStep(g, path, p, o) && IsPath(g, root, path[..|path| - 1], p);
      ReachedIsMarked(g, marks, owner, root, path[..|path| - 1], p);
      assert AllScanned(g, marks, owner, p);
      assert EdgeScanned(g, marks, owner, Edge(p, path[|path| - 1]), o);
    }
  }

  /** An object that is marked once has one edge to it, from an object that is marked once, or it is the root. */
  lemma LastEdge(g: Graph, marks: Marks, owner: Owners, root: Obj, path: seq<nat>, o: Obj) returns (p: Obj)
    requires Closed(g) && root in g.nodes && IsScan(g, marks, owner, root) && IsPath(g, root, path, o)
    requires o in marks && marks[o] == Once && o in g.nodes && Tracked(g, o) && path != []
    ensures IsPath(g, root, path[..|path| - 1], p) && p in marks && marks[p] == Once && p in g.nodes && Tracked(g, p)
    ensures o in owner && owner[o] == Edge(p, path[|path| - 1])
  {
    var i := path[|path| - 1];
    p :| IsLastStep(g, path, p, o) && IsPath(g, root, path[..|path| - 1], p);
    ReachedIsMarked(g, marks, owner, root, path[..|path| - 1], p);
    assert AllScanned(g, marks, owner, p) && IsScanMark(g, marks, p);
    assert EdgeScanned(g, marks, owner, Edge(p, i), o);
    assert ScanKids(g, g.nodes[p])[i] == o;
    assert marks[p] == Shared ==> KidShared(g, marks, p);
  }

  /** So there is one path to it. */
  lemma {:induction false} OnceHasOnePath(g: Graph, marks: Marks, owner: Owners, root: Obj, p: seq<nat>, q: seq<nat>,
      o: Obj)
    requires Closed(g) && root in g.nodes && IsScan(g, marks, owner, root)
    requires IsPath(g, root, p, o) && IsPath(g, root, q, o)
    requires o in marks && marks[o] == Once && o in g.nodes && Tracked(g, o)
    ensures p == q
    decreases |p|
  {
    if p == [] && q != [] {
      var a := LastEdge(g, marks, owner, root, q, o);
    } else if q == [] && p != [] {
      var a := LastEdge(g, marks, owner, root, p, o);
    } else if p != [] {
      var a := LastEdge(g, marks, owner, root, p, o);
      var b := LastEdge(g, marks, owner, root, q, o);
      OnceHasOnePath(g, marks, owner, root, p[..|p| - 1], q[..|q| - 1], a);
      assert p == p[..|p| - 1] + [p[|p| - 1]] && q == q[..|q| - 1] + [q[|q| - 1]];
    }
  }

  /** The marks of the scan are exact: an object is marked when a path leads to it, and shared when two do. */
  lemma ScanIsExact(g: Graph, marks: Marks, owner: Owners, root: Obj)
    requires Closed(g) && root in g.nodes && IsScan(g, marks, owner, root)
    ensures MarksAreExact(g, marks, root)
  {
    forall o | o in g.nodes && Tracked(g, o) ensures MarkIsExact(g, marks, root, o) {
      if o in marks {
        assert Leads(g, root, o) && IsScanMark(g, marks, o);
        if marks[o] == Once {
          forall p, q | IsPath(g, root, p, o) && IsPath(g, root, q, o) ensures p == q {
            OnceHasOnePath(g, marks, owner, root, p, q, o);
          }
        } else {
          assert HasTwoPaths(g, root, o);
        }
      } else {
        forall p | IsPath(g, root, p, o) ensures false {
          ReachedIsMarked(g, marks, owner, root, p, o);
        }
      }
    }
  }

  /** Exact marks are the same marks. */
  lemma ExactIsUnique(g: Graph, marks: Marks, marks': Marks, root: Obj)
    requires Closed(g) && MarksAreExact(g, marks, root) && MarksAreExact(g, marks', root)
    requires forall o :: o in marks || o in marks' ==> o in g.nodes && Tracked(g, o)
    ensures marks == marks'
  {
    forall o | o in g.nodes && Tracked(g, o)
      ensures o in marks <==> o in marks'
      ensures o in marks ==> marks[o] == marks'[o]
    {
      assert MarkIsExact(g, marks, root, o) && MarkIsExact(g, marks', root, o);
    }
  }
}
