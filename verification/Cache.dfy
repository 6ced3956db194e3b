/** The two passes of the cache writer and the cache reader, as they update their contexts (src/cache.c). */
module Cache {
  import opened CacheFormat
  import opened CacheGraph
  import Objects
  import W = CacheWrite
  import R = CacheRead
  import RT = CacheRoundTrip

  class CacheWriter {
    /** The `sharedObjects` table. */
    var marks: Marks
    var uid: nat
    /** What was put on the output port. */
    var out: seq<Byte>

    ghost var owner: Owners
    /** Objects of the graph that were not visited yet, and those not yet visited twice. */
    ghost var unseen: set<Obj>
    ghost var unshared: set<Obj>
    ghost var expansions: nat
    /** How often the children of each object were visited. */
    ghost var visits: map<Obj, nat>
    /** The path on which each object was first met, all paths that were gone, and how often each edge was. */
    ghost var first: map<Obj, seq<nat>>
    ghost var walked: set<seq<nat>>
    ghost var passed: map<Edge, nat>
    /** How often the scan came to each object. */
    ghost var seen: map<Obj, nat>

    constructor (ghost g: Graph)
      ensures marks == map[] && uid == 0 && out == [] && owner == map[] && IsAccounted(g)
      ensures expansions == 0 && Budget() == 2 * |g.nodes| && walked == {} && passed == map[] && seen == map[]
      ensures forall o :: o in visits ==> visits[o] == 0
    {
      marks, uid, out := map[], 0, [];
      owner, unseen, unshared, expansions := map[], g.nodes.Keys, g.nodes.Keys, 0;
      visits := map o | o in g.nodes :: 0;
      first, walked, passed, seen := map[], {}, map[], map[];
    }

    /** How many expansions the scan can still make: an object is expanded when it is first seen and
        when it is found to be shared. */
    ghost function Budget(): nat
      reads this`unseen, this`unshared
    {
      |unseen| + |unshared|
    }

    ghost predicate IsAccounted(g: Graph)
      reads this`marks, this`unseen, this`unshared, this`visits
    {
      forall o {:trigger Accounted(o)} :: o in g.nodes ==> Accounted(o)
    }

    /** The mark of an object tells how often it was expanded, which is never more than twice. */
    ghost predicate Accounted(o: Obj)
      reads this`marks, this`unseen, this`unshared, this`visits
    {
      && (o in unseen <==> o !in marks)
      && (o in unshared <==> o !in marks || marks[o] != Shared)
      && o in visits && visits[o] == if o !in marks then 0 else if marks[o] != Shared then 1 else 2
    }

    /** What the scan has seen: the paths it has gone, and how often it has gone along each edge. */
    ghost predicate IsWalking(g: Graph, root: Obj)
      requires Closed(g)
      reads this`marks, this`first, this`walked, this`seen
    {
      AllMet(g, root, marks, first, walked) && SeenMarks(g, marks, seen)
    }

    /** Marks an object that is seen for the first or the second time. */
    method Visit(ghost g: Graph, o: Obj, ghost e: Edge)
      requires o in g.nodes && IsAccounted(g) && (o in marks ==> marks[o] != Shared)
      modifies this`marks, this`owner, this`expansions, this`visits, this`unseen, this`unshared
      ensures (marks, owner) == Visited(old(marks), old(owner), o, e)
      ensures o in old(visits) && visits == old(visits)[o := old(visits)[o] + 1]
      ensures IsAccounted(g) && expansions == old(expansions) + 1 && Budget() + 1 == old(Budget())
    {
      assert Accounted(o);
      if o in marks {
        marks := marks[o := Shared];
        unshared := unshared - {o};
      } else {
        marks := marks[o := Once];
        owner, unseen := owner[o := e], unseen - {o};
      }
      visits, expansions := visits[o := visits[o] + 1], expansions + 1;
      forall p | p in g.nodes ensures Accounted(p) {
        assert old(Accounted(p));
      }
    }

    /** Notes the path on which the object was seen. */
    ghost method Note(g: Graph, root: Obj, m: Marks, o: Obj, path: seq<nat>)
      requires Closed(g) && o in g.nodes && Tracked(g, o) && path !in walked && IsPath(g, root, path, o)
      requires AllMet(g, root, m, first, walked) && SeenMarks(g, m, seen)
      requires marks == if o in m then m[o := Shared] else m[o := Once]
      modifies this`first, this`walked, this`seen
      ensures IsWalking(g, root) && walked == old(walked) + {path} && seen == old(seen)[o := Seen(old(seen), o) + 1]
    {
      MetStays(g, root, m, first, walked, o, path);
      SeenStays(g, m, seen, o);
      if o !in m {
        first := first[o := path];
      }
      walked, seen := walked + {path}, seen[o := Seen(seen, o) + 1];
    }

    /** The scan has gone no path that goes on from this one. */
    ghost predicate IsNew(path: seq<nat>)
      reads this`walked
    {
      forall q :: q in walked ==> !(path <= q)
    }

    /** `write_cache_scan`: the children are visited on the first and on the second visit, so each object
        is expanded at most twice, on cyclic graphs too. */
    method Scan(g: Graph, ghost root: Obj, o: Obj, ghost e: Edge, ghost open: set<Obj>, ghost path: seq<nat>)
      requires Closed(g) && o in g.nodes && Scanned(g, marks, owner, open) && IsAccounted(g)
      requires IsWalking(g, root) && IsNew(path) && IsPath(g, root, path, o)
      modifies this`marks, this`owner, this`expansions, this`visits, this`unseen, this`unshared, this`first,
          this`walked,
               this`passed, this`seen
      ensures Scanned(g, marks, owner, open) && EdgeScanned(g, marks, owner, e, o)
      ensures Grew(old(marks), old(owner), marks, owner)
      ensures NotLess(g, old(seen), old(passed), seen, passed)
      ensures Tracked(g, o) ==> IsMore(g, old(seen), old(passed), seen, passed, o)
      ensures IsWalking(g, root) && NotBehind(g, old(visits), old(passed), visits, passed)
      ensures forall q :: q in walked ==> q in old(walked) || path <= q
      ensures IsAccounted(g) && old(expansions) <= expansions && expansions + Budget() == old(expansions + Budget())
      decreases Budget(), 1
    {
      if !Tracked(g, o) {
        return;
      }
      assert o in marks ==> IsScanMark(g, marks, o);
      if o in marks && marks[o] == Shared {
        SeeOnce(g, seen, passed, o);
        AlreadyShared(g, marks, seen, o);
        seen := seen[o := Seen(seen, o) + 1];
        return;
      }
      Expand(g, root, o, e, open, path);
    }

    method VisitOn(ghost g: Graph, ghost root: Obj, o: Obj, ghost e: Edge, ghost open: set<Obj>, ghost path: seq<nat>)
      requires Closed(g) && o in g.nodes && Tracked(g, o) && Scanned(g, marks, owner, open) && IsAccounted(g)
      requires IsWalking(g, root) && IsNew(path) && IsPath(g, root, path, o) && (o in marks ==> marks[o] == Once)
      modifies this`marks, this`owner, this`expansions, this`visits, this`unseen, this`unshared, this`first,
               this`walked, this`seen
      ensures Scanned(g, marks, owner, open + {o}) && Grew(old(marks), old(owner), marks, owner)
      ensures o in marks && (marks[o] == Once ==> o in owner && owner[o] == e)
      ensures IsWalking(g, root) && walked == old(walked) + {path}
      ensures o in old(visits) && visits == old(visits)[o := old(visits)[o] + 1]
      ensures IsMore(g, old(seen), passed, seen, passed, o)
      ensures IsAccounted(g) && expansions == old(expansions) + 1 && Budget() + 1 == old(Budget())
    {
      VisitKeepsScanned(g, marks, owner, open, o, e);
      Visit(g, o, e);
      Note(g, root, old(marks), o, path);
      SeeOnce(g, old(seen), passed, o);
    }

    /** The first and the second visit. */
    method Expand(g: Graph, ghost root: Obj, o: Obj, ghost e: Edge, ghost open: set<Obj>, ghost path: seq<nat>)
      requires Closed(g) && o in g.nodes && Tracked(g, o) && Scanned(g, marks, owner, open) && IsAccounted(g)
      requires IsWalking(g, root) && IsNew(path) && IsPath(g, root, path, o) && (o in marks ==> marks[o] == Once)
      modifies this`marks, this`owner, this`expansions, this`visits, this`unseen, this`unshared, this`first,
          this`walked,
               this`passed, this`seen
      ensures Scanned(g, marks, owner, open) && EdgeScanned(g, marks, owner, e, o)
      ensures Grew(old(marks), old(owner), marks, owner)
      ensures IsWalking(g, root) && NotBehind(g, old(visits), old(passed), visits, passed)
      ensures IsMore(g, old(seen), old(passed), seen, passed, o)
      ensures forall q :: q in walked ==> q in old(walked) || path <= q
      ensures IsAccounted(g) && old(expansions) <= expansions && expansions + Budget() == old(expansions + Budget())
      decreases Budget(), 0
    {
      VisitOn(g, root, o, e, open, path);
      ghost var m1, w1, s1 := marks, owner, seen;
      ScanChildren(g, root, o, open + {o}, path);
      VisitedAndPassed(g, old(visits), old(passed), visits, passed, o);
      MoreStays(g, old(seen), old(passed), s1, old(passed), seen, passed, o);
      FullyScanned(g, marks, owner, open, o);
      GrewTransitive(old(marks), old(owner), m1, w1, marks, owner);
      assert MarkGrew(m1, w1, marks, owner, o);
    }

    method ScanChildren(g: Graph, ghost root: Obj, o: Obj, ghost open: set<Obj>, ghost path: seq<nat>)
      requires Closed(g) && o in g.nodes && Scanned(g, marks, owner, open) && IsAccounted(g)
      requires IsWalking(g, root) && IsPath(g, root, path, o) && forall q :: q in walked && path <= q ==> q == path
      modifies this`marks, this`owner, this`expansions, this`visits, this`unseen, this`unshared, this`first,
          this`walked,
               this`passed, this`seen
      ensures Scanned(g, marks, owner, open) && AllScanned(g, marks, owner, o)
      ensures Grew(old(marks), old(owner), marks, owner)
      ensures IsWalking(g, root) && NotLess(g, old(seen), old(passed), seen, passed)
      ensures IsAhead(g, old(visits), old(passed), visits, passed, o, |ScanKids(g, g.nodes[o])|)
      ensures forall q :: q in walked ==> q in old(walked) || path <= q
      ensures IsAccounted(g) && old(expansions) <= expansions && expansions + Budget() == old(expansions + Budget())
      decreases Budget(), 3
    {
      var kids := ScanKids(g, g.nodes[o]);
      for i := 0 to |kids|
        invariant Scanned(g, marks, owner, open) && NodeScanned(g, marks, owner, o, i)
        invariant Grew(old(marks), old(owner), marks, owner)
        invariant IsWalking(g, root) && NotLess(g, old(seen), old(passed), seen, passed)
        invariant IsAhead(g, old(visits), old(passed), visits, passed, o, i)
        invariant forall q :: q in walked ==> q in old(walked) || IsBelow(path, q, i)
        invariant IsAccounted(g) && old(expansions) <= expansions && expansions + Budget() == old(expansions + Budget())
      {
        ghost var m, w := marks, owner;
        ScanChild(g, root, o, i, open, path);
        GrewTransitive(old(marks), old(owner), m, w, marks, owner);
      }
    }

    /** One turn of the loop over the children. */
    method ScanChild(g: Graph, ghost root: Obj, o: Obj, i: nat, ghost open: set<Obj>, ghost path: seq<nat>)
      requires Closed(g) && IsEdge(g, o, i) && Scanned(g, marks, owner, open) && IsAccounted(g)
      requires IsWalking(g, root) && IsPath(g, root, path, o) && IsNew(path + [i])
      requires NodeScanned(g, marks, owner, o, i)
      modifies this`marks, this`owner, this`expansions, this`visits, this`unseen, this`unshared, this`first,
          this`walked,
               this`passed, this`seen
      ensures Scanned(g, marks, owner, open) && NodeScanned(g, marks, owner, o, i + 1)
      ensures Grew(old(marks), old(owner), marks, owner)
      ensures IsWalking(g, root) && NotBehind(g, old(visits), old(passed), visits, passed)
      ensures Due(visits, passed, o, i) < Due(old(visits), old(passed), o, i)
      ensures NotLess(g, old(seen), old(passed), seen, passed)
      ensures forall q :: q in walked ==> q in old(walked) || path + [i] <= q
      ensures IsAccounted(g) && old(expansions) <= expansions && expansions + Budget() == old(expansions + Budget())
      decreases Budget(), 2
    {
      var kid := ScanKids(g, g.nodes[o])[i];
      PathGoesOn(g, root, path, o, i);
      Scan(g, root, kid, Edge(o, i), open, path + [i]);
      ScannedNodeStays(g, old(marks), old(owner), marks, owner, o, i);
      PassOnce(g, old(seen), old(passed), seen, passed, o, i);
      ghost var p1 := passed;
      assert forall q, j: nat {:trigger Due(visits, p1, q, j)} :: IsEdge(g, q, j) ==>
        Due(visits, p1, q, j) <= Due(old(visits), old(passed), q, j);
      passed := passed[Edge(o, i) := Passed(passed, o, i) + 1];
      DueLess(g, old(visits), old(passed), visits, p1, o, i);
    }

    /** What the second pass has done: the state and the output follow the specification. */
    twostate predicate Wrote(new r: (W.State, seq<Byte>))
      reads this
    {
      marks == r.0.marks && uid == r.0.uid && out == old(out) + r.1
    }

    method Put(tag: Byte, w: nat)
      modifies this`out
      ensures out == old(out) + W.Word(tag, w)
    {
      var bs := PutWord(w, tag, EMIT_SIZE);
      out := out + bs;
    }

    method PutImmediate(w: nat)
      modifies this`out
      ensures out == old(out) + W.Immediate(w)
    {
      var bs := PutWord(w, IMMEDIATE_TAG, WORD_SIZE);
      out := out + bs;
    }

    /** `write_object_cache` */
    method WriteObject(g: Graph, ghost rank: W.Ranks, o: Obj)
      requires W.IsRanking(g, rank) && o in g.nodes
      modifies this`marks, this`uid, this`out
      ensures Wrote(W.WriteObject(g, rank, W.State(old(marks), old(uid)), o))
      decreases rank[o], 3, 0
    {
      if o in marks && marks[o].Defined? {
        Put(LOOKUP_TAG, marks[o].uid);
        return;
      }
      if o in marks && marks[o] == Shared {
        Put(DEFINING_SHARED_TAG, uid);
        marks := marks[o := Defined(uid)];
        uid := uid + 1;
        ghost var st := W.State(marks, uid);
        WriteBody(g, rank, o);
        assert Wrote((W.WriteBody(g, rank, st, o).0,
            W.Word(DEFINING_SHARED_TAG, old(uid)) + W.WriteBody(g, rank, st, o).1));
        return;
      }
      WriteBody(g, rank, o);
    }

    method WriteBody(g: Graph, ghost rank: W.Ranks, o: Obj)
      requires W.IsRanking(g, rank) && o in g.nodes
      modifies this`marks, this`uid, this`out
      ensures Wrote(W.WriteBody(g, rank, W.State(old(marks), old(uid)), o))
      decreases rank[o], 2, 0
    {
      match g.nodes[o]
      case Imm(w) => PutImmediate(w);
      case Str(text) =>
        Put(STRING_TAG, |text|);
        out := out + W.Characters(text);
      case Sym(interned, text) =>
        Put(if interned then INTERNED_SYMBOL_TAG else UNINTERNED_SYMBOL_TAG, |text|);
        out := out + W.Characters(text);
      case Vec(es) =>
        Put(VECTOR_TAG, |es|);
        out := out + [0];
        assert W.Below(g, rank, es, rank[o]) by { assert Kids(g.nodes[o]) == es; }
        WriteAll(g, rank, es, rank[o]);
      case Pair(_, _) => WriteList(g, rank, o);
    }

    /** The loops over the elements of a vector or of a list. */
    method WriteAll(g: Graph, ghost rank: W.Ranks, os: seq<Obj>, ghost bound: nat)
      requires W.IsRanking(g, rank) && W.Below(g, rank, os, bound)
      modifies this`marks, this`uid, this`out
      ensures Wrote(W.WriteAll(g, rank, W.State(old(marks), old(uid)), os, bound))
      decreases bound, 0, |os|
    {
      ghost var st0, out0 := W.State(marks, uid), out;
      assert os[0..] == os;
      ghost var all := W.WriteAll(g, rank, st0, os, bound);
      for i := 0 to |os|
        invariant var (st, bs) := W.WriteAll(g, rank, W.State(marks, uid), os[i..], bound);
          st == all.0 && out + bs == out0 + all.1
      {
        assert os[i..][1..] == os[i + 1..];
        WriteObject(g, rank, os[i]);
      }
    }

    /** `write_list_cache`: the loop collects the elements up to the first tail that is written on its own. */
    method WriteList(g: Graph, ghost rank: W.Ranks, org: Obj)
      requires W.IsRanking(g, rank) && org in g.nodes && g.nodes[org].Pair?
      modifies this`marks, this`uid, this`out
      ensures Wrote(W.WriteList(g, rank, W.State(old(marks), old(uid)), org))
      decreases rank[org], 1, 0
    {
      var v, o := Collect(g, rank, org);
      W.ChainRanks(g, rank, marks, org);
      ghost var before, tail, st := out, [], W.State(marks, uid);
      if g.nodes[o] == Imm(NIL_WORD) {
        Put(PLIST_TAG, |v|);
      } else {
        Put(DLIST_TAG, |v|);
        WriteTail(g, rank, o);
        tail := W.WriteTail(g, rank, st, o).1;
      }
      ghost var word := W.Word(if g.nodes[o] == Imm(NIL_WORD) then PLIST_TAG else DLIST_TAG, |v|);
      assert out == before + word + tail;
      ghost var elements := W.WriteAll(g, rank, W.State(marks, uid), v, rank[org]).1;
      WriteElements(g, rank, v, rank[org]);
      JoinedBytes(before, word, tail, elements, W.Immediate(NIL_WORD));
    }

    /** The elements of a list, then the source information of its first pair. */
    method WriteElements(g: Graph, ghost rank: W.Ranks, v: seq<Obj>, ghost bound: nat)
      requires W.IsRanking(g, rank) && W.Below(g, rank, v, bound)
      modifies this`marks, this`uid, this`out
      ensures var (st, bs) := W.WriteAll(g, rank, W.State(old(marks), old(uid)), v, bound);
        marks == st.marks && uid == st.uid && out == old(out) + (bs + W.Immediate(NIL_WORD))
      decreases bound, 0, |v| + 1
    {
      ghost var before, bs := out, W.WriteAll(g, rank, W.State(marks, uid), v, bound).1;
      WriteAll(g, rank, v, bound);
      assert out == before + bs;
      PutImmediate(NIL_WORD);
      assert before + bs + W.Immediate(NIL_WORD) == before + (bs + W.Immediate(NIL_WORD));
    }

    method Collect(g: Graph, ghost rank: W.Ranks, org: Obj) returns (v: seq<Obj>, o: Obj)
      requires W.IsRanking(g, rank) && org in g.nodes && g.nodes[org].Pair?
      ensures var ps := W.Chain(g, rank, marks, org); v == W.Cars(g, ps) && o == W.ChainTail(g, ps)
    {
      ghost var ps := W.Chain(g, rank, marks, org);
      W.ChainSteps(g, rank, marks, org);
      v, o := [], org;
      var first := true;
      while g.nodes[o].Pair? && (first || !W.CutsList(marks, o))
        invariant |v| <= |ps| && v == W.Cars(g, ps)[..|v|]
        invariant o in g.nodes && first == (|v| == 0)
        invariant o == if |v| < |ps| then ps[|v|] else W.ChainTail(g, ps)
        decreases |ps| - |v|
      {
        assert Kids(g.nodes[o])[1] == g.nodes[o].cdr;
        v := v + [g.nodes[o].car];
        o := g.nodes[o].cdr;
        first := false;
      }
    }

    /** A shared tail that is a pair is marked as being written while its body is emitted. */
    method WriteTail(g: Graph, ghost rank: W.Ranks, o: Obj)
      requires W.IsRanking(g, rank) && o in g.nodes
      modifies this`marks, this`uid, this`out
      ensures Wrote(W.WriteTail(g, rank, W.State(old(marks), old(uid)), o))
      decreases rank[o], 4, 0
    {
      if g.nodes[o].Pair? && o in marks && marks[o] == Shared {
        var u := uid;
        marks := marks[o := Tail(u)];
        uid := uid + 1;
        Put(DEFINING_SHARED_TAG, u);
        WriteObject(g, rank, o);
        marks := marks[o := Defined(u)];
      } else {
        WriteObject(g, rank, o);
      }
    }
  }

  lemma JoinedBytes(before: seq<Byte>, word: seq<Byte>, tail: seq<Byte>, elements: seq<Byte>, last: seq<Byte>)
    ensures before + word + tail + (elements + last) == before + (word + tail + elements + last)
    ensures tail == [] ==> word + tail + elements + last == word + elements + last
  {
    assert tail == [] ==> word + tail == word;
  }

  /** After the values `vs`, what is still read completes the whole. */
  ghost predicate ReadsOn(all: R.Read<seq<R.Value>>, vs: seq<R.Value>, next: R.Read<seq<R.Value>>) {
    if next.Fail? then all.Fail? else all == R.Ok(vs + next.value, next.rest, next.st)
  }

  lemma ReadAllStep(n: nat, bs: seq<Byte>, st: R.State, all: R.Read<seq<R.Value>>, vs: seq<R.Value>)
    requires n > 0 && ReadsOn(all, vs, R.ReadAll(n, bs, st))
    ensures match R.ReadObject(bs, st)
            case Fail => all.Fail?
            case Ok(v, rest, st') => ReadsOn(all, vs + [v], R.ReadAll(n - 1, rest, st'))
  {
    var r := R.ReadObject(bs, st);
    if r.Ok? {
      var next := R.ReadAll(n - 1, r.rest, r.st);
      assert next.Ok? ==> vs + ([r.value] + next.value) == vs + [r.value] + next.value;
    }
  }

  class CacheReader {
    /** What is left on the input port. */
    var input: seq<Byte>
    /** The `sharedObjects` table and the objects allocated so far. */
    var table: map<int, R.Value>
    var cells: seq<R.Cell>
    var linkNeeded: bool

    ghost function St(): R.State
      reads this`table, this`cells, this`linkNeeded
    {
      R.State(table, cells, linkNeeded)
    }

    constructor (bs: seq<Byte>)
      ensures input == bs && St() == R.State(map[], [], false)
    {
      input, table, cells, linkNeeded := bs, map[], [], false;
    }

    /** The method has done what `r` says: failed, or produced its value, rest and state. */
    ghost predicate Did(r: R.Read<R.Value>, ok: bool, v: R.Value)
      reads this
    {
      if ok then r == R.Ok(v, input, St()) else r.Fail?
    }

    method Allocate(c: R.Cell) returns (v: R.Value)
      modifies this`cells
      ensures (v, St()) == R.Allocate(old(St()), c)
    {
      v := R.New(|cells|);
      cells := cells + [c];
    }

    /** `read_object_rec` */
    method ReadObject() returns (ok: bool, v: R.Value)
      modifies this
      ensures Did(R.ReadObject(old(input), old(St())), ok, v)
      decreases |input|, 0
    {
      v := R.SharedRef(-1);
      if |input| == 0 {
        return false, v;
      }
      var tag := input[0];
      if tag == IMMEDIATE_TAG {
        if |input| < 1 + WORD_SIZE {
          return false, v;
        }
        var w := ReadWordLoop(input[1..], WORD_SIZE);
        assert input[1..][..WORD_SIZE] == input[1..1 + WORD_SIZE];
        input := input[1 + WORD_SIZE..];
        return true, R.Lit(R.LImm(w));
      }
      if |input| < 1 + EMIT_SIZE {
        return false, v;
      }
      var w := ReadWordLoop(input[1..], EMIT_SIZE);
      assert input[1..][..EMIT_SIZE] == input[1..1 + EMIT_SIZE];
      input := input[1 + EMIT_SIZE..];
      ok, v := ReadTagged(tag, AsInt(w));
    }

    method ReadTagged(tag: Byte, w: int) returns (ok: bool, v: R.Value)
      modifies this
      ensures Did(R.ReadTagged(tag, w, old(input), old(St())), ok, v)
      decreases |input|, 2
    {
      ok, v := false, R.SharedRef(w);
      if tag == LOOKUP_TAG {
        if w in table {
          v := table[w];
        } else {
          linkNeeded := true;
        }
        ok := true;
      } else if tag == DEFINING_SHARED_TAG {
        ok, v := ReadObject();
        if ok {
          table := table[w := v];
        }
      } else if tag == STRING_TAG || tag == INTERNED_SYMBOL_TAG || tag == UNINTERNED_SYMBOL_TAG {
        if 0 <= w && EMIT_SIZE * w <= |input| {
          var text := R.ReadCharacters(input[..EMIT_SIZE * w], w);
          input := input[EMIT_SIZE * w..];
          ok := true;
          if tag == STRING_TAG {
            v := R.Lit(R.LStr(text));
          } else if tag == INTERNED_SYMBOL_TAG {
            v := R.Lit(R.LSym(text));
          } else {
            v := Allocate(R.CSym(text));
          }
        }
      } else if tag == VECTOR_TAG {
        ok, v := ReadVector(w);
      } else if tag == PLIST_TAG {
        if w > 0 {
          ok, v := ReadElements(w, R.Lit(R.LImm(NIL_WORD)));
        }
      } else if tag == DLIST_TAG {
        if w > 0 {
          var tail;
          ok, tail := ReadObject();
          if ok {
            ok, v := ReadElements(w, tail);
          }
        }
      }
    }

    /** `read_vector`; the byte in front of the elements is the literal flag. */
    method ReadVector(w: int) returns (ok: bool, v: R.Value)
      modifies this
      ensures Did(R.ReadTagged(VECTOR_TAG, w, old(input), old(St())), ok, v)
      decreases |input|, 1, 1
    {
      ok, v := false, R.SharedRef(w);
      if 0 <= w && |input| > 0 {
        input := input[1..];
        var vs;
        ok, vs := ReadAll(w);
        if ok {
          v := Allocate(R.CVec(vs));
        }
      }
    }

    /** The element loops of `read_vector`, `read_plist` and `read_dlist`. */
    method ReadAll(n: nat) returns (ok: bool, vs: seq<R.Value>)
      modifies this
      ensures var r := R.ReadAll(n, old(input), old(St())); if ok then r == R.Ok(vs, input, St()) else r.Fail?
      decreases |input|, 1, 0
    {
      ghost var all := R.ReadAll(n, input, St());
      vs := [];
      assert all.Ok? ==> vs + all.value == all.value;
      for i := 0 to n
        invariant |input| <= old(|input|) && ReadsOn(all, vs, R.ReadAll(n - i, input, St()))
      {
        ReadAllStep(n - i, input, St(), all, vs);
        var v;
        ok, v := ReadObject();
        if !ok {
          return;
        }
        vs := vs + [v];
      }
      ok := true;
      assert vs + [] == vs;
    }

    /** Reads the elements and the source information of a list, and conses the elements onto `tail`. */
    method ReadElements(n: nat, tail: R.Value) returns (ok: bool, v: R.Value)
      modifies this
      ensures Did(R.ReadElements(n, tail, old(input), old(St())), ok, v)
      decreases |input|, 1, 1
    {
      var vs;
      v := tail;
      ok, vs := ReadAll(n);
      if ok {
        var info;
        ok, info := ReadObject();
        if ok {
          v := Build(vs, tail);
        }
      }
    }

    method Build(vs: seq<R.Value>, tail: R.Value) returns (v: R.Value)
      modifies this`cells
      ensures (v, St()) == R.BuildList(old(St()), vs, tail)
    {
      v := tail;
      for i := |vs| downto 0
        invariant (v, St()) == R.BuildList(old(St()), vs[i..], tail)
      {
        assert vs[i..][1..] == vs[i + 1..];
        v := Allocate(R.CPair(vs[i], v));
      }
    }
  }

  /** The bytes are what the writer makes of a completely scanned graph. */
  ghost predicate IsSaved(g: Graph, rank: W.Ranks, root: Obj, bs: seq<Byte>)
    requires Closed(g) && W.IsRanking(g, rank) && root in g.nodes
  {
    exists marks, owner {:trigger RT.ScannedFrom(g, marks, owner, root)} ::
      && RT.ScannedFrom(g, marks, owner, root) && MarksAreExact(g, marks, root)
      && bs == W.WriteObject(g, rank, W.State(marks, 0), root).1
  }

  /** The marks are exact, so that there is one way to write a graph. */
  lemma SavedIsUnique(g: Graph, rank: W.Ranks, root: Obj, bs: seq<Byte>, bs': seq<Byte>)
    requires Closed(g) && W.IsRanking(g, rank) && root in g.nodes
    requires IsSaved(g, rank, root, bs) && IsSaved(g, rank, root, bs')
    ensures bs == bs'
  {
    var m, w :| RT.ScannedFrom(g, m, w, root) && MarksAreExact(g, m, root)
        && bs == W.WriteObject(g, rank, W.State(m, 0), root).1;
    var m', w' :| RT.ScannedFrom(g, m', w', root) && MarksAreExact(g, m', root)
        && bs' == W.WriteObject(g, rank, W.State(m', 0), root).1;
    forall o | o in m || o in m' ensures o in g.nodes && Tracked(g, o) {
      assert o in m ==> IsScanMark(g, m, o);
      assert o in m' ==> IsScanMark(g, m', o);
    }
    ExactIsUnique(g, m, m', root);
  }

  /** Both passes of the writer over the graph below `root`. */
  method Save(g: Graph, ghost rank: W.Ranks, root: Obj) returns (bs: seq<Byte>)
    requires Closed(g) && W.IsRanking(g, rank) && root in g.nodes
    ensures IsSaved(g, rank, root, bs)
  {
    var w := new CacheWriter(g);
    ghost var visits := w.visits;
    w.Scan(g, root, root, Edge(root, -1), {}, []);
    ghost var marks, owner := w.marks, w.owner;
    forall p | p in marks && marks[p] == Shared ensures p in w.visits && w.visits[p] == 2 {
      assert w.Accounted(p);
    }
    ScanEnds(g, marks, owner, root, w.first, w.walked, visits, w.visits, w.seen, w.passed);
    ScanIsExact(g, marks, owner, root);
    w.WriteObject(g, rank, root);
    bs := w.out;
    assert RT.ScannedFrom(g, marks, owner, root);
  }

  /** Writing a graph and reading the bytes back, with anything behind them: the reader stops exactly
      where the writer did, needs no linking, and has rebuilt the graph with its sharing. */
  method SaveAndLoad(g: Graph, ghost rank: W.Ranks, root: Obj, behind: seq<Byte>)
    returns (ok: bool, v: R.Value, cells: seq<R.Cell>, left: seq<Byte>, link: bool, ghost phi: RT.Embedding)
    requires Closed(g) && W.IsRanking(g, rank) && root in g.nodes && RT.Fits(g)
    ensures ok && left == behind && !link
    ensures root in phi && v == phi[root] && RT.IsEmbedding(g, phi, cells)
  {
    var bs := Save(g, rank, root);
    ghost var marks, owner :| RT.ScannedFrom(g, marks, owner, root)
        && bs == W.WriteObject(g, rank, W.State(marks, 0), root).1;
    ghost var st;
    phi, st := RT.RoundTrip(g, rank, marks, owner, root, behind);
    var r := new CacheReader(bs + behind);
    ok, v := r.ReadObject();
    cells, left, link := r.cells, r.input, r.linkNeeded;
  }

  /** A pair of two different strings with the same text, and a symbol that names their class. */
  function TwoStrings(text: seq<Char>, name: seq<Char>): Graph {
    var pair, first, second, class_ := Objects.Obj(0), Objects.Obj(1), Objects.Obj(2), Objects.Obj(3);
    Graph(map[pair := Pair(first, second), first := Str(text), second := Str(text), class_ := Sym(true, name)], class_,
        class_)
  }

  /** Two different strings with the same text come back as one: the car and the cdr of the pair that is read are
      the same literal. */
  method EqualStringsBecomeOne(text: seq<Char>, name: seq<Char>)
    returns (v: R.Value, cells: seq<R.Cell>, ghost phi: RT.Embedding)
    requires |text| < 0x8000_0000 && |name| < 0x8000_0000
    ensures v.New? && v.id < |cells| && cells[v.id] == R.CPair(R.Lit(R.LStr(text)), R.Lit(R.LStr(text)))
    ensures Objects.Obj(1) in phi && Objects.Obj(2) in phi && phi[Objects.Obj(1)] == phi[Objects.Obj(2)]
  {
    var g := TwoStrings(text, name);
    var pair, first, second := Objects.Obj(0), Objects.Obj(1), Objects.Obj(2);
    ghost var rank := map o | o in g.nodes :: if o == pair then 1 else 0;
    assert g.nodes.Keys == {pair, first, second, Objects.Obj(3)};
    var ok, left, link;
    ok, v, cells, left, link, phi := SaveAndLoad(g, rank, pair, []);
    assert RT.Mirrors(g, phi, cells, pair);
    RT.SharingIsExact(g, phi, cells, first, second);
    assert RT.Mirrors(g, phi, cells, first);
  }
}
