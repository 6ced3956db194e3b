/** Reading back what the cache writer emitted rebuilds the graph with the same sharing. */
module CacheRoundTrip {
  import opened CacheFormat
  import opened CacheGraph
  import W = CacheWrite
  import R = CacheRead

  /** The graph being written, a ranking of it, and the edge by which the scan reached each object. */
  datatype Context = Context(g: Graph, rank: W.Ranks, owner: Owners)

  /** Which value each object was read back as. */
  type Embedding = map<Obj, R.Value>

  /** Writer state, reader state after reading the same bytes, and what links the two. */
  datatype Joint = Joint(ws: W.State, rs: R.State, phi: Embedding, used: set<Edge>)

  // ----- what "the same graph" means -----

  /** Nodes that the reader identifies by their contents. */
  predicate ByContents(n: Node) {
    n.Imm? || n.Str? || (n.Sym? && n.interned)
  }

  function LiteralOf(n: Node): R.Literal
    requires ByContents(n)
  {
    match n
    case Imm(w) => R.LImm(w)
    case Str(text) => R.LStr(text)
    case Sym(_, text) => R.LSym(text)
  }

  /** The value `v` is the node `n` with every child replaced by its image. */
  ghost predicate IsImage(n: Node, v: R.Value, phi: Embedding, cells: seq<R.Cell>) {
    if ByContents(n) then v == R.Lit(LiteralOf(n))
    else
      && v.New? && v.id < |cells|
      && match n
         case Vec(es) =>
           && cells[v.id].CVec? && |cells[v.id].elements| == |es|
           && forall i :: 0 <= i < |es| ==> es[i] in phi && phi[es[i]] == cells[v.id].elements[i]
         case Pair(a, d) => a in phi && d in phi && cells[v.id] == R.CPair(phi[a], phi[d])
         case Sym(_, text) => cells[v.id] == R.CSym(text)
         case _ => false
  }

  ghost predicate Mirrors(g: Graph, phi: Embedding, cells: seq<R.Cell>, o: Obj)
    requires o in phi
  {
    o in g.nodes && IsImage(g.nodes[o], phi[o], phi, cells)
  }

  /** `phi` maps the graph onto the cells: children to children, and distinct objects that have an
      identity of their own to distinct cells. */
  ghost predicate IsEmbedding(g: Graph, phi: Embedding, cells: seq<R.Cell>) {
    && (forall o {:trigger Mirrors(g, phi, cells, o)} :: o in phi ==> Mirrors(g, phi, cells, o))
    && (forall x, y {:trigger KeptApart(phi, x, y)} :: x in phi && y in phi ==> KeptApart(phi, x, y))
  }

  ghost predicate KeptApart(phi: Embedding, x: Obj, y: Obj)
    requires x in phi && y in phi
  {
    phi[x] == phi[y] && phi[x].New? ==> x == y
  }

  // ----- the relation between writer and reader -----

  ghost predicate KidsScanned(c: Context, marks: Marks, p: Obj)
    requires p in c.g.nodes
  {
    forall i {:trigger Kids(c.g.nodes[p])[i]} :: 0 <= i < |Kids(c.g.nodes[p])| ==>
      && Kids(c.g.nodes[p])[i] in c.g.nodes
      && EdgeScanned(c.g, marks, c.owner, Edge(p, i), Kids(c.g.nodes[p])[i])
  }

  predicate HasUid(m: Mark) {
    m.Defined? || m.Tail?
  }

  predicate SameUid(m: Mark, n: Mark) {
    HasUid(m) && HasUid(n) && m.uid == n.uid
  }

  /** What the mark of `o` says about the reader.  Objects in `open` are being written. */
  ghost predicate MarkOk(c: Context, s: Joint, open: set<Obj>, o: Obj)
    requires o in s.ws.marks
  {
    && o in c.g.nodes && Tracked(c.g, o) && KidsScanned(c, s.ws.marks, o)
    && (o in open ==> o !in s.phi)
    && match s.ws.marks[o]
       case Once => o in s.phi || o in open ==> o in c.owner && c.owner[o] in s.used
       case Shared => o !in s.phi && o !in open
       case Defined(n) => n < s.ws.uid && (o !in open ==> o in s.phi && n in s.rs.table && s.rs.table[n] == s.phi[o])
       case Tail(n) => n < s.ws.uid && o in open
  }

  ghost predicate Sync(c: Context, s: Joint, open: set<Obj>) {
    && W.IsRanking(c.g, c.rank)
    && open <= s.ws.marks.Keys
    && s.ws.uid + |SharedSet(s.ws.marks)| <= |c.g.nodes|
    && IsEmbedding(c.g, s.phi, s.rs.cells)
    && (forall o {:trigger MarkOk(c, s, open, o)} :: o in s.ws.marks ==> MarkOk(c, s, open, o))
    && (forall x, y {:trigger SameUid(s.ws.marks[x], s.ws.marks[y])} ::
          x in s.ws.marks && y in s.ws.marks && SameUid(s.ws.marks[x], s.ws.marks[y]) ==> x == y)
    && (forall f {:trigger SourceKnown(s, open, f)} :: f in s.used ==> SourceKnown(s, open, f))
  }

  ghost predicate SourceKnown(s: Joint, open: set<Obj>, f: Edge) {
    f.from in s.phi || f.from in open || f.index < 0
  }

  /** Nothing that is being written can be met again from an object of rank `r`: it ranks higher, or
      it has only one reference and that was followed already. */
  ghost predicate Guarded(c: Context, s: Joint, open: set<Obj>, r: nat) {
    forall q {:trigger IsGuarded(c, s, q, r)} :: q in open ==> IsGuarded(c, s, q, r)
  }

  ghost predicate IsGuarded(c: Context, s: Joint, q: Obj, r: nat) {
    && q in c.rank && q in s.ws.marks
    && (c.rank[q] > r || (s.ws.marks[q] == Once && q in c.owner && c.owner[q] in s.used))
  }

  ghost predicate MarkKept(m: Marks, m': Marks, o: Obj) {
    o in m ==> o in m' && (m[o] != Shared ==> m'[o] == m[o]) && (m[o] == Shared ==> m'[o] != Once)
  }

  ghost predicate ValueKept(phi: Embedding, phi': Embedding, o: Obj) {
    o in phi ==> o in phi' && phi'[o] == phi[o]
  }

  ghost predicate EdgeKept(used: set<Edge>, used': set<Edge>, open: set<Obj>, via: set<Edge>, f: Edge) {
    && (f in used ==> f in used')
    && (f in used' && f !in used ==> f in via || f.from !in open)
  }

  /** How the joint state may change while the objects `via` and what they lead to are written. */
  ghost predicate Extends(s: Joint, s': Joint, open: set<Obj>, via: set<Edge>) {
    && s.ws.marks.Keys == s'.ws.marks.Keys
    && s.ws.uid <= s'.ws.uid
    && s.rs.cells <= s'.rs.cells
    && s.rs.linkNeeded == s'.rs.linkNeeded
    && (forall o {:trigger MarkKept(s.ws.marks, s'.ws.marks, o)} :: MarkKept(s.ws.marks, s'.ws.marks, o))
    && (forall o {:trigger ValueKept(s.phi, s'.phi, o)} :: ValueKept(s.phi, s'.phi, o))
    && (forall f {:trigger EdgeKept(s.used, s'.used, open, via, f)} :: EdgeKept(s.used, s'.used, open, via, f))
  }

  /** Sizes that fit the words they are written in. */
  ghost predicate Fits(g: Graph) {
    && |g.nodes| < 0x8000_0000
    && forall o {:trigger NodeFits(g.nodes[o])} :: o in g.nodes ==> NodeFits(g.nodes[o])
  }

  predicate NodeFits(n: Node) {
    match n
    case Imm(w) => w < 0x1_0000_0000_0000_0000
    case Str(text) => |text| < 0x8000_0000
    case Sym(_, text) => |text| < 0x8000_0000
    case Vec(es) => |es| < 0x8000_0000
    case Pair(_, _) => true
  }

  lemma ExtendsTransitive(s0: Joint, s1: Joint, s2: Joint, open: set<Obj>, via1: set<Edge>, via2: set<Edge>,
      via: set<Edge>)
    requires Extends(s0, s1, open, via1) && Extends(s1, s2, open, via2) && via1 <= via && via2 <= via
    ensures Extends(s0, s2, open, via)
  {
    forall o ensures MarkKept(s0.ws.marks, s2.ws.marks, o) {
      assert MarkKept(s0.ws.marks, s1.ws.marks, o) && MarkKept(s1.ws.marks, s2.ws.marks, o);
    }
    forall o ensures ValueKept(s0.phi, s2.phi, o) {
      assert ValueKept(s0.phi, s1.phi, o) && ValueKept(s1.phi, s2.phi, o);
    }
    forall f ensures EdgeKept(s0.used, s2.used, open, via, f) {
      assert EdgeKept(s0.used, s1.used, open, via1, f) && EdgeKept(s1.used, s2.used, open, via2, f);
    }
  }

  lemma ExtendsMore(s: Joint, s': Joint, open: set<Obj>, via: set<Edge>, open': set<Obj>, via': set<Edge>)
    requires Extends(s, s', open, via) && open' <= open
    requires forall e :: e in via ==> e in via' || e.from !in open'
    ensures Extends(s, s', open', via')
  {
    forall f ensures EdgeKept(s.used, s'.used, open', via', f) {
      assert EdgeKept(s.used, s'.used, open, via, f);
    }
  }

  lemma ScannedStays(c: Context, s: Joint, s': Joint, open: set<Obj>, via: set<Edge>, e: Edge, o: Obj)
    requires o in c.g.nodes && Extends(s, s', open, via)
    requires EdgeScanned(c.g, s.ws.marks, c.owner, e, o)
    ensures EdgeScanned(c.g, s'.ws.marks, c.owner, e, o)
  {
    assert MarkKept(s.ws.marks, s'.ws.marks, o);
  }

  lemma GuardedStays(c: Context, s: Joint, s': Joint, open: set<Obj>, via: set<Edge>, r: nat)
    requires Guarded(c, s, open, r) && Extends(s, s', open, via)
    ensures Guarded(c, s', open, r)
  {
    forall q | q in open ensures IsGuarded(c, s', q, r) {
      assert IsGuarded(c, s, q, r) && MarkKept(s.ws.marks, s'.ws.marks, q);
      if q in c.owner {
        assert EdgeKept(s.used, s'.used, open, via, c.owner[q]);
      }
    }
  }

  // ----- records -----

  lemma WordRoundTrip(tag: Byte, w: nat, rest: seq<Byte>)
    requires w < 0x8000_0000
    ensures var bs := W.Word(tag, w) + rest;
      && |bs| >= 1 + EMIT_SIZE && bs[0] == tag && bs[1 + EMIT_SIZE..] == rest
      && AsInt(FromLittleEndian(bs[1..1 + EMIT_SIZE])) == w
  {
    var bs := W.Word(tag, w) + rest;
    assert bs[1..1 + EMIT_SIZE] == LittleEndian(w, EMIT_SIZE);
    LittleEndianRoundTrip(w, EMIT_SIZE);
    assert Radix(4) == 0x1_0000_0000;
  }

  /** A tagged record is read by its tag and word, with the bytes after it left over. */
  lemma TaggedRoundTrip(tag: Byte, w: nat, rest: seq<Byte>, st: R.State)
    requires w < 0x8000_0000 && tag != IMMEDIATE_TAG
    ensures R.ReadObject(W.Word(tag, w) + rest, st) == R.ReadTagged(tag, w, rest, st)
  {
    WordRoundTrip(tag, w, rest);
  }

  lemma ImmediateRoundTrip(w: nat, rest: seq<Byte>, st: R.State)
    requires w < 0x1_0000_0000_0000_0000
    ensures R.ReadObject(W.Immediate(w) + rest, st) == R.Ok(R.Lit(R.LImm(w)), rest, st)
  {
    var bs := W.Immediate(w) + rest;
    assert bs[1..1 + WORD_SIZE] == LittleEndian(w, WORD_SIZE);
    LittleEndianRoundTrip(w, WORD_SIZE);
    assert Radix(8) == 256 * 256 * 256 * 256 * Radix(4);
    assert Radix(4) == 0x1_0000_0000;
    assert bs[1 + WORD_SIZE..] == rest;
  }

  lemma {:induction false} CharactersRoundTrip(text: seq<Char>)
    ensures R.ReadCharacters(W.Characters(text), |text|) == text
  {
    if text != [] {
      var bs := W.Characters(text);
      CharactersRoundTrip(text[1..]);
      assert bs[..EMIT_SIZE] == LittleEndian(text[0], EMIT_SIZE);
      assert bs[EMIT_SIZE..] == W.Characters(text[1..]);
      LittleEndianRoundTrip(text[0], EMIT_SIZE);
      assert Radix(4) == 0x1_0000_0000;
    }
  }

  lemma TextRoundTrip(tag: Byte, text: seq<Char>, rest: seq<Byte>, st: R.State)
    requires |text| < 0x8000_0000
    requires tag == STRING_TAG || tag == INTERNED_SYMBOL_TAG || tag == UNINTERNED_SYMBOL_TAG
    ensures R.ReadObject(W.Word(tag, |text|) + W.Characters(text) + rest, st) ==
      if tag == STRING_TAG then R.Ok(R.Lit(R.LStr(text)), rest, st)
      else if tag == INTERNED_SYMBOL_TAG then R.Ok(R.Lit(R.LSym(text)), rest, st)
      else R.Ok(R.New(|st.cells|), rest, st.(cells := st.cells + [R.CSym(text)]))
  {
    var n := EMIT_SIZE * |text|;
    var cs := W.Characters(text) + rest;
    assert W.Word(tag, |text|) + W.Characters(text) + rest == W.Word(tag, |text|) + cs;
    TaggedRoundTrip(tag, |text|, cs, st);
    assert cs[..n] == W.Characters(text) && cs[n..] == rest;
    CharactersRoundTrip(text);
  }

  // ----- opening and closing objects -----

  lemma ImageStays(n: Node, v: R.Value, phi: Embedding, cells: seq<R.Cell>, phi': Embedding, cells': seq<R.Cell>)
    requires IsImage(n, v, phi, cells) && cells <= cells'
    requires forall o :: o in phi ==> o in phi' && phi'[o] == phi[o]
    ensures IsImage(n, v, phi', cells')
  {
  }

  lemma EmbeddingGrows(g: Graph, phi: Embedding, cells: seq<R.Cell>, o: Obj, v: R.Value)
    requires IsEmbedding(g, phi, cells) && o in g.nodes
    requires o in phi ==> phi[o] == v
    requires IsImage(g.nodes[o], v, phi, cells)
    requires v.New? ==> forall x :: x in phi && phi[x] == v ==> x == o
    ensures IsEmbedding(g, phi[o := v], cells)
  {
    var phi' := phi[o := v];
    forall x | x in phi' ensures Mirrors(g, phi', cells, x) {
      if x != o {
        assert Mirrors(g, phi, cells, x);
        ImageStays(g.nodes[x], phi[x], phi, cells, phi', cells);
      } else {
        ImageStays(g.nodes[o], v, phi, cells, phi', cells);
      }
    }
    forall x, y | x in phi' && y in phi' ensures KeptApart(phi', x, y) {
      if x in phi && y in phi {
        assert KeptApart(phi, x, y);
      }
    }
  }

  lemma KidsScannedStays(c: Context, m: Marks, m': Marks, p: Obj)
    requires p in c.g.nodes && KidsScanned(c, m, p)
    requires m.Keys <= m'.Keys && forall o :: o in m && m'[o] == Once ==> m[o] == Once
    ensures KidsScanned(c, m', p)
  {
  }

  /** An immediate may be written any number of times. */
  lemma CloseImmediate(c: Context, s: Joint, open: set<Obj>, o: Obj)
    requires Sync(c, s, open) && o in c.g.nodes && c.g.nodes[o].Imm?
    ensures var s' := s.(phi := s.phi[o := R.Lit(LiteralOf(c.g.nodes[o]))]);
      Sync(c, s', open) && Extends(s, s', open, {}) && o !in s.ws.marks
  {
    var v := R.Lit(LiteralOf(c.g.nodes[o]));
    var s' := s.(phi := s.phi[o := v]);
    assert o in s.phi ==> Mirrors(c.g, s.phi, s.rs.cells, o);
    EmbeddingGrows(c.g, s.phi, s.rs.cells, o, v);
    forall x | x in s.ws.marks ensures x != o && MarkOk(c, s', open, x) {
      assert MarkOk(c, s, open, x);
    }
    forall f | f in s.used ensures SourceKnown(s', open, f) {
      assert SourceKnown(s, open, f);
    }
  }

  /** Starting to write a shared object assigns it the next uid. */
  lemma OpenShared(c: Context, s: Joint, open: set<Obj>, o: Obj, m: Mark)
    requires Sync(c, s, open) && o in s.ws.marks && s.ws.marks[o] == Shared
    requires m == Defined(s.ws.uid) || m == Tail(s.ws.uid)
    ensures Sync(c, s.(ws := W.State(s.ws.marks[o := m], s.ws.uid + 1)), open + {o})
    ensures o !in s.phi && o !in open && s.ws.uid < |c.g.nodes|
  {
    var s' := s.(ws := W.State(s.ws.marks[o := m], s.ws.uid + 1));
    assert MarkOk(c, s, open, o);
    assert SharedSet(s.ws.marks) == SharedSet(s'.ws.marks) + {o};
    forall x | x in s'.ws.marks ensures MarkOk(c, s', open + {o}, x) {
      assert MarkOk(c, s, open, x);
      KidsScannedStays(c, s.ws.marks, s'.ws.marks, x);
    }
    forall x, y | x in s'.ws.marks && y in s'.ws.marks && SameUid(s'.ws.marks[x], s'.ws.marks[y]) ensures x == y {
      assert MarkOk(c, s, open, x) && MarkOk(c, s, open, y);
      assert x != o && y != o ==> SameUid(s.ws.marks[x], s.ws.marks[y]);
    }
    forall f | f in s.used ensures SourceKnown(s', open + {o}, f) {
      assert SourceKnown(s, open, f);
    }
  }

  /** Starting to write an object with a single reference uses that reference up. */
  lemma OpenOnce(c: Context, s: Joint, open: set<Obj>, o: Obj, e: Edge)
    requires Sync(c, s, open) && o in s.ws.marks && s.ws.marks[o] == Once
    requires o in c.owner && c.owner[o] == e && e !in s.used && (e.from in open || e.index < 0)
    ensures Sync(c, s.(used := s.used + {e}), open + {o})
    ensures o !in s.phi && o !in open
  {
    var s' := s.(used := s.used + {e});
    assert MarkOk(c, s, open, o);
    forall x | x in s'.ws.marks ensures MarkOk(c, s', open + {o}, x) {
      assert MarkOk(c, s, open, x);
    }
    forall f | f in s'.used ensures SourceKnown(s', open + {o}, f) {
      assert f != e ==> SourceKnown(s, open, f);
    }
  }

  /** No edge of an object that was not started yet has been followed. */
  lemma UnstartedIsUnused(c: Context, s: Joint, open: set<Obj>, o: Obj, f: Edge)
    requires Sync(c, s, open) && o !in s.phi && o !in open && f in s.used && f.from == o
    ensures f.index < 0
  {
    assert SourceKnown(s, open, f);
  }

  /** The joint state once `o` has been read back as `v`. */
  ghost function Closed(s: Joint, o: Obj, v: R.Value): Joint
    requires o in s.ws.marks
  {
    if HasUid(s.ws.marks[o]) then
      var n := s.ws.marks[o].uid;
      Joint(W.State(s.ws.marks[o := Defined(n)], s.ws.uid), s.rs.(table := s.rs.table[n := v]), s.phi[o := v], s.used)
    else s.(phi := s.phi[o := v])
  }

  ghost predicate IsFresh(s: Joint, v: R.Value) {
    v.New? ==> forall x :: x in s.phi ==> s.phi[x] != v
  }

  lemma CloseMark(c: Context, s: Joint, open: set<Obj>, o: Obj, v: R.Value, x: Obj)
    requires Sync(c, s, open) && o in open && o in s.ws.marks && x in s.ws.marks
    ensures MarkOk(c, Closed(s, o, v), open - {o}, x)
  {
    assert MarkOk(c, s, open, o) && MarkOk(c, s, open, x);
    KidsScannedStays(c, s.ws.marks, Closed(s, o, v).ws.marks, x);
    if HasUid(s.ws.marks[o]) && HasUid(s.ws.marks[x]) && x != o {
      assert !SameUid(s.ws.marks[o], s.ws.marks[x]);
    }
  }

  lemma CloseObject(c: Context, s: Joint, open: set<Obj>, o: Obj, v: R.Value)
    requires Sync(c, s, open) && o in open && o in s.ws.marks && o in c.g.nodes
    requires IsImage(c.g.nodes[o], v, s.phi, s.rs.cells) && IsFresh(s, v)
    ensures Sync(c, Closed(s, o, v), open - {o})
  {
    var s' := Closed(s, o, v);
    assert MarkOk(c, s, open, o);
    EmbeddingGrows(c.g, s.phi, s.rs.cells, o, v);
    assert SharedSet(s'.ws.marks) == SharedSet(s.ws.marks);
    forall x | x in s'.ws.marks ensures MarkOk(c, s', open - {o}, x) {
      CloseMark(c, s, open, o, v, x);
    }
    forall x, y | x in s'.ws.marks && y in s'.ws.marks && SameUid(s'.ws.marks[x], s'.ws.marks[y]) ensures x == y {
      assert SameUid(s.ws.marks[x], s.ws.marks[y]);
    }
    forall f | f in s'.used ensures SourceKnown(s', open - {o}, f) {
      assert SourceKnown(s, open, f);
    }
  }

  lemma Allocated(c: Context, s: Joint, open: set<Obj>, cell: R.Cell)
    requires Sync(c, s, open)
    ensures var s' := s.(rs := s.rs.(cells := s.rs.cells + [cell]));
      Sync(c, s', open) && IsFresh(s', R.New(|s.rs.cells|))
  {
    var s' := s.(rs := s.rs.(cells := s.rs.cells + [cell]));
    forall x | x in s.phi ensures Mirrors(c.g, s.phi, s'.rs.cells, x) && s.phi[x] != R.New(|s.rs.cells|) {
      assert Mirrors(c.g, s.phi, s.rs.cells, x);
      ImageStays(c.g.nodes[x], s.phi[x], s.phi, s.rs.cells, s.phi, s'.rs.cells);
    }
    forall x | x in s'.ws.marks ensures MarkOk(c, s', open, x) {
      assert MarkOk(c, s, open, x);
    }
    forall f | f in s'.used ensures SourceKnown(s', open, f) {
      assert SourceKnown(s, open, f);
    }
  }

  /** Writing an object with a single reference, seen from outside. */
  lemma OnceExtends(s: Joint, s2: Joint, open: set<Obj>, o: Obj, e: Edge, v: R.Value)
    requires o in s.ws.marks && s.ws.marks[o] == Once && o !in s.phi
    requires Extends(s.(used := s.used + {e}), s2, open, {})
    ensures o in s2.ws.marks && s2.ws.marks[o] == Once
    ensures Extends(s, Closed(s2, o, v), open, {e})
  {
    var s1 := s.(used := s.used + {e});
    assert MarkKept(s1.ws.marks, s2.ws.marks, o);
    var s' := Closed(s2, o, v);
    forall x ensures MarkKept(s.ws.marks, s'.ws.marks, x) {
      assert MarkKept(s1.ws.marks, s2.ws.marks, x);
    }
    forall x ensures ValueKept(s.phi, s'.phi, x) {
      assert ValueKept(s1.phi, s2.phi, x);
    }
    forall f ensures EdgeKept(s.used, s'.used, open, {e}, f) {
      assert EdgeKept(s1.used, s2.used, open, {}, f);
    }
  }

  /** Defining a shared object, seen from outside. */
  lemma SharedExtends(s: Joint, s2: Joint, open: set<Obj>, o: Obj, m: Mark, v: R.Value)
    requires o in s.ws.marks && s.ws.marks[o] == Shared && o !in s.phi && HasUid(m)
    requires Extends(s.(ws := W.State(s.ws.marks[o := m], s.ws.uid + 1)), s2, open, {})
    ensures o in s2.ws.marks && s2.ws.marks[o] == m
    ensures Extends(s, Closed(s2, o, v), open, {})
  {
    var s1 := s.(ws := W.State(s.ws.marks[o := m], s.ws.uid + 1));
    assert MarkKept(s1.ws.marks, s2.ws.marks, o);
    var s' := Closed(s2, o, v);
    forall x ensures MarkKept(s.ws.marks, s'.ws.marks, x) {
      assert MarkKept(s1.ws.marks, s2.ws.marks, x);
    }
    forall x ensures ValueKept(s.phi, s'.phi, x) {
      assert ValueKept(s1.phi, s2.phi, x);
    }
    forall f ensures EdgeKept(s.used, s'.used, open, {}, f) {
      assert EdgeKept(s1.used, s2.used, open, {}, f);
    }
  }

  lemma GuardedByOthers(c: Context, s: Joint, s1: Joint, open: set<Obj>, o: Obj, r: nat)
    requires Guarded(c, s, open, r) && o !in open && s.used <= s1.used
    requires forall q :: q in s.ws.marks && q != o ==> q in s1.ws.marks && s1.ws.marks[q] == s.ws.marks[q]
    requires o in s1.ws.marks
    ensures Guarded(c, s1, open + {o} - {o}, r)
  {
    forall q | q in open + {o} - {o} ensures IsGuarded(c, s1, q, r) {
      assert IsGuarded(c, s, q, r);
    }
  }

  // ----- the round trip -----

  ghost predicate ReadsBack(s: Joint, bs: seq<Byte>, rest: seq<Byte>, v: R.Value, s': Joint) {
    R.ReadObject(bs + rest, s.rs) == R.Ok(v, rest, s'.rs)
  }

  lemma {:induction false} ObjectRoundTrip(c: Context, s: Joint, open: set<Obj>, o: Obj, e: Edge, rest: seq<Byte>)
    returns (s': Joint)
    requires Fits(c.g) && Sync(c, s, open) && o in c.g.nodes
    requires EdgeScanned(c.g, s.ws.marks, c.owner, e, o) && e !in s.used && (e.from in open || e.index < 0)
    requires Guarded(c, s, open, c.rank[o])
    ensures Sync(c, s', open) && Extends(s, s', open, {e})
    ensures o in s'.phi
    ensures var (ws, bs) := W.WriteObject(c.g, c.rank, s.ws, o);
      s'.ws == ws && ReadsBack(s, bs, rest, s'.phi[o], s')
    decreases c.rank[o], 3, 0
  {
    assert NodeFits(c.g.nodes[o]);
    if c.g.nodes[o].Imm? {
      ImmediateRoundTrip(c.g.nodes[o].word, rest, s.rs);
      CloseImmediate(c, s, open, o);
      s' := s.(phi := s.phi[o := R.Lit(LiteralOf(c.g.nodes[o]))]);
      ExtendsMore(s, s', open, {}, open, {e});
      return;
    }
    assert MarkOk(c, s, open, o) && (o in open ==> IsGuarded(c, s, o, c.rank[o]));
    match s.ws.marks[o]
    case Defined(n) =>
      TaggedRoundTrip(LOOKUP_TAG, n, rest, s.rs);
      s' := s;
    case Shared =>
      s' := SharedRoundTrip(c, s, open, o, Defined(s.ws.uid), rest);
      ExtendsMore(s, s', open, {}, open, {e});
    case Once =>
      s' := OnceRoundTrip(c, s, open, o, e, rest);
  }

  lemma {:induction false} OnceRoundTrip(c: Context, s: Joint, open: set<Obj>, o: Obj, e: Edge, rest: seq<Byte>)
    returns (s': Joint)
    requires Fits(c.g) && Sync(c, s, open) && o in c.g.nodes && o in s.ws.marks && s.ws.marks[o] == Once
    requires o in c.owner && c.owner[o] == e && e !in s.used && (e.from in open || e.index < 0)
    requires Guarded(c, s, open, c.rank[o])
    ensures Sync(c, s', open) && Extends(s, s', open, {e})
    ensures o in s'.phi
    ensures var (ws, bs) := W.WriteBody(c.g, c.rank, s.ws, o);
      s'.ws == ws && ReadsBack(s, bs, rest, s'.phi[o], s')
    decreases c.rank[o], 2, 1
  {
    OpenOnce(c, s, open, o, e);
    var s1 := s.(used := s.used + {e});
    GuardedByOthers(c, s, s1, open, o, c.rank[o]);
    forall f | f in s1.used && f.from == o ensures f.index < 0 {
      if f != e { UnstartedIsUnused(c, s, open, o, f); }
    }
    var s2, v := BodyRoundTrip(c, s1, open + {o}, o, rest);
    assert open + {o} - {o} == open;
    OnceExtends(s, s2, open, o, e, v);
    CloseObject(c, s2, open + {o}, o, v);
    s' := Closed(s2, o, v);
  }

  /** A shared object is defined where it is first written. */
  lemma {:induction false} SharedRoundTrip(c: Context, s: Joint, open: set<Obj>, o: Obj, m: Mark, rest: seq<Byte>)
    returns (s': Joint)
    requires Fits(c.g) && Sync(c, s, open) && o in c.g.nodes && o in s.ws.marks && s.ws.marks[o] == Shared
    requires m == Defined(s.ws.uid) || m == Tail(s.ws.uid)
    requires Guarded(c, s, open, c.rank[o])
    ensures Sync(c, s', open) && Extends(s, s', open, {})
    ensures o in s'.phi
    ensures var (ws, bs) := W.WriteBody(c.g, c.rank, W.State(s.ws.marks[o := m], s.ws.uid + 1), o);
      && o in ws.marks && ws.marks[o] == m
      && s'.ws == W.State(ws.marks[o := Defined(s.ws.uid)], ws.uid)
      && ReadsBack(s, W.Word(DEFINING_SHARED_TAG, s.ws.uid) + bs, rest, s'.phi[o], s')
    decreases c.rank[o], 2, 1
  {
    OpenShared(c, s, open, o, m);
    var s1 := s.(ws := W.State(s.ws.marks[o := m], s.ws.uid + 1));
    GuardedByOthers(c, s, s1, open, o, c.rank[o]);
    forall f | f in s1.used && f.from == o ensures f.index < 0 {
      UnstartedIsUnused(c, s, open, o, f);
    }
    var s2, v := BodyRoundTrip(c, s1, open + {o}, o, rest);
    assert open + {o} - {o} == open;
    SharedExtends(s, s2, open, o, m, v);
    CloseObject(c, s2, open + {o}, o, v);
    s' := Closed(s2, o, v);
    var bs := W.WriteBody(c.g, c.rank, s1.ws, o).1;
    assert W.Word(DEFINING_SHARED_TAG, s.ws.uid) + bs + rest == W.Word(DEFINING_SHARED_TAG, s.ws.uid) + (bs + rest);
    TaggedRoundTrip(DEFINING_SHARED_TAG, s.ws.uid, bs + rest, s.rs);
  }

  lemma {:induction false} BodyRoundTrip(c: Context, s: Joint, open: set<Obj>, o: Obj, rest: seq<Byte>)
    returns (s': Joint, v: R.Value)
    requires Fits(c.g) && Sync(c, s, open) && o in open && o in c.g.nodes
    requires forall f :: f in s.used && f.from == o ==> f.index < 0
    requires Guarded(c, s, open - {o}, c.rank[o])
    ensures Sync(c, s', open) && Extends(s, s', open - {o}, {})
    ensures IsImage(c.g.nodes[o], v, s'.phi, s'.rs.cells) && IsFresh(s', v)
    ensures var (ws, bs) := W.WriteBody(c.g, c.rank, s.ws, o);
      s'.ws == ws && ReadsBack(s, bs, rest, v, s')
    decreases c.rank[o], 2, 0
  {
    assert MarkOk(c, s, open, o) && NodeFits(c.g.nodes[o]);
    match c.g.nodes[o]
    case Str(text) =>
      TextRoundTrip(STRING_TAG, text, rest, s.rs);
      s', v := s, R.Lit(R.LStr(text));
    case Sym(interned, text) =>
      TextRoundTrip(if interned then INTERNED_SYMBOL_TAG else UNINTERNED_SYMBOL_TAG, text, rest, s.rs);
      if interned {
        s', v := s, R.Lit(R.LSym(text));
      } else {
        Allocated(c, s, open, R.CSym(text));
        s', v := s.(rs := s.rs.(cells := s.rs.cells + [R.CSym(text)])), R.New(|s.rs.cells|);
      }
    case Vec(es) =>
      s', v := VectorRoundTrip(c, s, open, o, rest);
    case Pair(_, _) =>
      s', v := ListRoundTrip(c, s, open, o, rest);
  }

  ghost predicate Writable(c: Context, s: Joint, open: set<Obj>, e: Edge, o: Obj)
    requires W.IsRanking(c.g, c.rank)
  {
    && o in c.g.nodes
    && EdgeScanned(c.g, s.ws.marks, c.owner, e, o)
    && e !in s.used && e.from in open
    && Guarded(c, s, open, c.rank[o])
  }

  lemma WritableStays(c: Context, s: Joint, s': Joint, open: set<Obj>, via: set<Edge>, e: Edge, o: Obj)
    requires W.IsRanking(c.g, c.rank) && Writable(c, s, open, e, o) && Extends(s, s', open, via) && e !in via
    ensures Writable(c, s', open, e, o)
  {
    ScannedStays(c, s, s', open, via, e, o);
    GuardedStays(c, s, s', open, via, c.rank[o]);
    assert EdgeKept(s.used, s'.used, open, via, e);
  }

  ghost predicate AllWritable(c: Context, s: Joint, open: set<Obj>, es: seq<Edge>, os: seq<Obj>)
    requires W.IsRanking(c.g, c.rank)
  {
    && |os| == |es|
    && (forall i {:trigger Writable(c, s, open, es[i], os[i])} :: 0 <= i < |os| ==> Writable(c, s, open, es[i], os[i]))
    && (forall i, j :: 0 <= i < j < |es| ==> es[i] != es[j])
  }

  lemma AllWritableStays(c: Context, s: Joint, s': Joint, open: set<Obj>, via: set<Edge>, es: seq<Edge>, os: seq<Obj>)
    requires W.IsRanking(c.g, c.rank) && AllWritable(c, s, open, es, os) && Extends(s, s', open, via)
    requires forall i :: 0 <= i < |es| ==> es[i] !in via
    ensures AllWritable(c, s', open, es, os)
  {
    forall i | 0 <= i < |os| ensures Writable(c, s', open, es[i], os[i]) {
      assert Writable(c, s, open, es[i], os[i]);
      WritableStays(c, s, s', open, via, es[i], os[i]);
    }
  }

  lemma AllWritableTail(c: Context, s: Joint, open: set<Obj>, es: seq<Edge>, os: seq<Obj>)
    requires W.IsRanking(c.g, c.rank) && AllWritable(c, s, open, es, os) && |os| > 0
    ensures Writable(c, s, open, es[0], os[0]) && AllWritable(c, s, open, es[1..], os[1..])
  {
  }

  ghost predicate Placed(phi: Embedding, os: seq<Obj>) {
    forall i :: 0 <= i < |os| ==> os[i] in phi
  }

  ghost function Images(phi: Embedding, os: seq<Obj>): (vs: seq<R.Value>)
    requires Placed(phi, os)
    ensures |vs| == |os| && forall i :: 0 <= i < |os| ==> vs[i] == phi[os[i]]
  {
    seq(|os|, i requires 0 <= i < |os| => phi[os[i]])
  }

  lemma ImagesCons(s: Joint, s': Joint, open: set<Obj>, via: set<Edge>, os: seq<Obj>)
    requires |os| > 0 && os[0] in s.phi && Extends(s, s', open, via) && Placed(s'.phi, os[1..])
    ensures Placed(s'.phi, os) && Images(s'.phi, os) == [s.phi[os[0]]] + Images(s'.phi, os[1..])
  {
    assert ValueKept(s.phi, s'.phi, os[0]);
  }

  ghost predicate AllReadBack(s: Joint, n: nat, bs: seq<Byte>, rest: seq<Byte>, vs: seq<R.Value>, s': Joint) {
    R.ReadAll(n, bs + rest, s.rs) == R.Ok(vs, rest, s'.rs)
  }

  lemma AllReadBackCons(s: Joint, s1: Joint, s': Joint, n: nat, b1: seq<Byte>, b2: seq<Byte>, rest: seq<Byte>,
      v: R.Value, vs: seq<R.Value>)
    requires ReadsBack(s, b1, b2 + rest, v, s1) && AllReadBack(s1, n, b2, rest, vs, s')
    ensures AllReadBack(s, n + 1, b1 + b2, rest, [v] + vs, s')
  {
    assert b1 + b2 + rest == b1 + (b2 + rest);
  }

  ghost function EdgeSet(es: seq<Edge>): set<Edge> {
    set e | e in es
  }

  lemma EdgeSetCons(es: seq<Edge>)
    requires |es| > 0
    ensures EdgeSet(es) == {es[0]} + EdgeSet(es[1..])
  {
  }

  lemma {:induction false} AllRoundTrip(c: Context, s: Joint, open: set<Obj>, os: seq<Obj>, es: seq<Edge>, bound: nat,
      rest: seq<Byte>)
    returns (s': Joint)
    requires Fits(c.g) && Sync(c, s, open) && AllWritable(c, s, open, es, os)
    requires W.Below(c.g, c.rank, os, bound)
    ensures Sync(c, s', open) && Extends(s, s', open, EdgeSet(es))
    ensures Placed(s'.phi, os)
    ensures var (ws, bs) := W.WriteAll(c.g, c.rank, s.ws, os, bound);
      s'.ws == ws && AllReadBack(s, |os|, bs, rest, Images(s'.phi, os), s')
    decreases bound, 0, |os|
  {
    if os == [] {
      s' := s;
      assert W.WriteAll(c.g, c.rank, s.ws, os, bound).1 + rest == rest;
      return;
    }
    var (w1, b1) := W.WriteObject(c.g, c.rank, s.ws, os[0]);
    var (w2, b2) := W.WriteAll(c.g, c.rank, w1, os[1..], bound);
    AllWritableTail(c, s, open, es, os);
    var s1 := ObjectRoundTrip(c, s, open, os[0], es[0], b2 + rest);
    AllWritableStays(c, s, s1, open, {es[0]}, es[1..], os[1..]);
    s' := AllRoundTrip(c, s1, open, os[1..], es[1..], bound, rest);
    EdgeSetCons(es);
    ExtendsTransitive(s, s1, s', open, {es[0]}, EdgeSet(es[1..]), EdgeSet(es));
    ImagesCons(s1, s', open, EdgeSet(es[1..]), os);
    AllReadBackCons(s, s1, s', |os| - 1, b1, b2, rest, s1.phi[os[0]], Images(s'.phi, os[1..]));
  }

  lemma VectorRecord(s: Joint, s1: Joint, n: nat, bs: seq<Byte>, rest: seq<Byte>, vs: seq<R.Value>)
    requires n < 0x8000_0000 && AllReadBack(s, n, bs, rest, vs, s1)
    ensures var s' := s1.(rs := s1.rs.(cells := s1.rs.cells + [R.CVec(vs)]));
      ReadsBack(s, W.Word(VECTOR_TAG, n) + [0] + bs, rest, R.New(|s1.rs.cells|), s')
  {
    var zero: seq<Byte> := [0];
    assert W.Word(VECTOR_TAG, n) + [0] + bs + rest == W.Word(VECTOR_TAG, n) + (zero + (bs + rest));
    TaggedRoundTrip(VECTOR_TAG, n, zero + (bs + rest), s.rs);
    assert (zero + (bs + rest))[1..] == bs + rest;
  }

  lemma VectorWritable(c: Context, s: Joint, open: set<Obj>, o: Obj, es: seq<Edge>)
    requires Sync(c, s, open) && o in open && o in c.g.nodes && c.g.nodes[o].Vec?
    requires forall f :: f in s.used && f.from == o ==> f.index < 0
    requires Guarded(c, s, open - {o}, c.rank[o])
    requires es == seq(|c.g.nodes[o].elements|, i => Edge(o, i))
    ensures AllWritable(c, s, open, es, c.g.nodes[o].elements)
    ensures W.Below(c.g, c.rank, c.g.nodes[o].elements, c.rank[o])
  {
    assert MarkOk(c, s, open, o);
    var os := c.g.nodes[o].elements;
    assert Kids(c.g.nodes[o]) == os;
    forall i | 0 <= i < |os| ensures Writable(c, s, open, es[i], os[i]) {
      assert Kids(c.g.nodes[o])[i] == os[i];
      forall q | q in open ensures IsGuarded(c, s, q, c.rank[os[i]]) {
        if q != o { assert IsGuarded(c, s, q, c.rank[o]); }
      }
    }
  }

  lemma {:induction false} VectorRoundTrip(c: Context, s: Joint, open: set<Obj>, o: Obj, rest: seq<Byte>)
    returns (s': Joint, v: R.Value)
    requires Fits(c.g) && Sync(c, s, open) && o in open && o in c.g.nodes && c.g.nodes[o].Vec?
    requires forall f :: f in s.used && f.from == o ==> f.index < 0
    requires Guarded(c, s, open - {o}, c.rank[o])
    ensures Sync(c, s', open) && Extends(s, s', open - {o}, {})
    ensures IsImage(c.g.nodes[o], v, s'.phi, s'.rs.cells) && IsFresh(s', v)
    ensures var (ws, bs) := W.WriteBody(c.g, c.rank, s.ws, o);
      s'.ws == ws && ReadsBack(s, bs, rest, v, s')
    decreases c.rank[o], 1, 0
  {
    assert NodeFits(c.g.nodes[o]);
    var os := c.g.nodes[o].elements;
    var es := seq(|os|, i => Edge(o, i));
    VectorWritable(c, s, open, o, es);
    var s1 := AllRoundTrip(c, s, open, os, es, c.rank[o], rest);
    var cell := R.CVec(Images(s1.phi, os));
    Allocated(c, s1, open, cell);
    s', v := s1.(rs := s1.rs.(cells := s1.rs.cells + [cell])), R.New(|s1.rs.cells|);
    ExtendsMore(s, s1, open, EdgeSet(es), open - {o}, {});
    VectorRecord(s, s1, |os|, W.WriteAll(c.g, c.rank, s.ws, os, c.rank[o]).1, rest, Images(s1.phi, os));
  }

  // ----- lists -----

  /** Each pair is the cdr of the one before it. */
  ghost predicate IsChain(g: Graph, ps: seq<Obj>) {
    && |ps| > 0
    && (forall i :: 0 <= i < |ps| ==> ps[i] in g.nodes && g.nodes[ps[i]].Pair?)
    && (forall i :: 1 <= i < |ps| ==> g.nodes[ps[i - 1]].cdr == ps[i])
    && (forall i, j :: 0 <= i < j < |ps| ==> ps[i] != ps[j])
  }

  /** A pair inside a chain that is being written: nothing but the pair before it refers to it. */
  ghost predicate IsInner(c: Context, s: Joint, open: set<Obj>, p: Obj) {
    && p in open
    && p in s.ws.marks && s.ws.marks[p] == Once
    && p in c.owner && c.owner[p] in s.used
  }

  ghost predicate ChainOpen(c: Context, s: Joint, open: set<Obj>, ps: seq<Obj>) {
    && IsChain(c.g, ps)
    && ps[0] in open
    && forall i {:trigger IsInner(c, s, open, ps[i])} :: 1 <= i < |ps| ==> IsInner(c, s, open, ps[i])
  }

  /** Of the edges that leave the chain, none was followed yet. */
  ghost predicate ExitsUnused(s: Joint, ps: seq<Obj>)
    requires |ps| > 0
  {
    forall f {:trigger ExitUnused(s, ps, f)} :: f in s.used ==> ExitUnused(s, ps, f)
  }

  ghost predicate ExitUnused(s: Joint, ps: seq<Obj>, f: Edge)
    requires |ps| > 0
  {
    f.from in ps ==> f.index < 0 || (f.index == 1 && f.from != ps[|ps| - 1])
  }

  ghost function Elements(ps: seq<Obj>): set<Obj> {
    set p | p in ps
  }

  lemma ElementsCons(p: Obj, ps: seq<Obj>)
    ensures Elements([p] + ps) == {p} + Elements(ps)
  {
  }

  lemma {:induction false} DistinctAreFew(ps: seq<Obj>, keys: set<Obj>)
    requires forall i :: 0 <= i < |ps| ==> ps[i] in keys
    requires forall i, j :: 0 <= i < j < |ps| ==> ps[i] != ps[j]
    ensures |ps| <= |keys|
  {
    if |ps| > 0 {
      var n := |ps| - 1;
      DistinctAreFew(ps[..n], keys - {ps[n]});
    }
  }

  /** The next pair of a chain has no other reference, and following it opens it. */
  lemma OpenNext(c: Context, s: Joint, open: set<Obj>, p: Obj)
    requires Sync(c, s, open) && p in open && p in c.g.nodes && c.g.nodes[p].Pair?
    requires forall f :: f in s.used && f.from == p ==> f.index < 0
    requires Guarded(c, s, open - {p}, c.rank[p])
    requires var next := c.g.nodes[p].cdr; next in c.g.nodes && c.g.nodes[next].Pair? && !W.CutsList(s.ws.marks, next)
    ensures var next := c.g.nodes[p].cdr; var s1 := s.(used := s.used + {Edge(p, 1)});
      && Sync(c, s1, open + {next}) && IsInner(c, s1, open + {next}, next)
      && next !in open && c.rank[next] < c.rank[p]
      && (forall f :: f in s1.used && f.from == next ==> f.index < 0)
      && Guarded(c, s1, open, c.rank[next])
  {
    var next := c.g.nodes[p].cdr;
    var s1 := s.(used := s.used + {Edge(p, 1)});
    assert MarkOk(c, s, open, p);
    assert Kids(c.g.nodes[p])[1] == next;
    assert MarkOk(c, s, open, next) && (next in open ==> IsGuarded(c, s, next, c.rank[p]));
    assert s.ws.marks[next] == Once;
    OpenOnce(c, s, open, next, Edge(p, 1));
    forall f | f in s1.used && f.from == next ensures f.index < 0 {
      UnstartedIsUnused(c, s, open, next, f);
    }
    forall q | q in open ensures IsGuarded(c, s1, q, c.rank[next]) {
      if q != p { assert IsGuarded(c, s, q, c.rank[p]); }
    }
  }

  lemma ChainCons(g: Graph, p: Obj, qs: seq<Obj>)
    requires IsChain(g, qs) && p in g.nodes && g.nodes[p].Pair? && g.nodes[p].cdr == qs[0] && p !in qs
    ensures IsChain(g, [p] + qs)
  {
  }

  lemma {:induction false} OpenChain(c: Context, s: Joint, open: set<Obj>, p: Obj) returns (s': Joint)
    requires Sync(c, s, open) && p in open && p in c.g.nodes && c.g.nodes[p].Pair?
    requires forall f :: f in s.used && f.from == p ==> f.index < 0
    requires Guarded(c, s, open - {p}, c.rank[p])
    ensures s' == s.(used := s'.used) && s.used <= s'.used
    ensures var ps := W.Chain(c.g, c.rank, s.ws.marks, p);
      && Sync(c, s', open + Elements(ps)) && ChainOpen(c, s', open + Elements(ps), ps)
      && ExitsUnused(s', ps)
      && (forall q :: q in ps && q != p ==> q !in open)
      && (forall f :: f in s'.used && f !in s.used ==> f.from in ps)
    decreases c.rank[p]
  {
    var next := c.g.nodes[p].cdr;
    assert next == Kids(c.g.nodes[p])[1];
    if c.g.nodes[next].Pair? && !W.CutsList(s.ws.marks, next) {
      OpenNext(c, s, open, p);
      assert open + {next} - {next} == open;
      var s1 := s.(used := s.used + {Edge(p, 1)});
      var qs := W.Chain(c.g, c.rank, s.ws.marks, next);
      s' := OpenChain(c, s1, open + {next}, next);
      OpenedChainCons(c, s1, s', open, p, qs);
    } else {
      s' := s;
      assert open + Elements([p]) == open;
      forall f | f in s'.used ensures ExitUnused(s', [p], f) {}
    }
  }

  lemma OpenedChainCons(c: Context, s1: Joint, s': Joint, open: set<Obj>, p: Obj, qs: seq<Obj>)
    requires p in open && p in c.g.nodes && c.g.nodes[p].Pair? && |qs| > 0 && c.g.nodes[p].cdr == qs[0]
    requires IsInner(c, s1, open + {qs[0]}, qs[0]) && qs[0] !in open
    requires forall f :: f in s1.used && f.from == p ==> f.index < 0 || f.index == 1
    requires s' == s1.(used := s'.used) && s1.used <= s'.used
    requires ChainOpen(c, s', open + {qs[0]} + Elements(qs), qs) && ExitsUnused(s', qs)
    requires forall q :: q in qs && q != qs[0] ==> q !in open + {qs[0]}
    requires forall f :: f in s'.used && f !in s1.used ==> f.from in qs
    ensures open + {qs[0]} + Elements(qs) == open + Elements([p] + qs)
    ensures ChainOpen(c, s', open + Elements([p] + qs), [p] + qs) && ExitsUnused(s', [p] + qs)
    ensures forall q :: q in [p] + qs && q != p ==> q !in open
  {
    var ps := [p] + qs;
    ElementsCons(p, qs);
    assert open + {qs[0]} + Elements(qs) == open + Elements(ps);
    ChainCons(c.g, p, qs);
    forall i | 1 <= i < |ps| ensures IsInner(c, s', open + Elements(ps), ps[i]) {
      if i > 1 { assert IsInner(c, s', open + {qs[0]} + Elements(qs), qs[i - 1]); }
    }
    forall f | f in s'.used ensures ExitUnused(s', ps, f) {
      assert ExitUnused(s', qs, f);
      assert ps[|ps| - 1] == qs[|qs| - 1];
    }
  }

  lemma ChainGuarded(c: Context, s: Joint, open: set<Obj>, ps: seq<Obj>, r: nat)
    requires Sync(c, s, open + Elements(ps)) && ChainOpen(c, s, open + Elements(ps), ps)
    requires Guarded(c, s, open - {ps[0]}, c.rank[ps[0]]) && r < c.rank[ps[0]]
    ensures Guarded(c, s, open + Elements(ps), r)
  {
    forall q | q in open + Elements(ps) ensures IsGuarded(c, s, q, r) {
      assert MarkOk(c, s, open + Elements(ps), q);
      if q in ps && q != ps[0] {
        var i :| 0 <= i < |ps| && ps[i] == q;
        assert IsInner(c, s, open + Elements(ps), ps[i]);
      } else if q != ps[0] {
        assert IsGuarded(c, s, q, c.rank[ps[0]]);
      }
    }
  }

  /** What consing the elements back changes: some pairs are finished, and cells are added. */
  ghost predicate OnlyRebuilds(s: Joint, s': Joint) {
    && s'.ws == s.ws && s'.used == s.used
    && s.rs.cells <= s'.rs.cells && s'.rs == s.rs.(cells := s'.rs.cells)
    && forall o {:trigger ValueKept(s.phi, s'.phi, o)} :: ValueKept(s.phi, s'.phi, o)
  }

  lemma RebuildExtends(s: Joint, s': Joint, open: set<Obj>)
    requires OnlyRebuilds(s, s')
    ensures Extends(s, s', open, {})
  {
  }

  lemma ConsCell(c: Context, s: Joint, open: set<Obj>, p: Obj) returns (s': Joint, v: R.Value)
    requires Sync(c, s, open) && p in c.g.nodes && c.g.nodes[p].Pair?
    requires c.g.nodes[p].car in s.phi && c.g.nodes[p].cdr in s.phi
    ensures Sync(c, s', open) && OnlyRebuilds(s, s')
    ensures R.Allocate(s.rs, R.CPair(s.phi[c.g.nodes[p].car], s.phi[c.g.nodes[p].cdr])) == (v, s'.rs)
    ensures IsImage(c.g.nodes[p], v, s'.phi, s'.rs.cells) && IsFresh(s', v)
  {
    var cell := R.CPair(s.phi[c.g.nodes[p].car], s.phi[c.g.nodes[p].cdr]);
    Allocated(c, s, open, cell);
    s', v := s.(rs := s.rs.(cells := s.rs.cells + [cell])), R.New(|s.rs.cells|);
    forall o ensures ValueKept(s.phi, s'.phi, o) {}
  }

  lemma CloseInner(c: Context, s: Joint, open: set<Obj>, p: Obj, v: R.Value)
    requires Sync(c, s, open) && IsInner(c, s, open, p) && p in c.g.nodes
    requires IsImage(c.g.nodes[p], v, s.phi, s.rs.cells) && IsFresh(s, v)
    ensures Sync(c, s.(phi := s.phi[p := v]), open - {p}) && OnlyRebuilds(s, s.(phi := s.phi[p := v]))
  {
    assert MarkOk(c, s, open, p);
    CloseObject(c, s, open, p, v);
    var s' := s.(phi := s.phi[p := v]);
    forall o ensures ValueKept(s.phi, s'.phi, o) {}
  }

  /** The part of a chain whose ends are already read back. */
  ghost predicate Rebuildable(c: Context, s: Joint, open: set<Obj>, ps: seq<Obj>) {
    && ChainOpen(c, s, open, ps)
    && Placed(s.phi, W.Cars(c.g, ps))
    && W.ChainTail(c.g, ps) in s.phi
  }

  lemma RebuildableTail(c: Context, s: Joint, open: set<Obj>, ps: seq<Obj>)
    requires Rebuildable(c, s, open, ps) && |ps| > 1
    ensures Rebuildable(c, s, open, ps[1..])
    ensures W.ChainTail(c.g, ps[1..]) == W.ChainTail(c.g, ps)
    ensures Images(s.phi, W.Cars(c.g, ps[1..])) == Images(s.phi, W.Cars(c.g, ps))[1..]
    ensures IsInner(c, s, open, ps[1])
  {
    assert IsInner(c, s, open, ps[1]);
    var qs := ps[1..];
    forall i | 1 <= i < |qs| ensures IsInner(c, s, open, qs[i]) {
      assert IsInner(c, s, open, ps[i + 1]);
    }
    forall i | 0 <= i < |qs| ensures W.Cars(c.g, qs)[i] in s.phi {
      assert W.Cars(c.g, qs)[i] == W.Cars(c.g, ps)[i + 1];
    }
  }

  /** The reader conses the elements back onto the tail; every pair but the first is then finished. */
  lemma {:induction false} BuildRoundTrip(c: Context, s: Joint, open: set<Obj>, ps: seq<Obj>)
    returns (s': Joint, v: R.Value)
    requires Sync(c, s, open) && Rebuildable(c, s, open, ps)
    ensures Sync(c, s', open - Elements(ps[1..])) && OnlyRebuilds(s, s')
    ensures R.BuildList(s.rs, Images(s.phi, W.Cars(c.g, ps)), s.phi[W.ChainTail(c.g, ps)]) == (v, s'.rs)
    ensures IsImage(c.g.nodes[ps[0]], v, s'.phi, s'.rs.cells) && IsFresh(s', v)
    decreases |ps|
  {
    var vs := Images(s.phi, W.Cars(c.g, ps));
    var p := ps[0];
    assert c.g.nodes[p].car == W.Cars(c.g, ps)[0];
    if |ps| == 1 {
      assert open - Elements(ps[1..]) == open;
      assert vs[1..] == [];
      s', v := ConsCell(c, s, open, p);
    } else {
      RebuildableTail(c, s, open, ps);
      var s0, u := BuildRoundTrip(c, s, open, ps[1..]);
      var s1 := s0.(phi := s0.phi[ps[1] := u]);
      CloseNext(c, s, s0, open, ps, u);
      s', v := ConsCell(c, s1, open - Elements(ps[1..]), p);
      forall o ensures ValueKept(s.phi, s'.phi, o) {
        assert ValueKept(s.phi, s1.phi, o) && ValueKept(s1.phi, s'.phi, o);
      }
    }
  }

  lemma CloseNext(c: Context, s: Joint, s0: Joint, open: set<Obj>, ps: seq<Obj>, u: R.Value)
    requires Rebuildable(c, s, open, ps) && |ps| > 1 && IsInner(c, s, open, ps[1])
    requires Sync(c, s0, open - Elements(ps[1..][1..])) && OnlyRebuilds(s, s0)
    requires IsImage(c.g.nodes[ps[1]], u, s0.phi, s0.rs.cells) && IsFresh(s0, u)
    ensures var s1 := s0.(phi := s0.phi[ps[1] := u]);
      && Sync(c, s1, open - Elements(ps[1..])) && OnlyRebuilds(s, s1)
      && c.g.nodes[ps[0]].car in s1.phi && s1.phi[c.g.nodes[ps[0]].car] == s.phi[c.g.nodes[ps[0]].car]
      && c.g.nodes[ps[0]].cdr in s1.phi && s1.phi[c.g.nodes[ps[0]].cdr] == u
  {
    var rest := ps[1..][1..];
    assert ps[1..] == [ps[1]] + rest;
    ElementsCons(ps[1], rest);
    assert open - Elements(ps[1..]) == open - Elements(rest) - {ps[1]};
    CloseInner(c, s0, open - Elements(rest), ps[1], u);
    var s1 := s0.(phi := s0.phi[ps[1] := u]);
    forall o ensures ValueKept(s.phi, s1.phi, o) {
      assert ValueKept(s.phi, s0.phi, o) && ValueKept(s0.phi, s1.phi, o);
    }
    assert c.g.nodes[ps[0]].car == W.Cars(c.g, ps)[0];
    assert ValueKept(s.phi, s1.phi, c.g.nodes[ps[0]].car);
    assert c.g.nodes[ps[0]].cdr == ps[1] && ps[0] != ps[1];
    assert ps[1] !in s.phi by {
      assert ps[1] !in s0.phi by { assert MarkOk(c, s0, open - Elements(rest), ps[1]); }
      assert ValueKept(s.phi, s0.phi, ps[1]);
    }
  }

  lemma {:induction false} TailRoundTrip(c: Context, s: Joint, open: set<Obj>, tail: Obj, e: Edge,
      rest: seq<Byte>) returns (s': Joint)
    requires Fits(c.g) && Sync(c, s, open) && Writable(c, s, open, e, tail)
    ensures Sync(c, s', open) && Extends(s, s', open, {e})
    ensures tail in s'.phi
    ensures var (ws, bs) := W.WriteTail(c.g, c.rank, s.ws, tail);
      s'.ws == ws && ReadsBack(s, bs, rest, s'.phi[tail], s')
    decreases c.rank[tail], 4, 0
  {
    if c.g.nodes[tail].Pair? && tail in s.ws.marks && s.ws.marks[tail] == Shared {
      s' := SharedRoundTrip(c, s, open, tail, Tail(s.ws.uid), rest);
      ExtendsMore(s, s', open, {}, open, {e});
    } else {
      s' := ObjectRoundTrip(c, s, open, tail, e, rest);
    }
  }

  ghost function CarEdges(ps: seq<Obj>): (es: seq<Edge>)
    ensures |es| == |ps| && forall i :: 0 <= i < |ps| ==> es[i] == Edge(ps[i], 0)
  {
    seq(|ps|, i requires 0 <= i < |ps| => Edge(ps[i], 0))
  }

  /** Everything an opened chain leads to can be written. */
  lemma ChainWritable(c: Context, s: Joint, open: set<Obj>, ps: seq<Obj>, p: Obj, index: nat)
    requires Sync(c, s, open + Elements(ps)) && ChainOpen(c, s, open + Elements(ps), ps) && ExitsUnused(s, ps)
    requires Guarded(c, s, open - {ps[0]}, c.rank[ps[0]])
    requires p in ps && index < 2 && (index == 1 ==> p == ps[|ps| - 1])
    requires var kid := Kids(c.g.nodes[p])[index]; kid in c.g.nodes && c.rank[kid] < c.rank[ps[0]]
    ensures Writable(c, s, open + Elements(ps), Edge(p, index), Kids(c.g.nodes[p])[index])
  {
    assert MarkOk(c, s, open + Elements(ps), p);
    var kid := Kids(c.g.nodes[p])[index];
    ChainGuarded(c, s, open, ps, c.rank[kid]);
    assert Edge(p, index) in s.used ==> ExitUnused(s, ps, Edge(p, index));
  }

  lemma CarsWritable(c: Context, s: Joint, open: set<Obj>, ps: seq<Obj>)
    requires Sync(c, s, open + Elements(ps)) && ChainOpen(c, s, open + Elements(ps), ps) && ExitsUnused(s, ps)
    requires Guarded(c, s, open - {ps[0]}, c.rank[ps[0]])
    requires W.Below(c.g, c.rank, W.Cars(c.g, ps), c.rank[ps[0]])
    ensures AllWritable(c, s, open + Elements(ps), CarEdges(ps), W.Cars(c.g, ps))
  {
    var os, es := W.Cars(c.g, ps), CarEdges(ps);
    forall i | 0 <= i < |os| ensures Writable(c, s, open + Elements(ps), es[i], os[i]) {
      assert Kids(c.g.nodes[ps[i]])[0] == os[i];
      ChainWritable(c, s, open, ps, ps[i], 0);
    }
  }

  lemma ChainOpenStays(c: Context, s: Joint, s': Joint, open: set<Obj>, via: set<Edge>, ps: seq<Obj>)
    requires ChainOpen(c, s, open, ps) && Extends(s, s', open, via)
    ensures ChainOpen(c, s', open, ps)
  {
    forall i | 1 <= i < |ps| ensures IsInner(c, s', open, ps[i]) {
      assert IsInner(c, s, open, ps[i]) && MarkKept(s.ws.marks, s'.ws.marks, ps[i]);
      assert EdgeKept(s.used, s'.used, open, via, c.owner[ps[i]]);
    }
  }

  lemma ElementsRecord(s: Joint, s1: Joint, s': Joint, n: nat, bs: seq<Byte>, rest: seq<Byte>, vs: seq<R.Value>,
      tail: R.Value, v: R.Value)
    requires AllReadBack(s, n, bs, W.Immediate(NIL_WORD) + rest, vs, s1)
    requires R.BuildList(s1.rs, vs, tail) == (v, s'.rs)
    ensures R.ReadElements(n, tail, bs + W.Immediate(NIL_WORD) + rest, s.rs) == R.Ok(v, rest, s'.rs)
  {
    assert bs + W.Immediate(NIL_WORD) + rest == bs + (W.Immediate(NIL_WORD) + rest);
    ImmediateRoundTrip(NIL_WORD, rest, s1.rs);
  }

  /** The elements of a list, once its tail has been read back. */
  lemma {:induction false} ElementsRoundTrip(c: Context, s: Joint, s1: Joint, open: set<Obj>, via: set<Edge>,
      ps: seq<Obj>, rest: seq<Byte>)
    returns (s': Joint, v: R.Value)
    requires Fits(c.g) && Sync(c, s, open + Elements(ps)) && ChainOpen(c, s, open + Elements(ps), ps)
        && ExitsUnused(s, ps)
    requires Guarded(c, s, open - {ps[0]}, c.rank[ps[0]])
    requires forall q :: q in ps && q != ps[0] ==> q !in open
    requires Sync(c, s1, open + Elements(ps)) && Extends(s, s1, open + Elements(ps), via)
    requires W.Below(c.g, c.rank, W.Cars(c.g, ps), c.rank[ps[0]])
    requires via <= {Edge(ps[|ps| - 1], 1)} && ps[0] in open
    requires W.ChainTail(c.g, ps) in s1.phi
    ensures Sync(c, s', open) && Extends(s1, s', open - {ps[0]}, {})
    ensures IsImage(c.g.nodes[ps[0]], v, s'.phi, s'.rs.cells) && IsFresh(s', v)
    ensures var (ws, bs) := W.WriteAll(c.g, c.rank, s1.ws, W.Cars(c.g, ps), c.rank[ps[0]]);
      && s'.ws == ws
      && R.ReadElements(|ps|, s1.phi[W.ChainTail(c.g, ps)], bs + W.Immediate(NIL_WORD) + rest, s1.rs) ==
          R.Ok(v, rest, s'.rs)
    decreases c.rank[ps[0]], 0, |ps| + 1
  {
    var open1, os, es, tail := open + Elements(ps), W.Cars(c.g, ps), CarEdges(ps), W.ChainTail(c.g, ps);
    CarsWritable(c, s, open, ps);
    AllWritableStays(c, s, s1, open1, via, es, os);
    var s2 := AllRoundTrip(c, s1, open1, os, es, c.rank[ps[0]], W.Immediate(NIL_WORD) + rest);
    assert ValueKept(s1.phi, s2.phi, tail);
    ChainOpenStays(c, s, s1, open1, via, ps);
    ChainOpenStays(c, s1, s2, open1, EdgeSet(es), ps);
    s', v := BuildRoundTrip(c, s2, open1, ps);
    ElementsOpen(open, ps);
    RebuildExtends(s2, s', open - {ps[0]});
    ExtendsMore(s1, s2, open1, EdgeSet(es), open - {ps[0]}, {});
    ExtendsTransitive(s1, s2, s', open - {ps[0]}, {}, {}, {});
    var bs := W.WriteAll(c.g, c.rank, s1.ws, os, c.rank[ps[0]]).1;
    ElementsRecord(s1, s2, s', |ps|, bs, rest, Images(s2.phi, os), s1.phi[tail], v);
  }

  lemma ElementsOpen(open: set<Obj>, ps: seq<Obj>)
    requires |ps| > 0 && ps[0] in open && forall q :: q in ps && q != ps[0] ==> q !in open
    requires forall i, j :: 0 <= i < j < |ps| ==> ps[i] != ps[j]
    ensures open + Elements(ps) - Elements(ps[1..]) == open
  {
  }

  lemma OpenChainExtends(s: Joint, s1: Joint, open: set<Obj>, o: Obj, ps: seq<Obj>)
    requires s1 == s.(used := s1.used) && s.used <= s1.used
    requires forall q :: q in ps && q != o ==> q !in open
    requires forall f :: f in s1.used && f !in s.used ==> f.from in ps
    ensures Extends(s, s1, open - {o}, {})
  {
  }

  /** The first half of a list record: its chain is opened and its tail is read back. */
  lemma {:induction false} ChainRoundTrip(c: Context, s: Joint, open: set<Obj>, o: Obj, rest: seq<Byte>)
    returns (s1: Joint, s2: Joint)
    requires Fits(c.g) && Sync(c, s, open) && o in open && o in c.g.nodes && c.g.nodes[o].Pair?
    requires forall f :: f in s.used && f.from == o ==> f.index < 0
    requires Guarded(c, s, open - {o}, c.rank[o])
    ensures Guarded(c, s1, open - {o}, c.rank[o]) && s1 == s.(used := s1.used)
    ensures var ps := W.Chain(c.g, c.rank, s.ws.marks, o); var tail := W.ChainTail(c.g, ps);
      && Sync(c, s1, open + Elements(ps)) && ChainOpen(c, s1, open + Elements(ps), ps) && ExitsUnused(s1, ps)
      && (forall q :: q in ps && q != o ==> q !in open)
      && Sync(c, s2, open + Elements(ps)) && Extends(s1, s2, open + Elements(ps), {Edge(ps[|ps| - 1], 1)})
      && Extends(s, s2, open - {o}, {})
      && W.Below(c.g, c.rank, W.Cars(c.g, ps), c.rank[o])
      && tail in s2.phi && tail in c.g.nodes
      && if c.g.nodes[tail] == Imm(NIL_WORD)
         then s2.ws == s.ws && s2.rs == s.rs && s2.phi[tail] == R.Lit(R.LImm(NIL_WORD))
         else var (ws, bs) := W.WriteTail(c.g, c.rank, s.ws, tail);
           s2.ws == ws && ReadsBack(s, bs, rest, s2.phi[tail], s2)
    decreases c.rank[o], 0, 0
  {
    s1 := OpenChain(c, s, open, o);
    var ps := W.Chain(c.g, c.rank, s.ws.marks, o);
    W.ChainRanks(c.g, c.rank, s.ws.marks, o);
    var open1, tail, last := open + Elements(ps), W.ChainTail(c.g, ps), ps[|ps| - 1];
    forall q | q in open - {o} ensures IsGuarded(c, s1, q, c.rank[o]) {
      assert IsGuarded(c, s, q, c.rank[o]);
    }
    if c.g.nodes[tail] == Imm(NIL_WORD) {
      CloseImmediate(c, s1, open1, tail);
      s2 := s1.(phi := s1.phi[tail := R.Lit(LiteralOf(c.g.nodes[tail]))]);
      ExtendsMore(s1, s2, open1, {}, open1, {Edge(last, 1)});
    } else {
      assert Kids(c.g.nodes[last])[1] == tail;
      ChainWritable(c, s1, open, ps, last, 1);
      s2 := TailRoundTrip(c, s1, open1, tail, Edge(last, 1), rest);
    }
    OpenChainExtends(s, s1, open, o, ps);
    ExtendsMore(s1, s2, open1, {Edge(last, 1)}, open - {o}, {});
    ExtendsTransitive(s, s1, s2, open - {o}, {}, {}, {});
  }

  lemma {:induction false} ListRoundTrip(c: Context, s: Joint, open: set<Obj>, o: Obj, rest: seq<Byte>)
    returns (s': Joint, v: R.Value)
    requires Fits(c.g) && Sync(c, s, open) && o in open && o in c.g.nodes && c.g.nodes[o].Pair?
    requires forall f :: f in s.used && f.from == o ==> f.index < 0
    requires Guarded(c, s, open - {o}, c.rank[o])
    ensures Sync(c, s', open) && Extends(s, s', open - {o}, {})
    ensures IsImage(c.g.nodes[o], v, s'.phi, s'.rs.cells) && IsFresh(s', v)
    ensures var (ws, bs) := W.WriteList(c.g, c.rank, s.ws, o);
      s'.ws == ws && ReadsBack(s, bs, rest, v, s')
    decreases c.rank[o], 1, 0
  {
    var ps := W.Chain(c.g, c.rank, s.ws.marks, o);
    W.ChainRanks(c.g, c.rank, s.ws.marks, o);
    var tail, cars := W.ChainTail(c.g, ps), W.Cars(c.g, ps);
    var nil := W.Immediate(NIL_WORD);
    var proper := c.g.nodes[tail] == Imm(NIL_WORD);
    var (w1, b1) := if proper then (s.ws, []) else W.WriteTail(c.g, c.rank, s.ws, tail);
    var b2 := W.WriteAll(c.g, c.rank, w1, cars, c.rank[o]).1;
    var s1, s2 := ChainRoundTrip(c, s, open, o, b2 + nil + rest);
    s', v := ElementsRoundTrip(c, s1, s2, open, {Edge(ps[|ps| - 1], 1)}, ps, rest);
    ExtendsTransitive(s, s2, s', open - {o}, {}, {}, {});
    DistinctAreFew(ps, c.g.nodes.Keys);
    ListRecord(s, s2, s', |ps|, proper, b1, b2, rest, s2.phi[tail], v);
  }

  lemma ListRecord(s: Joint, s2: Joint, s': Joint, n: nat, proper: bool, b1: seq<Byte>, b2: seq<Byte>, rest: seq<Byte>,
      t: R.Value, v: R.Value)
    requires 0 < n < 0x8000_0000
    requires if proper then s2.rs == s.rs && t == R.Lit(R.LImm(NIL_WORD))
             else ReadsBack(s, b1, b2 + W.Immediate(NIL_WORD) + rest, t, s2)
    requires R.ReadElements(n, t, b2 + W.Immediate(NIL_WORD) + rest, s2.rs) == R.Ok(v, rest, s'.rs)
    ensures ReadsBack(s,
      if proper then W.Word(PLIST_TAG, n) + b2 + W.Immediate(NIL_WORD)
      else W.Word(DLIST_TAG, n) + b1 + b2 + W.Immediate(NIL_WORD), rest, v, s')
  {
    if proper {
      ProperRecord(s, s', n, b2 + W.Immediate(NIL_WORD), rest, v);
      assert W.Word(PLIST_TAG, n) + b2 + W.Immediate(NIL_WORD) == W.Word(PLIST_TAG, n) + (b2 + W.Immediate(NIL_WORD));
    } else {
      DottedRecord(s, s2, s', n, b1, b2 + W.Immediate(NIL_WORD), rest, t, v);
      assert W.Word(DLIST_TAG, n) + b1 + b2 + W.Immediate(NIL_WORD) ==
          W.Word(DLIST_TAG, n) + b1 + (b2 + W.Immediate(NIL_WORD));
    }
  }

  lemma ProperRecord(s: Joint, s': Joint, n: nat, body: seq<Byte>, rest: seq<Byte>, v: R.Value)
    requires 0 < n < 0x8000_0000
    requires R.ReadElements(n, R.Lit(R.LImm(NIL_WORD)), body + rest, s.rs) == R.Ok(v, rest, s'.rs)
    ensures ReadsBack(s, W.Word(PLIST_TAG, n) + body, rest, v, s')
  {
    assert W.Word(PLIST_TAG, n) + body + rest == W.Word(PLIST_TAG, n) + (body + rest);
    TaggedRoundTrip(PLIST_TAG, n, body + rest, s.rs);
  }

  lemma DottedRecord(s: Joint, s2: Joint, s': Joint, n: nat, tail: seq<Byte>, body: seq<Byte>, rest: seq<Byte>,
      t: R.Value, v: R.Value)
    requires 0 < n < 0x8000_0000
    requires ReadsBack(s, tail, body + rest, t, s2) && R.ReadElements(n, t, body + rest, s2.rs) == R.Ok(v, rest, s'.rs)
    ensures ReadsBack(s, W.Word(DLIST_TAG, n) + tail + body, rest, v, s')
  {
    assert W.Word(DLIST_TAG, n) + tail + body + rest == W.Word(DLIST_TAG, n) + (tail + (body + rest));
    TaggedRoundTrip(DLIST_TAG, n, tail + (body + rest), s.rs);
  }

  // ----- the whole cache -----

  /** What the first pass leaves behind: everything reachable from `root` was visited. */
  ghost predicate ScannedFrom(g: Graph, marks: Marks, owner: Owners, root: Obj)
    requires CacheGraph.Closed(g) && root in g.nodes
  {
    Scanned(g, marks, owner, {}) && EdgeScanned(g, marks, owner, Edge(root, -1), root)
  }

  lemma {:induction false} SubsetIsSmaller(a: set<Obj>, b: set<Obj>)
    requires a <= b
    ensures |a| <= |b|
  {
    if |a| > 0 {
      var x :| x in a;
      SubsetIsSmaller(a - {x}, b - {x});
    }
  }

  lemma InitialSync(c: Context, marks: Marks, root: Obj)
    requires CacheGraph.Closed(c.g) && root in c.g.nodes && W.IsRanking(c.g, c.rank)
    requires ScannedFrom(c.g, marks, c.owner, root)
    ensures Sync(c, Joint(W.State(marks, 0), R.State(map[], [], false), map[], {}), {})
  {
    var s := Joint(W.State(marks, 0), R.State(map[], [], false), map[], {});
    SubsetIsSmaller(SharedSet(marks), c.g.nodes.Keys);
    forall o | o in marks ensures MarkOk(c, s, {}, o) {
      assert AllScanned(c.g, marks, c.owner, o) && IsScanMark(c.g, marks, o);
      forall i | 0 <= i < |Kids(c.g.nodes[o])| ensures
        Kids(c.g.nodes[o])[i] in c.g.nodes && EdgeScanned(c.g, marks, c.owner, Edge(o, i), Kids(c.g.nodes[o])[i])
      {
        assert Kids(c.g.nodes[o])[i] == ScanKids(c.g, c.g.nodes[o])[i];
      }
    }
  }

  /** Reading what was written consumes exactly those bytes and rebuilds the graph, sharing included. */
  lemma RoundTrip(g: Graph, rank: W.Ranks, marks: Marks, owner: Owners, root: Obj, rest: seq<Byte>)
    returns (phi: Embedding, st: R.State)
    requires CacheGraph.Closed(g) && root in g.nodes && W.IsRanking(g, rank) && Fits(g)
    requires ScannedFrom(g, marks, owner, root)
    ensures root in phi && IsEmbedding(g, phi, st.cells) && !st.linkNeeded
    ensures R.ReadObject(W.WriteObject(g, rank, W.State(marks, 0), root).1 + rest, R.State(map[], [], false))
      == R.Ok(phi[root], rest, st)
  {
    var c := Context(g, rank, owner);
    InitialSync(c, marks, root);
    var s := Joint(W.State(marks, 0), R.State(map[], [], false), map[], {});
    assert Guarded(c, s, {}, rank[root]);
    var s' := ObjectRoundTrip(c, s, {}, root, Edge(root, -1), rest);
    phi, st := s'.phi, s'.rs;
  }

  /** Two objects come back as one exactly when they were one, or are literals with the same contents. */
  lemma SharingIsExact(g: Graph, phi: Embedding, cells: seq<R.Cell>, x: Obj, y: Obj)
    requires IsEmbedding(g, phi, cells) && x in phi && y in phi
    ensures x in g.nodes && y in g.nodes
    ensures phi[x] == phi[y] <==>
      x == y || (ByContents(g.nodes[x]) && ByContents(g.nodes[y]) && LiteralOf(g.nodes[x]) == LiteralOf(g.nodes[y]))
  {
    assert Mirrors(g, phi, cells, x) && Mirrors(g, phi, cells, y) && KeptApart(phi, x, y);
  }
}
