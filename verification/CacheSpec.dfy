/** What the second pass of the cache writer emits, as a function of the graph and the marks. */
module CacheWrite {
  import opened CacheFormat
  import opened CacheGraph

  /** The part of the context that the second pass updates. */
  datatype State = State(marks: Marks, uid: nat)

  /** Acyclic graphs are those whose objects can be ranked above all their children. */
  type Ranks = map<Obj, nat>

  ghost predicate IsRanking(g: Graph, rank: Ranks) {
    && rank.Keys == g.nodes.Keys
    && forall o, i :: o in g.nodes && 0 <= i < |Kids(g.nodes[o])| ==>
         Kids(g.nodes[o])[i] in rank && rank[Kids(g.nodes[o])[i]] < rank[o]
  }

  function Word(tag: Byte, w: nat): (s: seq<Byte>)
    ensures |s| == 1 + EMIT_SIZE
  {
    [tag] + LittleEndian(w, EMIT_SIZE)
  }

  function Immediate(w: nat): (s: seq<Byte>) {
    [IMMEDIATE_TAG] + LittleEndian(w, WORD_SIZE)
  }

  /** The characters of a string, one word each. */
  function Characters(text: seq<Char>): (s: seq<Byte>)
    ensures |s| == EMIT_SIZE * |text|
  {
    if text == [] then [] else LittleEndian(text[0], EMIT_SIZE) + Characters(text[1..])
  }

  /** A list tail that is written on its own: it is shared, or was written before. */
  predicate CutsList(marks: Marks, o: Obj) {
    o in marks && (marks[o] == Shared || marks[o].Defined?)
  }

  /** The pairs that one list record covers, starting at pair `o`. */
  function Chain(g: Graph, ghost rank: Ranks, marks: Marks, o: Obj): (ps: seq<Obj>)
    requires IsRanking(g, rank) && o in g.nodes && g.nodes[o].Pair?
    ensures |ps| > 0 && ps[0] == o && forall i :: 0 <= i < |ps| ==> ps[i] in g.nodes && g.nodes[ps[i]].Pair?
    decreases rank[o]
  {
    var next := g.nodes[o].cdr;
    assert next == Kids(g.nodes[o])[1];
    if g.nodes[next].Pair? && !CutsList(marks, next) then [o] + Chain(g, rank, marks, next) else [o]
  }

  function ChainTail(g: Graph, ps: seq<Obj>): Obj
    requires |ps| > 0 && forall i :: 0 <= i < |ps| ==> ps[i] in g.nodes && g.nodes[ps[i]].Pair?
  {
    g.nodes[ps[|ps| - 1]].cdr
  }

  function Cars(g: Graph, ps: seq<Obj>): (cs: seq<Obj>)
    requires forall i :: 0 <= i < |ps| ==> ps[i] in g.nodes && g.nodes[ps[i]].Pair?
    ensures |cs| == |ps| && forall i :: 0 <= i < |ps| ==> cs[i] == g.nodes[ps[i]].car
  {
    seq(|ps|, i requires 0 <= i < |ps| => g.nodes[ps[i]].car)
  }

  /** The chain follows cdrs, passes over no pair that cuts a list, and stops only where one does or the
      list ends. */
  lemma {:induction false} ChainSteps(g: Graph, rank: Ranks, marks: Marks, o: Obj)
    requires IsRanking(g, rank) && o in g.nodes && g.nodes[o].Pair?
    ensures var ps := Chain(g, rank, marks, o);
      && (forall i :: 1 <= i < |ps| ==> ps[i] == g.nodes[ps[i - 1]].cdr && !CutsList(marks, ps[i]))
      && ChainTail(g, ps) in g.nodes
      && (g.nodes[ChainTail(g, ps)].Pair? ==> CutsList(marks, ChainTail(g, ps)))
    decreases rank[o]
  {
    var next := g.nodes[o].cdr;
    assert next == Kids(g.nodes[o])[1];
    if g.nodes[next].Pair? && !CutsList(marks, next) {
      ChainSteps(g, rank, marks, next);
    }
  }

  /** Everything the chain leads to ranks below its first pair. */
  lemma {:induction false} ChainRanks(g: Graph, rank: Ranks, marks: Marks, o: Obj)
    requires IsRanking(g, rank) && o in g.nodes && g.nodes[o].Pair?
    ensures var ps := Chain(g, rank, marks, o);
      && ChainTail(g, ps) in g.nodes && rank[ChainTail(g, ps)] < rank[o]
      && forall i :: 0 <= i < |ps| ==>
           && rank[ps[i]] <= rank[o]
           && Cars(g, ps)[i] in g.nodes && rank[Cars(g, ps)[i]] < rank[o]
    decreases rank[o]
  {
    var next := g.nodes[o].cdr;
    var ps := Chain(g, rank, marks, o);
    assert next == Kids(g.nodes[o])[1] && g.nodes[o].car == Kids(g.nodes[o])[0];
    if g.nodes[next].Pair? && !CutsList(marks, next) {
      ChainRanks(g, rank, marks, next);
      var qs := Chain(g, rank, marks, next);
      assert ps == [o] + qs;
      forall i | 0 <= i < |ps|
        ensures rank[ps[i]] <= rank[o] && Cars(g, ps)[i] in g.nodes && rank[Cars(g, ps)[i]] < rank[o]
      {
        assert i > 0 ==> Cars(g, ps)[i] == Cars(g, qs)[i - 1];
      }
    }
  }

  ghost predicate Below(g: Graph, rank: Ranks, os: seq<Obj>, bound: nat)
    requires IsRanking(g, rank)
  {
    forall i :: 0 <= i < |os| ==> os[i] in g.nodes && rank[os[i]] < bound
  }

  function WriteObject(g: Graph, ghost rank: Ranks, st: State, o: Obj): (State, seq<Byte>)
    requires IsRanking(g, rank) && o in g.nodes
    decreases rank[o], 3, 0
  {
    if o in st.marks && st.marks[o].Defined? then
      (st, Word(LOOKUP_TAG, st.marks[o].uid))
    else if o in st.marks && st.marks[o] == Shared then
      var (st', bs) := WriteBody(g, rank, State(st.marks[o := Defined(st.uid)], st.uid + 1), o);
      (st', Word(DEFINING_SHARED_TAG, st.uid) + bs)
    else
      WriteBody(g, rank, st, o)
  }

  function WriteBody(g: Graph, ghost rank: Ranks, st: State, o: Obj): (State, seq<Byte>)
    requires IsRanking(g, rank) && o in g.nodes
    decreases rank[o], 2, 0
  {
    match g.nodes[o]
    case Imm(w) => (st, Immediate(w))
    case Str(text) => (st, Word(STRING_TAG, |text|) + Characters(text))
    case Sym(interned, text) =>
      (st, Word(if interned then INTERNED_SYMBOL_TAG else UNINTERNED_SYMBOL_TAG, |text|) + Characters(text))
    case Vec(es) =>
      assert Below(g, rank, es, rank[o]) by { assert Kids(g.nodes[o]) == es; }
      var (st', bs) := WriteAll(g, rank, st, es, rank[o]);
      (st', Word(VECTOR_TAG, |es|) + [0] + bs)
    case Pair(_, _) => WriteList(g, rank, st, o)
  }

  function WriteAll(g: Graph, ghost rank: Ranks, st: State, os: seq<Obj>, ghost bound: nat): (State, seq<Byte>)
    requires IsRanking(g, rank) && Below(g, rank, os, bound)
    decreases bound, 0, |os|
  {
    if os == [] then (st, [])
    else
      var (st1, b1) := WriteObject(g, rank, st, os[0]);
      var (st2, b2) := WriteAll(g, rank, st1, os[1..], bound);
      (st2, b1 + b2)
  }

  function WriteList(g: Graph, ghost rank: Ranks, st: State, o: Obj): (State, seq<Byte>)
    requires IsRanking(g, rank) && o in g.nodes && g.nodes[o].Pair?
    decreases rank[o], 1, 0
  {
    var ps := Chain(g, rank, st.marks, o);
    ChainRanks(g, rank, st.marks, o);
    var tail := ChainTail(g, ps);
    assert Below(g, rank, Cars(g, ps), rank[o]);
    if g.nodes[tail] == Imm(NIL_WORD) then
      var (st', bs) := WriteAll(g, rank, st, Cars(g, ps), rank[o]);
      (st', Word(PLIST_TAG, |ps|) + bs + Immediate(NIL_WORD))
    else
      var (st1, b1) := WriteTail(g, rank, st, tail);
      var (st2, b2) := WriteAll(g, rank, st1, Cars(g, ps), rank[o]);
      (st2, Word(DLIST_TAG, |ps|) + b1 + b2 + Immediate(NIL_WORD))
  }

  /** The tail of an improper or shared list.  A tail that is shared and not yet written is defined here. */
  function WriteTail(g: Graph, ghost rank: Ranks, st: State, tail: Obj): (State, seq<Byte>)
    requires IsRanking(g, rank) && tail in g.nodes
    decreases rank[tail], 4, 0
  {
    if g.nodes[tail].Pair? && tail in st.marks && st.marks[tail] == Shared then
      var uid := st.uid;
      var (st1, bs) := WriteObject(g, rank, State(st.marks[tail := Tail(uid)], uid + 1), tail);
      (State(st1.marks[tail := Defined(uid)], st1.uid), Word(DEFINING_SHARED_TAG, uid) + bs)
    else
      WriteObject(g, rank, st, tail)
  }
}

/** What the cache reader makes of a byte sequence. */
module CacheRead {
  import opened CacheFormat
  import opened CacheGraph

  /** Objects that the reader identifies by their contents: immediates, literal strings (which are
      interned in a table of literals) and interned symbols. */
  datatype Literal = LImm(word: nat) | LStr(text: seq<Char>) | LSym(text: seq<Char>)

  /** A value that was read: a literal, a newly allocated object, or a reference left to be linked later. */
  datatype Value = Lit(literal: Literal) | New(id: nat) | SharedRef(uid: int)

  datatype Cell = CSym(text: seq<Char>) | CVec(elements: seq<Value>) | CPair(car: Value, cdr: Value)

  /** The table of shared objects, the objects allocated so far, and whether linking is needed. */
  datatype State = State(table: map<int, Value>, cells: seq<Cell>, linkNeeded: bool)

  datatype Read<T> = Fail | Ok(value: T, rest: seq<Byte>, st: State)

  function Allocate(st: State, c: Cell): (Value, State) {
    (New(|st.cells|), st.(cells := st.cells + [c]))
  }

  function ReadCharacters(bs: seq<Byte>, n: nat): (text: seq<Char>)
    requires |bs| == EMIT_SIZE * n
    ensures |text| == n
  {
    if n == 0 then []
    else [FromLittleEndian(bs[..EMIT_SIZE]) % 0x1_0000_0000] + ReadCharacters(bs[EMIT_SIZE..], n - 1)
  }

  /** Conses `values` onto `tail`. */
  function BuildList(st: State, values: seq<Value>, tail: Value): (Value, State) {
    if values == [] then (tail, st)
    else
      var (t, st') := BuildList(st, values[1..], tail);
      Allocate(st', CPair(values[0], t))
  }

  function ReadObject(bs: seq<Byte>, st: State): (r: Read<Value>)
    ensures r.Ok? ==> |r.rest| < |bs|
    decreases |bs|, 0
  {
    if |bs| == 0 then Fail
    else if bs[0] == IMMEDIATE_TAG then
      if |bs| < 1 + WORD_SIZE then Fail
      else Ok(Lit(LImm(FromLittleEndian(bs[1..1 + WORD_SIZE]))), bs[1 + WORD_SIZE..], st)
    else if |bs| < 1 + EMIT_SIZE then Fail
    else ReadTagged(bs[0], AsInt(FromLittleEndian(bs[1..1 + EMIT_SIZE])), bs[1 + EMIT_SIZE..], st)
  }

  /** The records that start with a tag and a four-byte word. */
  function ReadTagged(tag: Byte, w: int, bs: seq<Byte>, st: State): (r: Read<Value>)
    ensures r.Ok? ==> |r.rest| <= |bs|
    decreases |bs|, 2
  {
    if tag == LOOKUP_TAG then
      if w in st.table then Ok(st.table[w], bs, st)
      else Ok(SharedRef(w), bs, st.(linkNeeded := true))
    else if tag == DEFINING_SHARED_TAG then
      match ReadObject(bs, st)
      case Fail => Fail
      case Ok(v, rest, st') => Ok(v, rest, st'.(table := st'.table[w := v]))
    else if tag == STRING_TAG || tag == INTERNED_SYMBOL_TAG || tag == UNINTERNED_SYMBOL_TAG then
      if w < 0 || |bs| < EMIT_SIZE * w then Fail
      else
        var text := ReadCharacters(bs[..EMIT_SIZE * w], w);
        var rest := bs[EMIT_SIZE * w..];
        if tag == STRING_TAG then Ok(Lit(LStr(text)), rest, st)
        else if tag == INTERNED_SYMBOL_TAG then Ok(Lit(LSym(text)), rest, st)
        else var (v, st') := Allocate(st, CSym(text)); Ok(v, rest, st')
    else if tag == VECTOR_TAG then
      if w < 0 || |bs| == 0 then Fail
      else
        match ReadAll(w, bs[1..], st)
        case Fail => Fail
        case Ok(vs, rest, st') => var (v, st'') := Allocate(st', CVec(vs)); Ok(v, rest, st'')
    else if tag == PLIST_TAG then
      if w <= 0 then Fail else ReadElements(w, Lit(LImm(NIL_WORD)), bs, st)
    else if tag == DLIST_TAG then
      if w <= 0 then Fail
      else
        match ReadObject(bs, st)
        case Fail => Fail
        case Ok(tail, rest, st') => ReadElements(w, tail, rest, st')
    else Fail
  }

  /** The elements of a list and the source information of its first pair. */
  function ReadElements(n: nat, tail: Value, bs: seq<Byte>, st: State): (r: Read<Value>)
    ensures r.Ok? ==> |r.rest| <= |bs|
    decreases |bs|, 1, n + 1
  {
    match ReadAll(n, bs, st)
    case Fail => Fail
    case Ok(vs, rest, st') =>
      match ReadObject(rest, st')
      case Fail => Fail
      case Ok(info, rest', st'') =>
        var (v, st3) := BuildList(st'', vs, tail);
        Ok(v, rest', st3)
  }

  function ReadAll(n: nat, bs: seq<Byte>, st: State): (r: Read<seq<Value>>)
    ensures r.Ok? ==> |r.rest| <= |bs| && |r.value| == n
    decreases |bs|, 1, n
  {
    if n == 0 then Ok([], bs, st)
    else
      match ReadObject(bs, st)
      case Fail => Fail
      case Ok(v, rest, st') =>
        match ReadAll(n - 1, rest, st')
        case Fail => Fail
        case Ok(vs, rest', st'') => Ok([v] + vs, rest', st'')
  }
}
