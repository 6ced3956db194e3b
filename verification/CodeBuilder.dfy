/** The code builder (src/code.c): one pending packet, growing code, labels resolved at the end. */
module CodeBuilding {
  import opened Instructions
  import opened Peephole

  const EMPTY_PACKET := Packet(None, Empty, 0, 0, Ref(0))

  predicate FitsInsn(n: int) {
    -0x80_0000 <= n <= 0x7F_FFFF
  }

  // ----- which machines the combinations suit -----

  /** The packet that an entry of the table makes of the pending packet `p` and the next packet `c`. */
  function Merged<S>(m: Machine<S>, e: Entry, p: Packet, c: Packet): Packet {
    var info := m.info(c.insn);
    p.(insn := e.next, kind := e.kind,
       obj := if info.argc != 0 then c.obj else p.obj,
       arg0 := if info.values >= 1 then c.arg0 else p.arg0,
       arg1 := if info.values == 2 then c.arg1 else p.arg1)
  }

  ghost predicate IsMerger<S(!new)>(m: Machine<S>, p: Packet, c: Packet, q: Packet) {
    IsPacket(m, q) && forall s: S :: Exec(m, q, s) == Then(m, Exec(m, p, s), c)
  }

  /** An entry of the table, or one of the rules for LEAVE and UNDEF. */
  datatype Rule = Combine(entry: Entry) | AddLeaves | DropUndef

  function Apply<S>(m: Machine<S>, rule: Rule, p: Packet, c: Packet): Packet {
    match rule
    case Combine(e) => Merged(m, e, p, c)
    case AddLeaves => p.(arg0 := p.arg0 + c.arg0)
    case DropUndef => p
  }

  ghost predicate IsSoundRule<S(!new)>(m: Machine<S>, rule: Rule, previous: Insn, current: Insn) {
    previous != None && forall p: Packet, c: Packet {:trigger Apply(m, rule, p, c)} ::
      IsPacket(m, p) && IsPacket(m, c) && p.insn == previous && c.insn == current ==>
          IsMerger(m, p, c, Apply(m, rule, p, c))
  }

  function Small(c: Packet): Packet {
    if c.obj.Fixnum? then c.(insn := Consti, kind := Argument0, arg0 := c.obj.value) else c
  }

  /** Every entry of the table, and each of the three built-in rules, does in one instruction what the machine
      does in two (or, for small constants, in another one). */
  ghost predicate IsSound<S(!new)>(m: Machine<S>) {
    && (forall k {:trigger m.table[k]} :: 0 <= k < |m.table| ==>
          IsSoundRule(m, Combine(m.table[k]), m.table[k].previous, m.table[k].current))
    && IsSoundRule(m, AddLeaves, Leave, Leave)
    && IsSoundRule(m, DropUndef, Undef, Undef)
    && (forall c: Packet {:trigger Small(c)} ::
          IsPacket(m, c) && c.insn == Const && c.obj.Fixnum? && FitsInsn(c.obj.value) ==>
          IsPacket(m, Small(c)) && forall s: S :: Exec(m, Small(c), s) == Exec(m, c, s))
  }

  // ----- what is combined -----

  predicate Matches(e: Entry, previous: Insn, current: Insn) {
    e.previous == previous && e.current == current
  }

  ghost predicate IsFirstEntry<S>(m: Machine<S>, previous: Insn, current: Insn, k: nat) {
    k < |m.table| && Matches(m.table[k], previous, current) && forall i :: 0 <= i < k ==>
        !Matches(m.table[i], previous, current)
  }

  /** The rule for a packet behind a pending one: the built-in rules first, then
      the first entry that matches.  Constants
      are not combined. */
  ghost predicate IsRule<S>(m: Machine<S>, previous: Insn, c: Packet, rule: Rule) {
    match rule
    case AddLeaves => c.insn == Leave && previous == Leave
    case DropUndef => c.insn == Undef && previous == Undef
    case Combine(e) =>
      && c.insn != Const && !(c.insn == previous && (c.insn == Leave || c.insn == Undef))
      && exists k: nat :: IsFirstEntry(m, previous, c.insn, k) && e == m.table[k]
  }

  ghost predicate IsCombinable<S>(m: Machine<S>, previous: Insn, c: Packet) {
    exists rule :: IsRule(m, previous, c, rule)
  }

  /** How a packet starts: small constants are put into the instruction. */
  function Fresh(c: Packet): Packet {
    if c.insn == Const && c.obj.Fixnum? && FitsInsn(c.obj.value) then Small(c) else c
  }

  /** The packet is what its part of the program is combined to. */
  ghost predicate IsMade<S>(m: Machine<S>, p: Packet, seg: seq<Item>)
    decreases |seg|
  {
    && seg != [] && seg[|seg| - 1].Emit?
    && var c := seg[|seg| - 1].packet;
       if |seg| == 1 then p == Fresh(c)
       else exists q, rule {:trigger IsRule(m, q.insn, c, rule)} ::
         IsMade(m, q, seg[..|seg| - 1]) && IsRule(m, q.insn, c, rule) && p == Apply(m, rule, q, c)
  }

  ghost predicate AllMade<S>(m: Machine<S>, items: seq<Item>, segs: seq<seq<Item>>) {
    && |items| == |segs|
    && forall i {:trigger segs[i]} :: 0 <= i < |items| ==>
         if items[i].Emit? then IsMade(m, items[i].packet, segs[i]) else segs[i] == [items[i]]
  }

  /** No instruction was laid out that could have been combined with the next one. */
  ghost predicate IsTightAt<S>(m: Machine<S>, items: seq<Item>, segs: seq<seq<Item>>, i: nat)
    requires |items| == |segs| && i + 1 < |items|
  {
    items[i].Emit? && items[i + 1].Emit? ==>
      segs[i + 1] != [] && segs[i + 1][0].Emit? && !IsCombinable(m, items[i].packet.insn, segs[i + 1][0].packet)
  }

  ghost predicate IsTight<S>(m: Machine<S>, items: seq<Item>, segs: seq<seq<Item>>) {
    |items| == |segs| && forall i: nat {:trigger IsTightAt(m, items, segs, i)} :: i + 1 < |items| ==>
      IsTightAt(m, items, segs, i)
  }

  /** The packet may come behind the items. */
  ghost predicate MayFollow<S>(m: Machine<S>, items: seq<Item>, c: Packet) {
    items != [] && items[|items| - 1].Emit? ==> !IsCombinable(m, items[|items| - 1].packet.insn, c)
  }

  ghost predicate IsGreedy<S>(m: Machine<S>, items: seq<Item>, segs: seq<seq<Item>>, pending: seq<Item>,
      packet: Packet) {
    && AllMade(m, items, segs) && IsTight(m, items, segs)
    && if packet.kind == Empty then items == [] || items[|items| - 1].Label?
       else IsMade(m, packet, pending) && pending[0].Emit? && MayFollow(m, items, pending[0].packet)
  }

  lemma {:induction false} MadeOfEmits<S>(m: Machine<S>, p: Packet, seg: seq<Item>)
    requires IsMade(m, p, seg)
    ensures forall i :: 0 <= i < |seg| ==> seg[i].Emit?
    decreases |seg|
  {
    if |seg| > 1 {
      var c := seg[|seg| - 1].packet;
      var q, rule :| IsMade(m, q, seg[..|seg| - 1]) && IsRule(m, q.insn, c, rule) && p == Apply(m, rule, q, c);
      MadeOfEmits(m, q, seg[..|seg| - 1]);
      assert forall i :: 0 <= i < |seg| - 1 ==> seg[i] == seg[..|seg| - 1][i];
    }
  }

  lemma LaidOutStaysGreedy<S>(m: Machine<S>, items: seq<Item>, segs: seq<seq<Item>>, pending: seq<Item>, packet: Packet)
    requires IsGreedy(m, items, segs, pending, packet) && packet.kind != Empty
    ensures AllMade(m, items + [Emit(packet)], segs + [pending]) && IsTight(m, items + [Emit(packet)], segs + [pending])
  {
    var items', segs' := items + [Emit(packet)], segs + [pending];
    forall i | 0 <= i < |items'| ensures
      if items'[i].Emit? then IsMade(m, items'[i].packet, segs'[i]) else segs'[i] == [items'[i]]
    {
      assert i < |items| ==> segs'[i] == segs[i];
    }
    forall i: nat | i + 1 < |items'| ensures IsTightAt(m, items', segs', i) {
      assert i + 1 < |items| ==> IsTightAt(m, items, segs, i);
    }
  }

  lemma LabelStaysGreedy<S>(m: Machine<S>, items: seq<Item>, segs: seq<seq<Item>>, l: Obj)
    requires AllMade(m, items, segs) && IsTight(m, items, segs)
    ensures AllMade(m, items + [Label(l)], segs + [[Label(l)]]) && IsTight(m, items + [Label(l)], segs + [[Label(l)]])
  {
    var items', segs' := items + [Label(l)], segs + [[Label(l)]];
    forall i | 0 <= i < |items'| ensures
      if items'[i].Emit? then IsMade(m, items'[i].packet, segs'[i]) else segs'[i] == [items'[i]]
    {
      assert i < |items| ==> segs'[i] == segs[i];
    }
    forall i: nat | i + 1 < |items'| ensures IsTightAt(m, items', segs', i) {
      assert i + 1 < |items| ==> IsTightAt(m, items, segs, i);
    }
  }

  lemma CombinedIsMade<S>(m: Machine<S>, p: Packet, pending: seq<Item>, rule: Rule, c: Packet)
    requires IsMade(m, p, pending) && IsRule(m, p.insn, c, rule)
    ensures IsMade(m, Apply(m, rule, p, c), pending + [Emit(c)])
  {
    assert (pending + [Emit(c)])[..|pending|] == pending;
  }

  lemma NotInTable<S>(m: Machine<S>, previous: Insn, c: Packet)
    requires c.insn == Const || forall i :: 0 <= i < |m.table| ==> !Matches(m.table[i], previous, c.insn)
    requires !(c.insn == previous && (c.insn == Leave || c.insn == Undef))
    ensures !IsCombinable(m, previous, c)
  {
  }

  lemma RuleIsUnique<S>(m: Machine<S>, previous: Insn, c: Packet, rule: Rule, rule': Rule)
    requires IsRule(m, previous, c, rule) && IsRule(m, previous, c, rule')
    ensures rule == rule'
  {
    if rule.Combine? && rule'.Combine? {
      var k: nat :| IsFirstEntry(m, previous, c.insn, k) && rule.entry == m.table[k];
      var k': nat :| IsFirstEntry(m, previous, c.insn, k') && rule'.entry == m.table[k'];
    }
  }

  lemma {:induction false} MadeIsUnique<S>(m: Machine<S>, p: Packet, p': Packet, seg: seq<Item>)
    requires IsMade(m, p, seg) && IsMade(m, p', seg)
    ensures p == p'
    decreases |seg|
  {
    if |seg| > 1 {
      var front, c := seg[..|seg| - 1], seg[|seg| - 1].packet;
      var q, rule :| IsMade(m, q, front) && IsRule(m, q.insn, c, rule) && p == Apply(m, rule, q, c);
      var q', rule' :| IsMade(m, q', front) && IsRule(m, q'.insn, c, rule') && p' == Apply(m, rule', q', c);
      MadeIsUnique(m, q, q', front);
      RuleIsUnique(m, q.insn, c, rule, rule');
    }
  }

  lemma {:induction false} MadePrefix<S>(m: Machine<S>, p: Packet, seg: seq<Item>, k: nat) returns (q: Packet)
    requires IsMade(m, p, seg) && 0 < k < |seg|
    ensures IsMade(m, q, seg[..k]) && seg[k].Emit? && IsCombinable(m, q.insn, seg[k].packet)
    decreases |seg|
  {
    var front, c := seg[..|seg| - 1], seg[|seg| - 1].packet;
    var rule;
    q, rule :| IsMade(m, q, front) && IsRule(m, q.insn, c, rule) && p == Apply(m, rule, q, c);
    if k < |seg| - 1 {
      q := MadePrefix(m, q, front, k);
      assert front[..k] == seg[..k];
    }
  }

  /** A part of the program that is combined to one packet is not combined to several. */
  lemma NotShorter<S>(m: Machine<S>, items: seq<Item>, segs: seq<seq<Item>>, n: nat, item: Item, seg: seq<Item>)
    requires AllMade(m, items, segs) && IsTight(m, items, segs) && n < |items|
    requires if item.Emit? then IsMade(m, item.packet, seg) else seg == [item]
    requires |segs[n]| < |seg| && segs[n] == seg[..|segs[n]|]
    requires n + 1 < |items|
    ensures segs[n + 1] != [] && segs[n + 1][0] != seg[|segs[n]|]
  {
    assert segs[n] != [] && segs[n + 1] != [];
    MadeOfEmits(m, item.packet, seg);
    assert segs[n][0] == seg[0];
    if items[n].Emit? {
      MadeOfEmits(m, items[n].packet, segs[n]);
    }
    var q := MadePrefix(m, item.packet, seg, |segs[n]|);
    MadeIsUnique(m, q, items[n].packet, segs[n]);
    assert IsTightAt(m, items, segs, n);
  }

  lemma SegsAreFull<S>(m: Machine<S>, items: seq<Item>, segs: seq<seq<Item>>, n: nat)
    requires AllMade(m, items, segs) && n < |segs|
    ensures segs[n] != []
  {
  }

  /** One of two next parts is not shorter than the other one. */
  lemma NextNotShorter<S>(m: Machine<S>, items: seq<Item>, segs: seq<seq<Item>>, items': seq<Item>,
      segs': seq<seq<Item>>, n: nat)
    requires AllMade(m, items, segs) && IsTight(m, items, segs) && AllMade(m, items', segs')
    requires Concat(segs) == Concat(segs') && n < |segs| && n < |segs'| && segs[..n] == segs'[..n]
    ensures |segs[n]| >= |segs'[n]|
  {
    if |segs[n]| < |segs'[n]| {
      PartEnds(segs, segs', n);
      SegsAreFull(m, items, segs, n + 1);
      PartGoesOn(segs, segs', n);
      NotShorter(m, items, segs, n, items'[n], segs'[n]);
    }
  }

  /** The part lies at this place of the whole. */
  predicate IsSlice(all: seq<Item>, at: nat, part: seq<Item>) {
    at + |part| <= |all| && all[at..at + |part|] == part
  }

  lemma PartLies(segs: seq<seq<Item>>, n: nat, all: seq<Item>)
    requires n < |segs| && all == Concat(segs)
    ensures IsSlice(all, |Concat(segs[..n])|, segs[n])
    ensures |Concat(segs[..n + 1])| == |Concat(segs[..n])| + |segs[n]|
    ensures n + 1 == |segs| ==> |all| == |Concat(segs[..n])| + |segs[n]|
  {
    ConcatAt(segs, n);
    if n + 1 == |segs| {
      assert segs[..n + 1] == segs;
    }
  }

  lemma ShorterSlice(all: seq<Item>, at: nat, part: seq<Item>, part': seq<Item>)
    requires IsSlice(all, at, part) && IsSlice(all, at, part') && |part| <= |part'|
    ensures part == part'[..|part|]
  {
  }

  lemma NextSlice(all: seq<Item>, at: nat, k: nat, part: seq<Item>, part': seq<Item>)
    requires IsSlice(all, at + k, part) && IsSlice(all, at, part') && k < |part'| && part != []
    ensures part[0] == part'[k]
  {
    assert part[0] == all[at + k..at + k + |part|][0] && part'[k] == all[at..at + |part'|][k];
  }

  lemma NextPart(segs: seq<seq<Item>>, n: nat, all: seq<Item>, at: nat)
    requires n + 1 < |segs| && all == Concat(segs) && at == |Concat(segs[..n])|
    ensures IsSlice(all, at + |segs[n]|, segs[n + 1])
  {
    PartLies(segs, n, all);
    PartLies(segs, n + 1, all);
  }

  lemma SamePlace(segs: seq<seq<Item>>, n: nat, all: seq<Item>, at: nat)
    requires n < |segs| && all == Concat(segs) && at == |Concat(segs[..n])|
    ensures IsSlice(all, at, segs[n])
  {
    PartLies(segs, n, all);
  }

  /** Two ways to cut one sequence, alike up to the part `n`. */
  lemma PartEnds(segs: seq<seq<Item>>, segs': seq<seq<Item>>, n: nat)
    requires Concat(segs) == Concat(segs') && n < |segs| && n < |segs'| && segs[..n] == segs'[..n]
    ensures |segs[n]| <= |segs'[n]| ==> segs[n] == segs'[n][..|segs[n]|]
    ensures |segs[n]| < |segs'[n]| ==> n + 1 < |segs|
  {
    var all, at := Concat(segs), |Concat(segs[..n])|;
    PartLies(segs, n, all);
    PartLies(segs', n, all);
    if |segs[n]| <= |segs'[n]| {
      ShorterSlice(all, at, segs[n], segs'[n]);
    }
  }

  lemma PartGoesOn(segs: seq<seq<Item>>, segs': seq<seq<Item>>, n: nat)
    requires Concat(segs) == Concat(segs') && n + 1 < |segs| && n < |segs'| && segs[..n] == segs'[..n]
    requires |segs[n]| < |segs'[n]| && segs[n + 1] != []
    ensures segs[n + 1][0] == segs'[n][|segs[n]|]
  {
    var at := |Concat(segs[..n])|;
    NextPart(segs, n, Concat(segs), at);
    SamePlace(segs', n, Concat(segs), at);
    NextSlice(Concat(segs), at, |segs[n]|, segs[n + 1], segs'[n]);
  }

  lemma {:induction false} SameParts<S>(m: Machine<S>, items: seq<Item>, segs: seq<seq<Item>>, items': seq<Item>,
      segs': seq<seq<Item>>, n: nat)
    requires AllMade(m, items, segs) && IsTight(m, items, segs) && AllMade(m, items', segs')
        && IsTight(m, items', segs')
    requires Concat(segs) == Concat(segs') && n <= |segs| && n <= |segs'|
    ensures segs[..n] == segs'[..n] && items[..n] == items'[..n]
  {
    if n > 0 {
      var i := n - 1;
      SameParts(m, items, segs, items', segs', i);
      NextNotShorter(m, items, segs, items', segs', i);
      NextNotShorter(m, items', segs', items, segs, i);
      PartEnds(segs, segs', i);
      assert segs[i] == segs'[i];
      SameItem(m, items[i], items'[i], segs[i]);
      assert segs[..n] == segs[..i] + [segs[i]] && segs'[..n] == segs'[..i] + [segs'[i]];
      assert items[..n] == items[..i] + [items[i]] && items'[..n] == items'[..i] + [items'[i]];
    }
  }

  lemma SameItem<S>(m: Machine<S>, item: Item, item': Item, seg: seq<Item>)
    requires if item.Emit? then IsMade(m, item.packet, seg) else seg == [item]
    requires if item'.Emit? then IsMade(m, item'.packet, seg) else seg == [item']
    ensures item == item'
  {
    if item.Emit? && item'.Emit? {
      MadeIsUnique(m, item.packet, item'.packet, seg);
    }
  }

  lemma NotMoreParts<S>(m: Machine<S>, items: seq<Item>, segs: seq<seq<Item>>, items': seq<Item>, segs': seq<seq<Item>>)
    requires AllMade(m, items, segs) && IsTight(m, items, segs) && AllMade(m, items', segs')
        && IsTight(m, items', segs')
    requires Concat(segs) == Concat(segs')
    ensures |segs'| <= |segs|
  {
    var n := |segs|;
    if n < |segs'| {
      SameParts(m, items, segs, items', segs', n);
      assert segs[..n] == segs;
      SegsAreFull(m, items', segs', n);
      ConcatAt(segs', n);
    }
  }

  /** What is laid out is determined by the program: which instructions are combined, and to what. */
  lemma LayoutIsUnique<S>(m: Machine<S>, items: seq<Item>, segs: seq<seq<Item>>, items': seq<Item>,
      segs': seq<seq<Item>>)
    requires AllMade(m, items, segs) && IsTight(m, items, segs) && AllMade(m, items', segs')
        && IsTight(m, items', segs')
    requires Concat(segs) == Concat(segs')
    ensures items == items' && segs == segs'
  {
    NotMoreParts(m, items, segs, items', segs');
    NotMoreParts(m, items', segs', items, segs);
    SameParts(m, items, segs, items', segs', |segs|);
    assert segs[..|segs|] == segs && segs'[..|segs|] == segs' && items[..|segs|] == items && items'[..|segs|] == items';
  }

  // ----- what the builder holds -----

  /** The items laid out so far stand for the program up to the pending part, which the packet stands for. */
  ghost predicate IsCombined<S(!new)>(m: Machine<S>, program: seq<Item>, items: seq<Item>, segs: seq<seq<Item>>,
      pending: seq<Item>, packet: Packet) {
    && AllStandFor(m, items, segs) && program == Concat(segs) + pending
    && if packet.kind == Empty then packet == EMPTY_PACKET && pending == [] else StandsFor(m, Emit(packet), pending)
  }

  function Assq(defs: seq<(Obj, nat)>, l: Obj): (r: int)
    ensures r >= -1
  {
    if defs == [] then -1 else if defs[0].0 == l then defs[0].1 else Assq(defs[1..], l)
  }

  ghost predicate IsReference<S>(m: Machine<S>, items: seq<Item>, l: Obj, o: nat, j: nat) {
    j < |items| && HasLabel(m, items[j]) && items[j].packet.obj == l && o == Size(items[..j]) + 1
  }

  ghost predicate IsReferred<S>(m: Machine<S>, items: seq<Item>, r: (Obj, nat)) {
    exists j :: IsReference(m, items, r.0, r.1, j)
  }

  ghost predicate IsCollected<S>(m: Machine<S>, items: seq<Item>, refs: seq<(Obj, nat)>, j: nat)
    requires j < |items|
  {
    HasLabel(m, items[j]) ==> (items[j].packet.obj, Size(items[..j]) + 1) in refs
  }

  ghost predicate AreReferences<S>(m: Machine<S>, items: seq<Item>, refs: seq<(Obj, nat)>) {
    && (forall r {:trigger IsReferred(m, items, r)} :: r in refs ==> IsReferred(m, items, r))
    && (forall j {:trigger IsCollected(m, items, refs, j)} :: 0 <= j < |items| ==> IsCollected(m, items, refs, j))
  }

  ghost predicate AreDefinitions(items: seq<Item>, defs: seq<(Obj, nat)>) {
    forall l: Obj {:trigger Position(items, l)} :: Assq(defs, l) == Position(items, l)
  }

  /** Code, definitions and references of the items. */
  ghost predicate IsAssembled<S>(m: Machine<S>, items: seq<Item>, code: seq<Word>, defs: seq<(Obj, nat)>,
      refs: seq<(Obj, nat)>) {
    IsLaidOut(m, items, code, false) && AreDefinitions(items, defs) && AreReferences(m, items, refs)
  }

  // ----- appending -----

  /** The words of one item before labels are resolved. */
  function Words<S>(m: Machine<S>, item: Item): seq<Word> {
    match item
    case Label(_) => []
    case Emit(p) =>
      [Op(p.insn, p.arg0, p.arg1)] +
      if p.kind != Argument1 then [] else if m.info(p.insn).isLabel then [Offset(0)] else [Data(p.obj)]
  }

  function Definitions(item: Item, at: nat): seq<(Obj, nat)> {
    if item.Label? then [(item.name, at)] else []
  }

  function References<S>(m: Machine<S>, item: Item, at: nat): seq<(Obj, nat)> {
    if item.Emit? && m.info(item.packet.insn).isLabel then [(item.packet.obj, at + 1)] else []
  }

  lemma AppendWords<S>(m: Machine<S>, items: seq<Item>, item: Item, code: seq<Word>)
    requires IsLaidOut(m, items, code, false)
    ensures IsLaidOut(m, items + [item], code + Words(m, item), false)
  {
    var more, code' := items + [item], code + Words(m, item);
    assert more[..|items|] == items;
    forall j | 0 <= j < |more| ensures IsPlaced(m, more, code', j, false) {
      if j < |items| {
        assert IsPlaced(m, items, code, j, false) && more[..j] == items[..j];
      }
    }
  }

  lemma AppendDefinitions(items: seq<Item>, item: Item, defs: seq<(Obj, nat)>)
    requires AreDefinitions(items, defs)
    ensures AreDefinitions(items + [item], Definitions(item, Size(items)) + defs)
  {
    var more, defs' := items + [item], Definitions(item, Size(items)) + defs;
    assert more[..|items|] == items;
    forall l: Obj ensures Assq(defs', l) == Position(more, l) {
      assert item.Label? ==> defs'[1..] == defs;
      assert item.Emit? ==> defs' == defs;
      assert Assq(defs, l) == Position(items, l);
      var d := Definition(items, l);
      if d >= 0 {
        assert more[..d] == items[..d];
      }
    }
  }

  lemma AppendReferences<S>(m: Machine<S>, items: seq<Item>, item: Item, refs: seq<(Obj, nat)>)
    requires AreReferences(m, items, refs)
    ensures AreReferences(m, items + [item], References(m, item, Size(items)) + refs)
  {
    var more, refs' := items + [item], References(m, item, Size(items)) + refs;
    assert more[..|items|] == items;
    forall r | r in refs' ensures IsReferred(m, more, r) {
      if r in refs {
        assert IsReferred(m, items, r);
        var j: nat :| IsReference(m, items, r.0, r.1, j);
        assert more[..j] == items[..j];
        assert IsReference(m, more, r.0, r.1, j);
      } else {
        assert IsReference(m, more, r.0, r.1, |items|);
      }
    }
    forall j | 0 <= j < |more| ensures IsCollected(m, more, refs', j) {
      if j < |items| {
        assert IsCollected(m, items, refs, j) && more[..j] == items[..j];
      } else if HasLabel(m, item) {
        assert refs'[0] == (item.packet.obj, Size(items) + 1);
      }
    }
  }

  lemma AppendItem<S>(m: Machine<S>, items: seq<Item>, item: Item, code: seq<Word>, defs: seq<(Obj, nat)>,
      refs: seq<(Obj, nat)>,
                      code': seq<Word>, defs': seq<(Obj, nat)>, refs': seq<(Obj, nat)>)
    requires IsAssembled(m, items, code, defs, refs)
    requires code' == code + Words(m, item) && defs' == Definitions(item, |code|) + defs
        && refs' == References(m, item, |code|) + refs
    ensures IsAssembled(m, items + [item], code', defs', refs')
  {
    AppendWords(m, items, item, code);
    AppendDefinitions(items, item, defs);
    AppendReferences(m, items, item, refs);
  }

  lemma AppendLabel<S>(m: Machine<S>, items: seq<Item>, l: Obj, code: seq<Word>, defs: seq<(Obj, nat)>,
      refs: seq<(Obj, nat)>)
    requires IsAssembled(m, items, code, defs, refs)
    ensures IsAssembled(m, items + [Label(l)], code, [(l, |code|)] + defs, refs)
  {
    assert code == code + Words(m, Label(l));
    AppendItem(m, items, Label(l), code, defs, refs, code, [(l, |code|)] + defs, refs);
  }

  // ----- combining -----

  lemma Single<S(!new)>(m: Machine<S>, p: Packet, c: Packet)
    requires IsPacket(m, p) && forall s: S :: Exec(m, p, s) == Exec(m, c, s)
    ensures StandsFor(m, Emit(p), [Emit(c)])
  {
  }

  lemma Merge<S(!new)>(m: Machine<S>, p: Packet, c: Packet, q: Packet, pending: seq<Item>)
    requires StandsFor(m, Emit(p), pending) && IsMerger(m, p, c, q)
    ensures StandsFor(m, Emit(q), pending + [Emit(c)])
  {
  }

  lemma Close<S(!new)>(m: Machine<S>, items: seq<Item>, segs: seq<seq<Item>>, item: Item, seg: seq<Item>)
    requires AllStandFor(m, items, segs) && StandsFor(m, item, seg)
    ensures AllStandFor(m, items + [item], segs + [seg]) && Concat(segs + [seg]) == Concat(segs) + seg
  {
  }

  // ----- resolving -----

  lemma PacketsOf<S(!new)>(m: Machine<S>, items: seq<Item>, segs: seq<seq<Item>>)
    requires AllStandFor(m, items, segs)
    ensures AllPackets(m, items)
  {
  }

  lemma {:induction false} SizeGrows(items: seq<Item>, i: nat, j: nat)
    requires i < j <= |items|
    ensures Size(items[..i]) + Width(items[i]) <= Size(items[..j]) <= Size(items)
    decreases j - i
  {
    SizeSplit(items, j - 1);
    if i < j - 1 {
      SizeGrows(items, i, j - 1);
    }
  }

  /** A word that lies in the instruction at index `j` is a label operand only if that instruction has one. */
  lemma SameSite<S>(m: Machine<S>, items: seq<Item>, j: nat, w: nat, l: Obj)
    requires AllPackets(m, items) && j < |items| && Size(items[..j]) <= w < Size(items[..j]) + Width(items[j])
    requires IsReferred(m, items, (l, w))
    ensures w == Size(items[..j]) + 1 && HasLabel(m, items[j]) && l == items[j].packet.obj
  {
    var j': nat :| IsReference(m, items, l, w, j');
    assert Width(items[j']) == 2;
    if j < j' {
      SizeGrows(items, j, j');
    } else if j' < j {
      SizeGrows(items, j', j);
    }
  }

  ghost predicate IsTarget(items: seq<Item>, r: (Obj, nat), word: Word) {
    Position(items, r.0) >= 0 && word == Offset(Position(items, r.0) - r.1)
  }

  /** The word `w` after the first `k` references were resolved. */
  ghost predicate IsPatched(items: seq<Item>, refs: seq<(Obj, nat)>, k: nat, w: nat, before: Word, word: Word)
    requires k <= |refs|
  {
    || (word == before && forall i :: 0 <= i < k ==> refs[i].1 != w)
    || exists i :: 0 <= i < k && refs[i].1 == w && IsTarget(items, refs[i], word)
  }

  ghost predicate AllPatched(items: seq<Item>, refs: seq<(Obj, nat)>, k: nat, before: seq<Word>, code: seq<Word>)
    requires k <= |refs|
  {
    && |before| == |code|
    && forall w {:trigger IsPatched(items, refs, k, w, before[w], code[w])} :: 0 <= w < |code| ==>
        IsPatched(items, refs, k, w, before[w], code[w])
  }

  ghost predicate WordResolved<S>(m: Machine<S>, items: seq<Item>, before: seq<Word>, code: seq<Word>, j: nat, w: nat)
    requires j < |items| && w < |before| == |code|
  {
    if HasLabel(m, items[j]) && w == Size(items[..j]) + 1 then IsTarget(items, (items[j].packet.obj, w), code[w])
        else code[w] == before[w]
  }

  lemma ResolveWord<S>(m: Machine<S>, items: seq<Item>, refs: seq<(Obj, nat)>, before: seq<Word>, code: seq<Word>,
      j: nat, w: nat)
    requires AllPackets(m, items) && AreReferences(m, items, refs) && |before| == |code|
    requires j < |items| && items[j].Emit? && Size(items[..j]) <= w < Size(items[..j]) + Width(items[j]) && w < |code|
    requires IsPatched(items, refs, |refs|, w, before[w], code[w])
    ensures WordResolved(m, items, before, code, j, w)
  {
    if i :| 0 <= i < |refs| && refs[i].1 == w && IsTarget(items, refs[i], code[w]) {
      assert refs[i] in refs && IsReferred(m, items, refs[i]);
      SameSite(m, items, j, w, refs[i].0);
    } else {
      assert IsCollected(m, items, refs, j);
    }
  }

  lemma ResolvedAt<S>(m: Machine<S>, items: seq<Item>, refs: seq<(Obj, nat)>, before: seq<Word>, code: seq<Word>,
      j: nat)
    requires AllPackets(m, items) && AreReferences(m, items, refs) && |before| == |code| == Size(items)
    requires j < |items| && IsPlaced(m, items, before, j, false)
    requires AllPatched(items, refs, |refs|, before, code)
    ensures IsPlaced(m, items, code, j, true)
    ensures HasLabel(m, items[j]) ==> Definition(items, items[j].packet.obj) >= 0
  {
    if items[j].Emit? {
      var at := Size(items[..j]);
      assert IsPatched(items, refs, |refs|, at, before[at], code[at]);
      ResolveWord(m, items, refs, before, code, j, at);
      if Width(items[j]) == 2 {
        assert IsPatched(items, refs, |refs|, at + 1, before[at + 1], code[at + 1]);
        ResolveWord(m, items, refs, before, code, j, at + 1);
      }
    }
  }

  lemma Patch(items: seq<Item>, refs: seq<(Obj, nat)>, k: nat, before: seq<Word>, code: seq<Word>, distance: int)
    requires k < |refs| && AllPatched(items, refs, k, before, code) && refs[k].1 < |code|
    requires IsTarget(items, refs[k], Offset(distance))
    ensures AllPatched(items, refs, k + 1, before, code[refs[k].1 := Offset(distance)])
  {
    var code' := code[refs[k].1 := Offset(distance)];
    forall w | 0 <= w < |code| ensures IsPatched(items, refs, k + 1, w, before[w], code'[w]) {
      assert IsPatched(items, refs, k, w, before[w], code[w]);
    }
  }

  lemma Resolved<S>(m: Machine<S>, items: seq<Item>, refs: seq<(Obj, nat)>, before: seq<Word>, code: seq<Word>)
    requires AllPackets(m, items) && AreReferences(m, items, refs) && IsLaidOut(m, items, before, false)
        && |code| == |before|
    requires AllPatched(items, refs, |refs|, before, code)
    ensures IsLaidOut(m, items, code, true) && AllDefined(m, items)
  {
    forall j | 0 <= j < |items| ensures IsPlaced(m, items, code, j, true) {
      assert IsPlaced(m, items, before, j, false);
      ResolvedAt(m, items, refs, before, code, j);
    }
    forall j | 0 <= j < |items| && HasLabel(m, items[j]) ensures Definition(items, items[j].packet.obj) >= 0 {
      assert IsPlaced(m, items, before, j, false);
      ResolvedAt(m, items, refs, before, code, j);
    }
  }

  lemma ReferenceInside<S>(m: Machine<S>, items: seq<Item>, l: Obj, o: nat)
    requires AllPackets(m, items) && IsReferred(m, items, (l, o))
    ensures o < Size(items)
  {
    var j: nat :| IsReference(m, items, l, o, j);
    SizeSplit(items, j);
  }

  lemma SkipLabels(items: seq<Item>, j0: nat) returns (j: nat)
    requires j0 <= |items| && Size(items[..j0]) < Size(items)
    ensures j0 <= j < |items| && items[j].Emit? && Size(items[..j]) == Size(items[..j0])
  {
    j := j0;
    assert items[..|items|] == items;
    while items[j].Label?
      invariant j0 <= j < |items| && Size(items[..j]) == Size(items[..j0])
      decreases |items| - j
    {
      SizeSplit(items, j);
      j := j + 1;
    }
  }

  /** After the items before `j0` comes an instruction word and as many operands as it has. */
  lemma NextInsn<S>(m: Machine<S>, items: seq<Item>, code: seq<Word>, j0: nat) returns (j: nat)
    requires IsLaidOut(m, items, code, true) && AllPackets(m, items) && j0 <= |items| && Size(items[..j0]) < |code|
    ensures j <= |items| && code[Size(items[..j0])].Op?
    ensures var argc := m.info(code[Size(items[..j0])].insn).argc;
            argc <= 1 && Size(items[..j]) == Size(items[..j0]) + 1 + argc <= |code|
  {
    j := SkipLabels(items, j0);
    assert IsPlaced(m, items, code, j, true) && IsPacket(m, items[j].packet);
    SizeSplit(items, j);
    j := j + 1;
  }

  // ----- finished code -----

  /** The finished code and what it was made from. */
  ghost predicate IsFinished<S(!new)>(m: Machine<S>, program: seq<Item>, items: seq<Item>, segs: seq<seq<Item>>,
      code: seq<Word>) {
    AllStandFor(m, items, segs) && program == Concat(segs) && IsLaidOut(m, items, code, true) && AllDefined(m, items)
  }

  /** Finished code runs like the program that was put, from its start and from each of its labels, for any
      number of jumps. */
  lemma FinishedRuns<S(!new)>(m: Machine<S>, program: seq<Item>, items: seq<Item>, segs: seq<seq<Item>>,
      code: seq<Word>, s: S, jumps: nat)
    requires IsFinished(m, program, items, segs, code)
    ensures RunCode(m, code, 0, s, [], jumps) == Run(m, program, 0, s, [], jumps)
    ensures forall l: Obj {:trigger Definition(program, l)} :: Definition(program, l) >= 0 ==>
              && 0 <= Position(items, l) <= |code|
              && RunCode(m, code, Position(items, l), s, [], jumps) ==
                  Run(m, program, Definition(program, l), s, [], jumps)
  {
    PacketsOf(m, items, segs);
    assert Targets(items, []) == [];
    assert Size(items[..0]) == 0 && Concat(segs[..0]) == [];
    CodeRuns(m, items, code, 0, s, [], jumps);
    CombinedRuns(m, items, segs, 0, s, [], jumps);
    forall l: Obj | Definition(program, l) >= 0
      ensures 0 <= Position(items, l) <= |code|
      ensures RunCode(m, code, Position(items, l), s, [], jumps) ==
          Run(m, program, Definition(program, l), s, [], jumps)
    {
      LabelRuns(m, program, items, segs, code, s, jumps, l);
    }
  }

  lemma LabelRuns<S(!new)>(m: Machine<S>, program: seq<Item>, items: seq<Item>, segs: seq<seq<Item>>, code: seq<Word>,
      s: S, jumps: nat, l: Obj)
    requires IsFinished(m, program, items, segs, code) && Definition(program, l) >= 0
    ensures 0 <= Position(items, l) <= |code|
    ensures RunCode(m, code, Position(items, l), s, [], jumps) == Run(m, program, Definition(program, l), s, [], jumps)
  {
    PacketsOf(m, items, segs);
    assert Targets(items, []) == [];
    forall j | 0 <= j < |items| ensures KeepsLabels(items[j], segs[j]) {
      assert StandsFor(m, items[j], segs[j]);
    }
    DefinitionsMatch(items, segs, l);
    var d := Definition(items, l);
    SizeSplit(items, d);
    CodeRuns(m, items, code, d, s, [], jumps);
    CombinedRuns(m, items, segs, d, s, [], jumps);
  }

  class CodeBuilder<!S(!new)> {
    const machine: Machine<S>
    var code: array<Word>
    var size: nat
    var packet: Packet
    var labelDefs: seq<(Obj, nat)>
    var labelRefs: seq<(Obj, nat)>
    /** Everything put so far, the items laid out, the part of the program each stands for, and the part the
        pending packet stands for. */
    ghost var program: seq<Item>
    ghost var items: seq<Item>
    ghost var segs: seq<seq<Item>>
    ghost var pending: seq<Item>

    ghost predicate Valid()
      reads this, code
    {
      && size < code.Length
      && IsAssembled(machine, items, code[..size], labelDefs, labelRefs)
      && IsCombined(machine, program, items, segs, pending, packet)
    }

    /** What could be combined is. */
    ghost predicate Greedy()
      reads this`items, this`segs, this`pending, this`packet
    {
      IsGreedy(machine, items, segs, pending, packet)
    }

    constructor (machine: Machine<S>, capacity: nat)
      requires capacity > 0
      ensures Valid() && Greedy() && this.machine == machine && program == [] && fresh(code)
    {
      this.machine := machine;
      code := new Word[capacity](_ => Op(Nop, 0, 0));
      size := 0;
      packet := EMPTY_PACKET;
      labelDefs, labelRefs := [], [];
      program, items, segs, pending := [], [], [], [];
    }

    /** Appends a word; the array doubles when it is full. */
    method Push(word: Word)
      requires size < code.Length
      modifies this`size, this`code, code
      ensures size < code.Length && code[..size] == old(code[..size]) + [word]
      ensures code == old(code) || fresh(code)
    {
      code[size] := word;
      size := size + 1;
      if size >= code.Length {
        var next := new Word[size * 2](_ => Op(Nop, 0, 0));
        forall i | 0 <= i < size {
          next[i] := code[i];
        }
        code := next;
      }
    }

    /** Lays out the pending packet. */
    method Flush()
      requires Valid() && Greedy()
      modifies this, code
      ensures Valid() && program == old(program) && packet == EMPTY_PACKET && pending == []
      ensures AllMade(machine, items, segs) && IsTight(machine, items, segs)
      ensures items == if old(packet).kind == Empty then old(items) else old(items) + [Emit(old(packet))]
      ensures code == old(code) || fresh(code)
    {
      if packet.kind == Empty {
        return;
      }
      ghost var before, refs := code[..size], labelRefs;
      Close(machine, items, segs, Emit(packet), pending);
      LaidOutStaysGreedy(machine, items, segs, pending, packet);
      PushPacket();
      AppendItem(machine, items, Emit(packet), before, labelDefs, refs, code[..size], labelDefs, labelRefs);
      items, segs, pending := items + [Emit(packet)], segs + [pending], [];
      packet := EMPTY_PACKET;
    }

    /** The words of the pending packet; a label operand is noted as a reference and left zero. */
    method PushPacket()
      requires size < code.Length && packet.kind != Empty && IsPacket(machine, packet)
      modifies this`size, this`code, this`labelRefs, code
      ensures size < code.Length && code[..size] == old(code[..size]) + Words(machine, Emit(packet))
      ensures labelRefs == References(machine, Emit(packet), old(size)) + old(labelRefs)
      ensures code == old(code) || fresh(code)
    {
      Push(Op(packet.insn, packet.arg0, packet.arg1));
      if packet.kind == Argument1 {
        if machine.info(packet.insn).isLabel {
          labelRefs := [(packet.obj, size)] + labelRefs;
          Push(Offset(0));
        } else {
          Push(Data(packet.obj));
        }
      }
    }

    /** Puts an instruction: it becomes the pending packet, or is combined with it. */
    method Put(c: Packet)
      requires Valid() && Greedy() && IsSound(machine) && IsPacket(machine, c)
      modifies this, code
      ensures Valid() && Greedy() && program == old(program) + [Emit(c)]
      ensures code == old(code) || fresh(code)
    {
      if c.insn == Leave && packet.insn == Leave {
        Combined(AddLeaves, c);
        return;
      }
      if c.insn == Undef && packet.insn == Undef {
        Combined(DropUndef, c);
        return;
      }
      if c.insn == Const {
        NotInTable(machine, packet.insn, c);
        if c.obj.Fixnum? && FitsInsn(c.obj.value) {
          Replace(c, Small(c));
        } else {
          Replace(c, c);
        }
        return;
      }
      for i := 0 to |machine.table|
        invariant forall k :: 0 <= k < i ==> !Matches(machine.table[k], packet.insn, c.insn)
      {
        var entry := machine.table[i];
        if entry.current == c.insn && entry.previous == packet.insn {
          assert IsFirstEntry(machine, packet.insn, c.insn, i);
          Combined(Combine(entry), c);
          return;
        }
      }
      NotInTable(machine, packet.insn, c);
      Replace(c, c);
    }

    /** Combines the next packet with the pending one. */
    method Combined(rule: Rule, c: Packet)
      requires Valid() && Greedy() && IsSoundRule(machine, rule, packet.insn, c.insn) && IsPacket(machine, c)
      requires IsRule(machine, packet.insn, c, rule)
      modifies this`packet, this`pending, this`program
      ensures Valid() && Greedy() && program == old(program) + [Emit(c)]
    {
      CombinedIsMade(machine, packet, pending, rule, c);
      var merged := Apply(machine, rule, packet, c);
      Merge(machine, packet, c, merged, pending);
      packet := merged;
      program, pending := program + [Emit(c)], pending + [Emit(c)];
    }

    /** Lays out the pending packet and makes `p`, which does what `c` does, the pending one. */
    method Replace(c: Packet, p: Packet)
      requires Valid() && IsPacket(machine, p) && forall s: S :: Exec(machine, p, s) == Exec(machine, c, s)
      requires Greedy() && p == Fresh(c) && !IsCombinable(machine, packet.insn, c)
      modifies this, code
      ensures Valid() && Greedy() && program == old(program) + [Emit(c)]
      ensures code == old(code) || fresh(code)
    {
      Flush();
      Single(machine, p, c);
      packet := p;
      program, pending := program + [Emit(c)], [Emit(c)];
    }

    method LabelSet(l: Obj)
      requires Valid() && Greedy()
      modifies this, code
      ensures Valid() && Greedy() && program == old(program) + [Label(l)]
      ensures code == old(code) || fresh(code)
    {
      Flush();
      AddLabel(l);
    }

    method AddLabel(l: Obj)
      requires Valid() && packet == EMPTY_PACKET && pending == []
      requires AllMade(machine, items, segs) && IsTight(machine, items, segs)
      modifies this`labelDefs, this`items, this`segs, this`program
      ensures Valid() && Greedy() && program == old(program) + [Label(l)]
    {
      AppendLabel(machine, items, l, code[..size], labelDefs, labelRefs);
      Close(machine, items, segs, Label(l), [Label(l)]);
      LabelStaysGreedy(machine, items, segs, l);
      labelDefs := [(l, size)] + labelDefs;
      items, segs, program := items + [Label(l)], segs + [[Label(l)]], program + [Label(l)];
    }

    /** Fills in the label operands; fails when a label has no definition. */
    method Resolve() returns (ok: bool)
      requires Valid()
      modifies code
      ensures ok <==> AllDefined(machine, items)
      ensures ok ==> IsLaidOut(machine, items, code[..size], true)
    {
      ghost var before := code[..size];
      PacketsOf(machine, items, segs);
      for k := 0 to |labelRefs|
        invariant AllPatched(items, labelRefs, k, before, code[..size])
      {
        ghost var now := code[..size];
        var (l, o) := labelRefs[k];
        assert labelRefs[k] in labelRefs && IsReferred(machine, items, labelRefs[k]);
        var dest := Assq(labelDefs, l);
        assert dest == Position(items, l);
        if dest < 0 {
          return false;
        }
        ReferenceInside(machine, items, l, o);
        code[o] := Offset(dest - o);
        Patch(items, labelRefs, k, before, now, dest - o);
        assert code[..size] == now[o := Offset(dest - o)];
      }
      Resolved(machine, items, labelRefs, before, code[..size]);
      return true;
    }

    /** Copies the code, one instruction at a time. */
    method Copy() returns (ret: array<Word>)
      requires size <= code.Length && IsLaidOut(machine, items, code[..size], true) && AllPackets(machine, items)
      ensures fresh(ret) && ret[..] == code[..size]
    {
      ret := new Word[size](_ => Op(Nop, 0, 0));
      var i: nat := 0;
      ghost var j: nat, words := 0, code[..size];
      while i < size
        invariant j <= |items| && i == Size(items[..j]) <= size
        invariant forall k :: 0 <= k < i ==> ret[k] == words[k]
      {
        j := NextInsn(machine, items, words, j);
        var argc := machine.info(code[i].insn).argc;
        ret[i] := code[i];
        if argc > 0 {
          ret[i + 1] := code[i + 1];
        }
        i := i + 1 + argc;
      }
      assert ret[..] == words;
    }

    /** Puts the last instruction and lays everything out. */
    method End(last: Insn)
      requires Valid() && Greedy() && IsSound(machine)
      requires last != Nop ==> IsPacket(machine, Packet(last, Argument0, 0, 0, Ref(0)))
      modifies this, code
      ensures Valid() && packet == EMPTY_PACKET && pending == [] && (code == old(code) || fresh(code))
      ensures program == old(program) + if last == Nop then [] else [Emit(Packet(last, Argument0, 0, 0, Ref(0)))]
      ensures AllMade(machine, items, segs) && IsTight(machine, items, segs)
    {
      if last != Nop {
        Put(Packet(last, Argument0, 0, 0, Ref(0)));
      }
      Flush();
    }

    /** Ends the code with `last`, unless it is NOP, resolves the labels and replaces the code by its copy. */
    method FinishBuilder(last: Insn) returns (ok: bool)
      requires Valid() && Greedy() && IsSound(machine)
      requires last != Nop ==> IsPacket(machine, Packet(last, Argument0, 0, 0, Ref(0)))
      modifies this, code
      ensures program == old(program) + if last == Nop then [] else [Emit(Packet(last, Argument0, 0, 0, Ref(0)))]
      ensures ok <==> AllDefined(machine, items)
      ensures ok ==> IsFinished(machine, program, items, segs, code[..])
      ensures AllMade(machine, items, segs) && IsTight(machine, items, segs)
      ensures ok ==> size == code.Length && labelDefs == [] && labelRefs == [] && packet == EMPTY_PACKET
    {
      End(last);
      ok := Resolve();
      if ok {
        PacketsOf(machine, items, segs);
        assert program == Concat(segs);
        code := Copy();
        labelDefs, labelRefs, packet := [], [], EMPTY_PACKET;
      }
    }
  }
}
