/**
 Instruction streams with labels, and what executing them means (src/code.c, src/instruction.c and the
 operand fetches of src/vm.c).
 */
module Instructions {
  /** An operand: a small integer, or any other object or label by its identity. */
  datatype Obj = Fixnum(value: int) | Ref(id: nat)

  /** `None` is the instruction of the empty packet. */
  datatype Insn = Nop | Undef | Const | Consti | Leave | None | Other(code: nat)

  datatype PacketType = Empty | Argument0 | Argument1

  datatype Packet = Packet(insn: Insn, kind: PacketType, arg0: int, arg1: int, obj: Obj)

  datatype Info = Info(values: nat, argc: nat, isLabel: bool)

  datatype Entry = Entry(current: Insn, previous: Insn, kind: PacketType, next: Insn)

  datatype Option<T> = Absent | Present(value: T)

  /** What one instruction does to the machine: go on, branch to its label, remember its label as a
      continuation (FRAME), or give control to the latest continuation (RET and the calls). */
  datatype Outcome<S> = Fall(state: S) | Branch(state: S) | Save(state: S) | Return(state: S)

  /** A virtual machine: the instruction table, the combinations and the meaning of every instruction. */
  datatype Machine<!S> = Machine(info: Insn -> Info, table: seq<Entry>,
      meaning: (Insn, int, int, Option<Obj>, S) -> Outcome<S>)

  datatype Item = Emit(packet: Packet) | Label(name: Obj)

  /** `Mixed` stands for a saved continuation in the middle of a sequence. */
  datatype Effect<S> =
    | Next(state: S)
    | Goto(target: Obj, state: S)
    | Saved(target: Obj, state: S)
    | Back(state: S)
    | Mixed

  ghost predicate IsPacket<S>(m: Machine<S>, p: Packet) {
    var info := m.info(p.insn);
    && p.insn != None && info.argc <= 1 && info.values <= 2 && (info.isLabel ==> info.argc == 1)
    && p.kind == if info.argc == 0 then Argument0 else Argument1
  }

  ghost function Exec<S>(m: Machine<S>, p: Packet, s: S): (e: Effect<S>)
    ensures !e.Mixed?
  {
    EffectOf(m, p, m.meaning(p.insn, p.arg0, p.arg1, OperandOf(m, p), s))
  }

  /** The operand a machine sees apart from its label. */
  ghost function OperandOf<S>(m: Machine<S>, p: Packet): Option<Obj> {
    if m.info(p.insn).argc == 1 && !m.info(p.insn).isLabel then Present(p.obj) else Absent
  }

  ghost function EffectOf<S>(m: Machine<S>, p: Packet, o: Outcome<S>): (e: Effect<S>)
    ensures !e.Mixed?
  {
    match o
    case Fall(s') => Next(s')
    case Branch(s') => if m.info(p.insn).isLabel then Goto(p.obj, s') else Back(s')
    case Save(s') => if m.info(p.insn).isLabel then Saved(p.obj, s') else Next(s')
    case Return(s') => Back(s')
  }

  ghost function Then<S>(m: Machine<S>, e: Effect<S>, c: Packet): Effect<S> {
    match e
    case Next(s') => Exec(m, c, s')
    case Saved(_, _) => Mixed
    case _ => e
  }

  ghost function ExecAll<S>(m: Machine<S>, seg: seq<Item>, s: S): Effect<S>
    requires AllEmits(seg)
  {
    if seg == [] then Next(s) else Then(m, ExecAll(m, seg[..|seg| - 1], s), seg[|seg| - 1].packet)
  }

  ghost predicate AllEmits(seg: seq<Item>) {
    forall i :: 0 <= i < |seg| ==> seg[i].Emit?
  }

  /** Where the source finds a label: its latest definition, or -1. */
  ghost function Definition(items: seq<Item>, l: Obj): (d: int)
    ensures -1 <= d < |items| && (d >= 0 ==> items[d] == Label(l))
  {
    if items == [] then -1
    else if items[|items| - 1] == Label(l) then |items| - 1
    else Definition(items[..|items| - 1], l)
  }

  /** How a run ends: it leaves the code, reaches its end, meets an undefined label or malformed code, or has
      made the given number of jumps. */
  datatype Result<S> = Exited(state: S) | AtEnd(state: S) | Undefined | Stopped(state: S, depth: nat)

  /** Runs the items from index `i` for at most `jumps` jumps. */
  ghost function Run<S>(m: Machine<S>, items: seq<Item>, i: nat, s: S, frames: seq<Obj>, jumps: nat): Result<S>
    requires i <= |items|
    decreases jumps, |items| - i, 1
  {
    if i == |items| then AtEnd(s)
    else match items[i]
      case Label(_) => Run(m, items, i + 1, s, frames, jumps)
      case Emit(p) => Follow(m, items, i + 1, Exec(m, p, s), frames, jumps)
  }

  /** Goes on after an effect; `next` is the index after the instruction. */
  ghost function Follow<S>(m: Machine<S>, items: seq<Item>, next: nat, e: Effect<S>, frames: seq<Obj>,
      jumps: nat): Result<S>
    requires next <= |items|
    decreases jumps, |items| - next, 2
  {
    match e
    case Next(s') => Run(m, items, next, s', frames, jumps)
    case Saved(l, s') => Run(m, items, next, s', frames + [l], jumps)
    case Goto(l, s') => Transfer(m, items, l, s', frames, jumps)
    case Back(s') => if frames == [] then Exited(s')
        else Transfer(m, items, frames[|frames| - 1], s', frames[..|frames| - 1], jumps)
    case Mixed => Undefined
  }

  ghost function Transfer<S>(m: Machine<S>, items: seq<Item>, l: Obj, s: S, frames: seq<Obj>, jumps: nat): Result<S>
    decreases jumps, 0, 0
  {
    if jumps == 0 then Stopped(s, |frames|)
    else if Definition(items, l) < 0 then Undefined
    else Run(m, items, Definition(items, l), s, frames, jumps - 1)
  }

  // ----- finished code -----

  datatype Word = Op(insn: Insn, arg0: int, arg1: int) | Data(obj: Obj) | Offset(distance: int)

  /** Runs finished code: a label operand holds the distance from itself to its target. */
  ghost function RunCode<S>(m: Machine<S>, code: seq<Word>, pc: int, s: S, frames: seq<int>, jumps: nat): Result<S>
    decreases jumps, |code| - pc, 1
  {
    if pc == |code| then AtEnd(s)
    else if !(0 <= pc < |code|) || !code[pc].Op? then Undefined
    else
      var Op(insn, arg0, arg1) := code[pc];
      var info := m.info(insn);
      if info.argc == 0 then
        FollowCode(m, code, pc + 1, Absent, m.meaning(insn, arg0, arg1, Absent, s), frames, jumps)
      else if pc + 1 == |code| then Undefined
      else
        match code[pc + 1]
        case Offset(distance) =>
          if !info.isLabel then Undefined
          else FollowCode(m, code, pc + 2, Present(pc + 1 + distance), m.meaning(insn, arg0, arg1, Absent, s), frames,
              jumps)
        case Data(obj) =>
          if info.isLabel then Undefined
          else FollowCode(m, code, pc + 2, Absent, m.meaning(insn, arg0, arg1, Present(obj), s), frames, jumps)
        case Op(_, _, _) => Undefined
  }

  ghost function FollowCode<S>(m: Machine<S>, code: seq<Word>, next: int, target: Option<int>, o: Outcome<S>,
      frames: seq<int>, jumps: nat): Result<S>
    requires next <= |code|
    decreases jumps, |code| - next, 2
  {
    match o
    case Fall(s') => RunCode(m, code, next, s', frames, jumps)
    case Save(s') => RunCode(m, code, next, s', if target.Present? then frames + [target.value] else frames, jumps)
    case Branch(s') => if target.Present? then JumpTo(m, code, target.value, s', frames, jumps)
        else Resume(m, code, s', frames, jumps)
    case Return(s') => Resume(m, code, s', frames, jumps)
  }

  ghost function Resume<S>(m: Machine<S>, code: seq<Word>, s: S, frames: seq<int>, jumps: nat): Result<S>
    decreases jumps, 0, 1
  {
    if frames == [] then Exited(s) else JumpTo(m, code, frames[|frames| - 1], s, frames[..|frames| - 1], jumps)
  }

  ghost function JumpTo<S>(m: Machine<S>, code: seq<Word>, target: int, s: S, frames: seq<int>, jumps: nat): Result<S>
    decreases jumps, 0, 0
  {
    if jumps == 0 then Stopped(s, |frames|) else RunCode(m, code, target, s, frames, jumps - 1)
  }
}

/** Replacing sequences of instructions by single ones, and laying instructions out with resolved labels. */
module Peephole {
  import opened Instructions

  // ----- combining -----

  /** `item` stands for the items `seg`: one label for itself, one instruction for instructions only. */
  ghost predicate StandsFor<S(!new)>(m: Machine<S>, item: Item, seg: seq<Item>) {
    match item
    case Label(l) => seg == [item]
    case Emit(p) => IsPacket(m, p) && seg != [] && AllEmits(seg) && forall s: S :: Exec(m, p, s) == ExecAll(m, seg, s)
  }

  ghost predicate AllStandFor<S(!new)>(m: Machine<S>, items: seq<Item>, segs: seq<seq<Item>>) {
    |items| == |segs| && forall j :: 0 <= j < |items| ==> StandsFor(m, items[j], segs[j])
  }

  ghost function Concat(segs: seq<seq<Item>>): seq<Item> {
    if segs == [] then [] else Concat(segs[..|segs| - 1]) + segs[|segs| - 1]
  }

  lemma {:induction false} ConcatAt(segs: seq<seq<Item>>, j: nat)
    requires j < |segs|
    ensures |Concat(segs[..j])| + |segs[j]| == |Concat(segs[..j + 1])| <= |Concat(segs)|
    ensures Concat(segs)[|Concat(segs[..j])|..|Concat(segs[..j + 1])|] == segs[j]
    decreases |segs|
  {
    var n := |segs| - 1;
    assert segs[..j + 1][..j] == segs[..j];
    if j == n {
      assert segs[..n + 1] == segs;
    } else {
      ConcatAt(segs[..n], j);
      assert segs[..n][..j] == segs[..j] && segs[..n][..j + 1] == segs[..j + 1];
    }
  }

  lemma DefinitionAfter(before: seq<Item>, seg: seq<Item>, item: Item, l: Obj)
    requires KeepsLabels(item, seg)
    ensures Definition(before + seg, l) == if item == Label(l) then |before| else Definition(before, l)
  {
    if item.Label? {
      assert (before + seg)[..|before|] == before;
    } else {
      NotInEmits(before, seg, l);
    }
  }

  ghost predicate KeepsLabels(item: Item, seg: seq<Item>) {
    if item.Label? then seg == [item] else AllEmits(seg)
  }

  ghost predicate AllKeepLabels(items: seq<Item>, segs: seq<seq<Item>>) {
    |items| == |segs| && forall j {:trigger KeepsLabels(items[j], segs[j])} :: 0 <= j < |items| ==>
        KeepsLabels(items[j], segs[j])
  }

  /** Every label is found at the matching place. */
  lemma {:induction false} DefinitionsMatch(items: seq<Item>, segs: seq<seq<Item>>, l: Obj)
    requires AllKeepLabels(items, segs)
    ensures var d, d' := Definition(items, l), Definition(Concat(segs), l);
            (d < 0 <==> d' < 0) && (d >= 0 ==> d' == |Concat(segs[..d])|)
    decreases |items|
  {
    if items != [] {
      var n := |items| - 1;
      forall j | 0 <= j < n ensures KeepsLabels(items[..n][j], segs[..n][j]) {
        assert KeepsLabels(items[j], segs[j]);
      }
      DefinitionsMatch(items[..n], segs[..n], l);
      assert KeepsLabels(items[n], segs[n]);
      DefinitionAfter(Concat(segs[..n]), segs[n], items[n], l);
      var d := Definition(items[..n], l);
      if d >= 0 {
        assert segs[..n][..d] == segs[..d];
      }
    }
  }

  lemma {:induction false} NotInEmits(before: seq<Item>, seg: seq<Item>, l: Obj)
    requires AllEmits(seg)
    ensures Definition(before + seg, l) == Definition(before, l)
    decreases |seg|
  {
    if seg == [] {
      assert before + seg == before;
    } else {
      NotInEmits(before, seg[..|seg| - 1], l);
      assert (before + seg)[..|before| + |seg| - 1] == before + seg[..|seg| - 1];
    }
  }

  /** Running through a sequence of instructions follows its joint effect. */
  lemma {:induction false} RunAll<S>(m: Machine<S>, items: seq<Item>, i: nat, n: nat, s: S, frames: seq<Obj>,
      jumps: nat)
    requires i + n <= |items| && n > 0 && AllEmits(items[i..i + n]) && !ExecAll(m, items[i..i + n], s).Mixed?
    ensures Run(m, items, i, s, frames, jumps) == Follow(m, items, i + n, ExecAll(m, items[i..i + n], s), frames, jumps)
    decreases n
  {
    var seg := items[i..i + n];
    assert seg[..n - 1] == items[i..i + n - 1];
    if n > 1 {
      RunAll(m, items, i, n - 1, s, frames, jumps);
    }
  }

  /** Combining is invisible: from every place and for any number of jumps, the combined items run like the
      items they stand for. */
  lemma {:induction false} CombinedRuns<S(!new)>(m: Machine<S>, items: seq<Item>, segs: seq<seq<Item>>, j: nat, s: S,
      frames: seq<Obj>, jumps: nat)
    requires AllStandFor(m, items, segs) && j <= |items|
    ensures |Concat(segs[..j])| <= |Concat(segs)|
    ensures Run(m, items, j, s, frames, jumps) == Run(m, Concat(segs), |Concat(segs[..j])|, s, frames, jumps)
    decreases jumps, |items| - j, 1
  {
    if j == |items| {
      assert segs[..j] == segs;
    } else {
      ConcatAt(segs, j);
      var all, i, next := Concat(segs), |Concat(segs[..j])|, |Concat(segs[..j + 1])|;
      assert StandsFor(m, items[j], segs[j]);
      match items[j]
      case Label(_) =>
        assert all[i..next][0] == all[i];
        CombinedRuns(m, items, segs, j + 1, s, frames, jumps);
      case Emit(p) =>
        RunAll(m, all, i, |segs[j]|, s, frames, jumps);
        CombinedFollows(m, items, segs, j + 1, Exec(m, p, s), frames, jumps);
    }
  }

  lemma {:induction false} CombinedFollows<S(!new)>(m: Machine<S>, items: seq<Item>, segs: seq<seq<Item>>, j: nat,
      e: Effect<S>, frames: seq<Obj>, jumps: nat)
    requires AllStandFor(m, items, segs) && j <= |items|
    ensures |Concat(segs[..j])| <= |Concat(segs)|
    ensures Follow(m, items, j, e, frames, jumps) == Follow(m, Concat(segs), |Concat(segs[..j])|, e, frames, jumps)
    decreases jumps, |items| - j, 2
  {
    match e
    case Next(s') => CombinedRuns(m, items, segs, j, s', frames, jumps);
    case Saved(l, s') => CombinedRuns(m, items, segs, j, s', frames + [l], jumps);
    case Goto(l, s') => CombinedTransfers(m, items, segs, l, s', frames, jumps); ConcatPrefix(segs, j);
    case Back(s') =>
      if frames != [] {
        CombinedTransfers(m, items, segs, frames[|frames| - 1], s', frames[..|frames| - 1], jumps);
      }
      ConcatPrefix(segs, j);
    case Mixed => ConcatPrefix(segs, j);
  }

  lemma ConcatPrefix(segs: seq<seq<Item>>, j: nat)
    requires j <= |segs|
    ensures |Concat(segs[..j])| <= |Concat(segs)|
  {
    if j < |segs| {
      ConcatAt(segs, j);
    } else {
      assert segs[..j] == segs;
    }
  }

  lemma {:induction false} CombinedTransfers<S(!new)>(m: Machine<S>, items: seq<Item>, segs: seq<seq<Item>>, l: Obj,
      s: S, frames: seq<Obj>, jumps: nat)
    requires AllStandFor(m, items, segs)
    ensures Transfer(m, items, l, s, frames, jumps) == Transfer(m, Concat(segs), l, s, frames, jumps)
    decreases jumps, 0, 0
  {
    forall j | 0 <= j < |items| ensures KeepsLabels(items[j], segs[j]) {
      assert StandsFor(m, items[j], segs[j]);
    }
    DefinitionsMatch(items, segs, l);
    if jumps > 0 && Definition(items, l) >= 0 {
      CombinedRuns(m, items, segs, Definition(items, l), s, frames, jumps - 1);
    }
  }

  // ----- laying out -----

  function Width(item: Item): nat {
    if item.Label? then 0 else if item.packet.kind == Argument1 then 2 else 1
  }

  function Size(items: seq<Item>): nat {
    if items == [] then 0 else Size(items[..|items| - 1]) + Width(items[|items| - 1])
  }

  lemma {:induction false} SizeSplit(items: seq<Item>, j: nat)
    requires j < |items|
    ensures Size(items[..j]) + Width(items[j]) == Size(items[..j + 1]) <= Size(items)
    decreases |items|
  {
    var n := |items| - 1;
    assert items[..j + 1][..j] == items[..j];
    if j == n {
      assert items[..n + 1] == items;
    } else {
      SizeSplit(items[..n], j);
      assert items[..n][..j] == items[..j] && items[..n][..j + 1] == items[..j + 1];
    }
  }

  /** The position of a label in the code. */
  ghost function Position(items: seq<Item>, l: Obj): int {
    if Definition(items, l) < 0 then -1 else Size(items[..Definition(items, l)])
  }

  ghost predicate HasLabel<S>(m: Machine<S>, item: Item) {
    item.Emit? && m.info(item.packet.insn).isLabel
  }

  /** The words of the instruction at index `j`; a label operand is the distance to the label, or zero while
      labels are not yet resolved. */
  ghost predicate IsPlaced<S>(m: Machine<S>, items: seq<Item>, code: seq<Word>, j: nat, resolved: bool)
    requires j < |items|
  {
    items[j].Emit? ==>
      var p, o := items[j].packet, Size(items[..j]);
      && o + Width(items[j]) <= |code| && code[o] == Op(p.insn, p.arg0, p.arg1)
      && (p.kind == Argument1 ==>
            code[o + 1] == if !HasLabel(m, items[j]) then Data(p.obj)
                           else Offset(if resolved then Position(items, p.obj) - (o + 1) else 0))
  }

  ghost predicate IsLaidOut<S>(m: Machine<S>, items: seq<Item>, code: seq<Word>, resolved: bool) {
    && |code| == Size(items)
    && forall j {:trigger IsPlaced(m, items, code, j, resolved)} :: 0 <= j < |items| ==>
        IsPlaced(m, items, code, j, resolved)
  }

  ghost predicate AllPackets<S>(m: Machine<S>, items: seq<Item>) {
    forall j {:trigger items[j]} :: 0 <= j < |items| && items[j].Emit? ==> IsPacket(m, items[j].packet)
  }

  ghost predicate AllDefined<S>(m: Machine<S>, items: seq<Item>) {
    forall j {:trigger items[j]} :: 0 <= j < |items| && HasLabel(m, items[j]) ==>
        Definition(items, items[j].packet.obj) >= 0
  }

  ghost predicate AreDefined(items: seq<Item>, frames: seq<Obj>) {
    forall k :: 0 <= k < |frames| ==> Definition(items, frames[k]) >= 0
  }

  ghost function Targets(items: seq<Item>, frames: seq<Obj>): seq<int> {
    seq(|frames|, k requires 0 <= k < |frames| => Position(items, frames[k]))
  }

  /** Finished code runs like the items it was laid out from. */
  lemma {:induction false} CodeRuns<S(!new)>(m: Machine<S>, items: seq<Item>, code: seq<Word>, j: nat, s: S,
      frames: seq<Obj>, jumps: nat)
    requires IsLaidOut(m, items, code, true) && AllPackets(m, items) && AllDefined(m, items)
        && AreDefined(items, frames)
    requires j <= |items|
    ensures RunCode(m, code, Size(items[..j]), s, Targets(items, frames), jumps) == Run(m, items, j, s, frames, jumps)
    decreases jumps, |items| - j, 1
  {
    if j == |items| {
      assert items[..j] == items;
    } else {
      SizeSplit(items, j);
      assert IsPlaced(m, items, code, j, true);
      match items[j]
      case Label(_) => CodeRuns(m, items, code, j + 1, s, frames, jumps);
      case Emit(p) =>
        var o := m.meaning(p.insn, p.arg0, p.arg1, OperandOf(m, p), s);
        assert IsPacket(m, p);
        CodeFollows(m, items, code, j + 1, p, o, frames, jumps);
    }
  }

  lemma {:induction false} CodeFollows<S(!new)>(m: Machine<S>, items: seq<Item>, code: seq<Word>, j: nat, p: Packet,
      o: Outcome<S>, frames: seq<Obj>, jumps: nat)
    requires IsLaidOut(m, items, code, true) && AllPackets(m, items) && AllDefined(m, items)
        && AreDefined(items, frames)
    requires j <= |items| && Size(items[..j]) <= |code| && (m.info(p.insn).isLabel ==> Definition(items, p.obj) >= 0)
    ensures FollowCode(m, code, Size(items[..j]),
                       if m.info(p.insn).isLabel then Present(Position(items, p.obj)) else Absent,
                       o, Targets(items, frames), jumps)
            == Follow(m, items, j, EffectOf(m, p, o), frames, jumps)
    decreases jumps, |items| - j, 2
  {
    match EffectOf(m, p, o)
    case Next(s') => CodeRuns(m, items, code, j, s', frames, jumps);
    case Saved(l, s') =>
      assert Targets(items, frames + [l]) == Targets(items, frames) + [Position(items, l)];
      CodeRuns(m, items, code, j, s', frames + [l], jumps);
    case Goto(l, s') => CodeTransfers(m, items, code, l, s', frames, jumps);
    case Back(s') =>
      if frames != [] {
        var n := |frames| - 1;
        assert Targets(items, frames)[..n] == Targets(items, frames[..n]);
        CodeTransfers(m, items, code, frames[n], s', frames[..n], jumps);
      }
  }

  lemma {:induction false} CodeTransfers<S(!new)>(m: Machine<S>, items: seq<Item>, code: seq<Word>, l: Obj, s: S,
      frames: seq<Obj>, jumps: nat)
    requires IsLaidOut(m, items, code, true) && AllPackets(m, items) && AllDefined(m, items)
        && AreDefined(items, frames)
    requires Definition(items, l) >= 0
    ensures JumpTo(m, code, Position(items, l), s, Targets(items, frames), jumps) ==
        Transfer(m, items, l, s, frames, jumps)
    decreases jumps, 0, 0
  {
    if jumps > 0 {
      CodeRuns(m, items, code, Definition(items, l), s, frames, jumps - 1);
    }
  }
}
