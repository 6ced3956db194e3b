/**
 The tree map behind character sets (src/rbtree.c), on values.  Colours are kept exactly as the source keeps
 them, which after deletions is not always red-black, so the shape of a tree is the shape the source builds.
 */
module RedBlack {
  datatype Color = Red | Black

  datatype Tree = Leaf | Node(color: Color, left: Tree, key: nat, value: nat, right: Tree) {
    /** The colour of a missing node is black. */
    function ColorOf(): Color {
      if Leaf? then Black else color
    }

    function Colored(c: Color): Tree {
      if Leaf? then Leaf else this.(color := c)
    }
  }

  ghost function Entries(t: Tree): map<nat, nat> {
    match t
    case Leaf => map[]
    case Node(_, l, k, v, r) => Entries(l) + map[k := v] + Entries(r)
  }

  ghost predicate AllBelow(t: Tree, k: nat) {
    forall j {:trigger j in Entries(t)} :: j in Entries(t) ==> j < k
  }

  ghost predicate AllAbove(t: Tree, k: nat) {
    forall j {:trigger j in Entries(t)} :: j in Entries(t) ==> k < j
  }

  ghost predicate IsSearchTree(t: Tree) {
    match t
    case Leaf => true
    case Node(_, l, k, _, r) => IsSearchTree(l) && IsSearchTree(r) && AllBelow(l, k) && AllAbove(r, k)
  }

  /** Two search trees with the same entries. */
  ghost predicate Agree(t: Tree, u: Tree) {
    IsSearchTree(t) && IsSearchTree(u) && Entries(t) == Entries(u)
  }

  // ----- rotations -----

  function RotateLeft(t: Tree): Tree {
    if t.Node? && t.right.Node? then t.right.(left := t.(right := t.right.left)) else t
  }

  function RotateRight(t: Tree): Tree {
    if t.Node? && t.left.Node? then t.left.(right := t.(left := t.left.right)) else t
  }

  lemma OverrideAssociates(a: map<nat, nat>, b: map<nat, nat>, c: map<nat, nat>)
    ensures a + b + c == a + (b + c)
  {
  }

  lemma RotationEntries(t: Tree)
    requires t.Node? && t.right.Node?
    ensures Entries(t) == Entries(RotateLeft(t))
  {
    var a, x := Entries(t.left), map[t.key := t.value];
    var b, y, c := Entries(t.right.left), map[t.right.key := t.right.value], Entries(t.right.right);
    OverrideAssociates(a + x, b + y, c);
    OverrideAssociates(a + x, b, y);
  }

  lemma RotationOrder(t: Tree)
    requires t.Node? && t.right.Node?
    ensures IsSearchTree(t) <==> IsSearchTree(RotateLeft(t))
  {
    var r, u := t.right, RotateLeft(t);
    assert forall j {:trigger j in Entries(r)} :: j in Entries(r) <==>
        j in Entries(r.left) || j == r.key || j in Entries(r.right);
    assert forall j {:trigger j in Entries(u.left)} :: j in Entries(u.left) <==>
        j in Entries(t.left) || j == t.key || j in Entries(r.left);
    assert r.key in Entries(r) && t.key in Entries(u.left);
  }

  lemma RotateLeftAgrees(t: Tree)
    requires IsSearchTree(t)
    ensures Agree(t, RotateLeft(t))
  {
    if t.Node? && t.right.Node? {
      RotationEntries(t);
      RotationOrder(t);
    }
  }

  lemma RotateRightAgrees(t: Tree)
    requires IsSearchTree(t)
    ensures Agree(t, RotateRight(t))
  {
    if t.Node? && t.left.Node? {
      var u := RotateRight(t);
      assert RotateLeft(u) == t;
      RotationEntries(u);
      RotationOrder(u);
    }
  }

  lemma RecolorAgrees(t: Tree, c: Color)
    requires IsSearchTree(t)
    ensures Agree(t, t.Colored(c))
  {
  }

  /** Replacing a subtree by one that agrees with it. */
  lemma ReplaceLeft(t: Tree, l: Tree)
    requires t.Node? && IsSearchTree(t) && Agree(t.left, l)
    ensures Agree(t, t.(left := l))
  {
  }

  lemma ReplaceRight(t: Tree, r: Tree)
    requires t.Node? && IsSearchTree(t) && Agree(t.right, r)
    ensures Agree(t, t.(right := r))
  {
  }

  // ----- changing one entry below -----

  lemma UpdateFront(a: map<nat, nat>, b: map<nat, nat>, c: map<nat, nat>, k: nat, v: nat)
    requires k !in b && k !in c
    ensures a[k := v] + b + c == (a + b + c)[k := v] && (a - {k}) + b + c == (a + b + c) - {k}
  {
  }

  lemma UpdateBack(a: map<nat, nat>, b: map<nat, nat>, c: map<nat, nat>, k: nat, v: nat)
    requires k !in a && k !in b
    ensures a + b + c[k := v] == (a + b + c)[k := v] && a + b + (c - {k}) == (a + b + c) - {k}
  {
  }

  lemma UpdateLeft(t: Tree, l: Tree, k: nat, v: nat)
    requires t.Node? && IsSearchTree(t) && k < t.key && IsSearchTree(l)
    ensures Entries(l) == Entries(t.left)[k := v] ==>
              IsSearchTree(t.(left := l)) && Entries(t.(left := l)) == Entries(t)[k := v]
    ensures Entries(l) == Entries(t.left) - {k} ==>
              IsSearchTree(t.(left := l)) && Entries(t.(left := l)) == Entries(t) - {k}
  {
    UpdateFront(Entries(t.left), map[t.key := t.value], Entries(t.right), k, v);
  }

  lemma UpdateRight(t: Tree, r: Tree, k: nat, v: nat)
    requires t.Node? && IsSearchTree(t) && t.key < k && IsSearchTree(r)
    ensures Entries(r) == Entries(t.right)[k := v] ==>
              IsSearchTree(t.(right := r)) && Entries(t.(right := r)) == Entries(t)[k := v]
    ensures Entries(r) == Entries(t.right) - {k} ==>
              IsSearchTree(t.(right := r)) && Entries(t.(right := r)) == Entries(t) - {k}
  {
    UpdateBack(Entries(t.left), map[t.key := t.value], Entries(t.right), k, v);
  }

  lemma UpdateHere(t: Tree, v: nat)
    requires t.Node? && IsSearchTree(t)
    ensures IsSearchTree(t.(value := v)) && Entries(t.(value := v)) == Entries(t)[t.key := v]
  {
    UpdateMiddle(Entries(t.left), t.key, t.value, Entries(t.right), v);
  }

  lemma UpdateMiddle(a: map<nat, nat>, k: nat, u: nat, c: map<nat, nat>, v: nat)
    requires k !in c
    ensures a + map[k := v] + c == (a + map[k := u] + c)[k := v]
  {
  }

  // ----- insertion -----

  /** Where `fix_after_insertion` stands: finished, at the root of this subtree, or at a child of its red root. */
  datatype Alarm = Calm | Here | Below(isLeft: bool)

  /** One round of `fix_after_insertion` at the node `g`, coming from its left child. */
  function FixFromLeft(g: Tree, a: Alarm): (Tree, Alarm)
    requires g.Node?
  {
    match a
    case Calm => (g, Calm)
    case Here => (g, if g.color == Red then Below(true) else Calm)
    case Below(xLeft) =>
      if g.right.ColorOf() == Red then
        (g.(color := Red, left := g.left.Colored(Black), right := g.right.Colored(Black)), Here)
      else
        var l := if xLeft then g.left else RotateLeft(g.left);
        (RotateRight(g.(color := Red, left := l.Colored(Black))), Calm)
  }

  function FixFromRight(g: Tree, a: Alarm): (Tree, Alarm)
    requires g.Node?
  {
    match a
    case Calm => (g, Calm)
    case Here => (g, if g.color == Red then Below(false) else Calm)
    case Below(xLeft) =>
      if g.left.ColorOf() == Red then
        (g.(color := Red, left := g.left.Colored(Black), right := g.right.Colored(Black)), Here)
      else
        var r := if xLeft then RotateRight(g.right) else g.right;
        (RotateLeft(g.(color := Red, right := r.Colored(Black))), Calm)
  }

  lemma FixFromLeftAgrees(g: Tree, a: Alarm)
    requires g.Node? && IsSearchTree(g)
    ensures Agree(g, FixFromLeft(g, a).0)
  {
    if a.Below? {
      RotateLeftAgrees(g.left);
      var l := if a.isLeft || g.right.ColorOf() == Red then g.left else RotateLeft(g.left);
      RecolorAgrees(l, Black);
      ReplaceLeft(g, l.Colored(Black));
      var h := g.(left := l.Colored(Black));
      RecolorAgrees(h, Red);
      RotateRightAgrees(h.Colored(Red));
      RecolorAgrees(g.right, Black);
      ReplaceRight(h.Colored(Red), g.right.Colored(Black));
    }
  }

  lemma FixFromRightAgrees(g: Tree, a: Alarm)
    requires g.Node? && IsSearchTree(g)
    ensures Agree(g, FixFromRight(g, a).0)
  {
    if a.Below? {
      RotateRightAgrees(g.right);
      var r := if !a.isLeft || g.left.ColorOf() == Red then g.right else RotateRight(g.right);
      RecolorAgrees(r, Black);
      ReplaceRight(g, r.Colored(Black));
      var h := g.(right := r.Colored(Black));
      RecolorAgrees(h, Red);
      RotateLeftAgrees(h.Colored(Red));
      RecolorAgrees(g.left, Black);
      ReplaceLeft(h.Colored(Red), g.left.Colored(Black));
    }
  }

  /** A new node below the root, and the fixing of colours on the way up. */
  function Ins(t: Tree, k: nat, v: nat): (Tree, Alarm) {
    match t
    case Leaf => (Node(Red, Leaf, k, v, Leaf), Here)
    case Node(_, l, key, _, r) =>
      if k < key then
        var (l', a) := Ins(l, k, v);
        FixFromLeft(t.(left := l'), a)
      else if key < k then
        var (r', a) := Ins(r, k, v);
        FixFromRight(t.(right := r'), a)
      else (t.(value := v), Calm)
  }

  predicate Contains(t: Tree, k: nat) {
    match t
    case Leaf => false
    case Node(_, l, key, _, r) => if k < key then Contains(l, k) else if key < k then Contains(r, k) else true
  }

  /** Writing the value of an entry leaves the shape alone. */
  function SetValue(t: Tree, k: nat, v: nat): Tree {
    match t
    case Leaf => Leaf
    case Node(_, l, key, _, r) =>
      if k < key then t.(left := SetValue(l, k, v))
      else if key < k then t.(right := SetValue(r, k, v))
      else t.(value := v)
  }

  /** `rb_set` and the value written into the entry it returns. */
  function Set(t: Tree, k: nat, v: nat): Tree {
    if t.Leaf? then Node(Black, Leaf, k, v, Leaf)
    else if Contains(t, k) then SetValue(t, k, v)
    else
      var (u, a) := Ins(t, k, v);
      (if a == Below(true) then RotateRight(u) else u).Colored(Black)
  }

  lemma {:induction false} ContainsEntry(t: Tree, k: nat)
    requires IsSearchTree(t)
    ensures Contains(t, k) <==> k in Entries(t)
  {
    if t.Node? {
      ContainsEntry(t.left, k);
      ContainsEntry(t.right, k);
    }
  }

  lemma {:induction false} SetValueEntries(t: Tree, k: nat, v: nat)
    requires IsSearchTree(t) && k in Entries(t)
    ensures IsSearchTree(SetValue(t, k, v)) && Entries(SetValue(t, k, v)) == Entries(t)[k := v]
  {
    if k < t.key {
      SetValueEntries(t.left, k, v);
      UpdateLeft(t, SetValue(t.left, k, v), k, v);
    } else if t.key < k {
      SetValueEntries(t.right, k, v);
      UpdateRight(t, SetValue(t.right, k, v), k, v);
    } else {
      UpdateHere(t, v);
    }
  }

  lemma {:induction false} InsEntries(t: Tree, k: nat, v: nat)
    requires IsSearchTree(t)
    ensures IsSearchTree(Ins(t, k, v).0) && Entries(Ins(t, k, v).0) == Entries(t)[k := v]
  {
    if t.Node? {
      if k < t.key {
        InsEntries(t.left, k, v);
        var (l, a) := Ins(t.left, k, v);
        UpdateLeft(t, l, k, v);
        FixFromLeftAgrees(t.(left := l), a);
      } else if t.key < k {
        InsEntries(t.right, k, v);
        var (r, a) := Ins(t.right, k, v);
        UpdateRight(t, r, k, v);
        FixFromRightAgrees(t.(right := r), a);
      } else {
        UpdateHere(t, v);
      }
    }
  }

  /** Insertion adds one entry and keeps the order. */
  lemma SetEntries(t: Tree, k: nat, v: nat)
    requires IsSearchTree(t)
    ensures IsSearchTree(Set(t, k, v)) && Entries(Set(t, k, v)) == Entries(t)[k := v]
  {
    ContainsEntry(t, k);
    if t.Node? {
      if Contains(t, k) {
        SetValueEntries(t, k, v);
      } else {
        InsEntries(t, k, v);
        var u := Ins(t, k, v).0;
        RotateRightAgrees(u);
        RecolorAgrees(u, Black);
        RecolorAgrees(RotateRight(u), Black);
      }
    }
  }

  // ----- insertion keeps the tree red-black -----

  /** Every path down passes `n` black nodes. */
  predicate IsBalanced(t: Tree, n: nat) {
    match t
    case Leaf => n == 0
    case Node(c, l, _, _, r) =>
      if c == Red then IsBalanced(l, n) && IsBalanced(r, n) else n > 0 && IsBalanced(l, n - 1) && IsBalanced(r, n - 1)
  }

  /** No red node has a red child. */
  predicate NoRedRed(t: Tree) {
    match t
    case Leaf => true
    case Node(c, l, _, _, r) =>
      NoRedRed(l) && NoRedRed(r) && (c == Red ==> l.ColorOf() == Black && r.ColorOf() == Black)
  }

  ghost predicate IsRedBlack(t: Tree) {
    t.ColorOf() == Black && NoRedRed(t) && exists n: nat :: IsBalanced(t, n)
  }

  /** What is left to repair above a subtree: nothing, a red root that was black, or a red child of its red root. */
  predicate IsRepaired(t: Tree, u: Tree, a: Alarm, n: nat) {
    && u.Node? && IsBalanced(u, n)
    && match a
       case Calm => NoRedRed(u) && u.color == t.ColorOf()
       case Here => NoRedRed(u) && u.color == Red && t.ColorOf() == Black
       case Below(isLeft) =>
         && t.ColorOf() == u.color == Red && NoRedRed(u.left) && NoRedRed(u.right)
         && u.left.ColorOf() == (if isLeft then Red else Black) && u.right.ColorOf() == (if isLeft then Black else Red)
  }

  /** The children of the grandparent have `n` black nodes below each. */
  lemma FixLeftRepairs(t: Tree, l: Tree, a: Alarm, n: nat)
    requires t.Node? && NoRedRed(t) && IsBalanced(t, n) && IsRepaired(t.left, l, a, if t.color == Red then n else n - 1)
    ensures var (u, a') := FixFromLeft(t.(left := l), a); IsRepaired(t, u, a', n)
  {
    if a.Below? && t.right.ColorOf() == Black {
      var u := FixFromLeft(t.(left := l), a).0;
      assert IsBalanced(l.left, n - 1) && IsBalanced(l.right, n - 1) && IsBalanced(t.right, n - 1);
      assert !a.isLeft ==> IsBalanced(l.right.left, n - 1) && IsBalanced(l.right.right, n - 1);
      assert IsBalanced(u.left, n - 1) && IsBalanced(u.right, n - 1);
    }
  }

  lemma FixRightRepairs(t: Tree, r: Tree, a: Alarm, n: nat)
    requires t.Node? && NoRedRed(t) && IsBalanced(t, n)
        && IsRepaired(t.right, r, a, if t.color == Red then n else n - 1)
    ensures var (u, a') := FixFromRight(t.(right := r), a); IsRepaired(t, u, a', n)
  {
    if a.Below? && t.left.ColorOf() == Black {
      var u := FixFromRight(t.(right := r), a).0;
      assert IsBalanced(r.left, n - 1) && IsBalanced(r.right, n - 1) && IsBalanced(t.left, n - 1);
      assert a.isLeft ==> IsBalanced(r.left.left, n - 1) && IsBalanced(r.left.right, n - 1);
      assert IsBalanced(u.left, n - 1) && IsBalanced(u.right, n - 1);
    }
  }

  lemma {:induction false} InsRepairs(t: Tree, k: nat, v: nat, n: nat)
    requires NoRedRed(t) && IsBalanced(t, n) && !Contains(t, k)
    ensures IsRepaired(t, Ins(t, k, v).0, Ins(t, k, v).1, n)
  {
    if t.Node? {
      var n' := if t.color == Red then n else n - 1;
      if k < t.key {
        InsRepairs(t.left, k, v, n');
        FixLeftRepairs(t, Ins(t.left, k, v).0, Ins(t.left, k, v).1, n);
      } else {
        InsRepairs(t.right, k, v, n');
        FixRightRepairs(t, Ins(t.right, k, v).0, Ins(t.right, k, v).1, n);
      }
    }
  }

  lemma {:induction false} SetValueShape(t: Tree, k: nat, v: nat, n: nat)
    requires NoRedRed(t) && IsBalanced(t, n)
    ensures var u := SetValue(t, k, v); NoRedRed(u) && IsBalanced(u, n) && u.ColorOf() == t.ColorOf()
  {
    if t.Node? {
      var n' := if t.color == Red then n else n - 1;
      SetValueShape(t.left, k, v, n');
      SetValueShape(t.right, k, v, n');
    }
  }

  lemma SetIsRedBlack(t: Tree, k: nat, v: nat)
    requires IsRedBlack(t)
    ensures IsRedBlack(Set(t, k, v))
  {
    var n: nat :| IsBalanced(t, n);
    if t.Leaf? {
      assert IsBalanced(Set(t, k, v), 1);
    } else if Contains(t, k) {
      SetValueShape(t, k, v, n);
    } else {
      InsRepairs(t, k, v, n);
      var u := Ins(t, k, v).0;
      assert IsBalanced(u.Colored(Black), if u.color == Red then n + 1 else n);
    }
  }

  /** A red-black tree is not deep: half of its height are black nodes, and it has as many nodes as they force. */
  function Height(t: Tree): nat {
    if t.Leaf? then 0 else 1 + if Height(t.left) >= Height(t.right) then Height(t.left) else Height(t.right)
  }

  function Size(t: Tree): nat {
    if t.Leaf? then 0 else Size(t.left) + 1 + Size(t.right)
  }

  function TwoTo(n: nat): nat {
    if n == 0 then 1 else 2 * TwoTo(n - 1)
  }

  lemma {:induction false} BalancedIsShallow(t: Tree, n: nat)
    requires NoRedRed(t) && IsBalanced(t, n)
    ensures Height(t) <= 2 * n + (if t.ColorOf() == Red then 1 else 0) && TwoTo(n) <= Size(t) + 1
  {
    if t.Node? {
      var n' := if t.color == Red then n else n - 1;
      BalancedIsShallow(t.left, n');
      BalancedIsShallow(t.right, n');
    }
  }

  // ----- deletion -----

  /** The part of `fix_after_deletion` with a black sibling, for a short left child.  The source does not
      colour the sibling red when both its children are black.  The flag tells to go on with the parent. */
  function FixShortLeft(t: Tree): (Tree, bool)
    requires t.Node?
  {
    var s := t.right;
    if s.Leaf? || (s.left.ColorOf() == Black && s.right.ColorOf() == Black) then (t, true)
    else
      var sib := if s.right.ColorOf() == Black then RotateRight(s.(color := Red, left := s.left.Colored(Black))) else s;
      (RotateLeft(t.(color := Black, right := Promoted(sib, t.color, false))), false)
  }

  function FixShortRight(t: Tree): (Tree, bool)
    requires t.Node?
  {
    var s := t.left;
    if s.Leaf? || (s.left.ColorOf() == Black && s.right.ColorOf() == Black) then (t.(left := s.Colored(Red)), true)
    else
      var sib := if s.left.ColorOf() == Black then RotateLeft(s.(color := Red, right := s.right.Colored(Black))) else s;
      (RotateRight(t.(color := Black, left := Promoted(sib, t.color, true))), false)
  }

  /** The sibling takes the parent's colour, and its outer child becomes black. */
  function Promoted(sib: Tree, c: Color, outerLeft: bool): Tree {
    if sib.Leaf? then Leaf
    else if outerLeft then sib.(color := c, left := sib.left.Colored(Black))
    else sib.(color := c, right := sib.right.Colored(Black))
  }

  /** One round of `fix_after_deletion` at the parent of a short left child. */
  function ShortLeft(t: Tree): (Tree, bool)
    requires t.Node?
  {
    if t.right.ColorOf() == Red then
      var u := RotateLeft(t.(color := Red, right := t.right.Colored(Black)));
      (if u.left.Node? then u.(left := FixShortLeft(u.left).0) else u, false)
    else FixShortLeft(t)
  }

  function ShortRight(t: Tree): (Tree, bool)
    requires t.Node?
  {
    if t.left.ColorOf() == Red then
      var u := RotateRight(t.(color := Red, left := t.left.Colored(Black)));
      (if u.right.Node? then u.(right := FixShortRight(u.right).0) else u, false)
    else FixShortRight(t)
  }

  /** Goes on at the parent when the child is where the loop stands and is black. */
  function AfterLeft(t: Tree, short: bool): (Tree, bool)
    requires t.Node?
  {
    if short && t.left.ColorOf() == Black then ShortLeft(t) else (t, false)
  }

  function AfterRight(t: Tree, short: bool): (Tree, bool)
    requires t.Node?
  {
    if short && t.right.ColorOf() == Black then ShortRight(t) else (t, false)
  }

  function Least(t: Tree): (nat, nat)
    requires t.Node?
  {
    if t.left.Leaf? then (t.key, t.value) else Least(t.left)
  }

  /** Unlinks the node of the least key. */
  function DropLeast(t: Tree): (Tree, bool)
    requires t.Node?
  {
    if t.left.Leaf? then (t.right, t.color == Black)
    else
      var (l, short) := DropLeast(t.left);
      AfterLeft(t.(left := l), short)
  }

  /** `delete_entry`: a node with two children takes over its successor's key and value, and the successor's
      node is unlinked instead. */
  function DropRoot(t: Tree): (Tree, bool)
    requires t.Node?
  {
    if t.left.Node? && t.right.Node? then
      var (r, short) := DropLeast(t.right);
      var (k, v) := Least(t.right);
      AfterRight(t.(key := k, value := v, right := r), short)
    else (if t.left.Node? then t.left else t.right, t.color == Black)
  }

  function Drop(t: Tree, k: nat): (Tree, bool) {
    match t
    case Leaf => (Leaf, false)
    case Node(_, l, key, _, r) =>
      if k < key then
        var (l', short) := Drop(l, k);
        AfterLeft(t.(left := l'), short)
      else if key < k then
        var (r', short) := Drop(r, k);
        AfterRight(t.(right := r'), short)
      else DropRoot(t)
  }

  function Delete(t: Tree, k: nat): Tree {
    Drop(t, k).0
  }

  lemma PromotedAgrees(sib: Tree, c: Color, outerLeft: bool)
    requires IsSearchTree(sib)
    ensures Agree(sib, Promoted(sib, c, outerLeft))
  {
    if sib.Node? {
      RecolorAgrees(sib, c);
      RecolorAgrees(sib.left, Black);
      RecolorAgrees(sib.right, Black);
      ReplaceLeft(sib.Colored(c), sib.left.Colored(Black));
      ReplaceRight(sib.Colored(c), sib.right.Colored(Black));
    }
  }

  lemma FixShortLeftAgrees(t: Tree)
    requires t.Node? && IsSearchTree(t)
    ensures Agree(t, FixShortLeft(t).0)
  {
    var s := t.right;
    if s.Node? {
      RecolorAgrees(s.left, Black);
      RecolorAgrees(s, Red);
      ReplaceLeft(s.Colored(Red), s.left.Colored(Black));
      var turned := s.(color := Red, left := s.left.Colored(Black));
      RotateRightAgrees(turned);
      var sib := if s.right.ColorOf() == Black then RotateRight(turned) else s;
      PromotedAgrees(sib, t.color, false);
      RecolorAgrees(t, Black);
      ReplaceRight(t.Colored(Black), Promoted(sib, t.color, false));
      RotateLeftAgrees(t.(color := Black, right := Promoted(sib, t.color, false)));
    }
  }

  lemma FixShortRightAgrees(t: Tree)
    requires t.Node? && IsSearchTree(t)
    ensures Agree(t, FixShortRight(t).0)
  {
    var s := t.left;
    RecolorAgrees(s, Red);
    ReplaceLeft(t, s.Colored(Red));
    if s.Node? {
      RecolorAgrees(s.right, Black);
      ReplaceRight(s.Colored(Red), s.right.Colored(Black));
      var turned := s.(color := Red, right := s.right.Colored(Black));
      RotateLeftAgrees(turned);
      var sib := if s.left.ColorOf() == Black then RotateLeft(turned) else s;
      PromotedAgrees(sib, t.color, true);
      RecolorAgrees(t, Black);
      ReplaceLeft(t.Colored(Black), Promoted(sib, t.color, true));
      RotateRightAgrees(t.(color := Black, left := Promoted(sib, t.color, true)));
    }
  }

  lemma AfterLeftAgrees(t: Tree, short: bool)
    requires t.Node? && IsSearchTree(t)
    ensures Agree(t, AfterLeft(t, short).0)
  {
    FixShortLeftAgrees(t);
    RecolorAgrees(t.right, Black);
    RecolorAgrees(t, Red);
    ReplaceRight(t.Colored(Red), t.right.Colored(Black));
    var u := RotateLeft(t.(color := Red, right := t.right.Colored(Black)));
    RotateLeftAgrees(t.(color := Red, right := t.right.Colored(Black)));
    if u.left.Node? {
      FixShortLeftAgrees(u.left);
      ReplaceLeft(u, FixShortLeft(u.left).0);
    }
  }

  lemma AfterRightAgrees(t: Tree, short: bool)
    requires t.Node? && IsSearchTree(t)
    ensures Agree(t, AfterRight(t, short).0)
  {
    FixShortRightAgrees(t);
    RecolorAgrees(t.left, Black);
    RecolorAgrees(t, Red);
    ReplaceLeft(t.Colored(Red), t.left.Colored(Black));
    var u := RotateRight(t.(color := Red, left := t.left.Colored(Black)));
    RotateRightAgrees(t.(color := Red, left := t.left.Colored(Black)));
    if u.right.Node? {
      FixShortRightAgrees(u.right);
      ReplaceRight(u, FixShortRight(u.right).0);
    }
  }

  lemma {:induction false} LeastEntry(t: Tree)
    requires t.Node? && IsSearchTree(t)
    ensures var (k, v) := Least(t); k in Entries(t) && Entries(t)[k] == v && forall j :: j in Entries(t) ==> k <= j
  {
    if t.left.Node? {
      LeastEntry(t.left);
      var k := Least(t.left).0;
      assert k < t.key && k !in Entries(t.right);
    }
  }

  lemma {:induction false} DropLeastEntries(t: Tree)
    requires t.Node? && IsSearchTree(t)
    ensures IsSearchTree(DropLeast(t).0) && Entries(DropLeast(t).0) == Entries(t) - {Least(t).0}
  {
    if t.left.Leaf? {
      assert Entries(t) == map[t.key := t.value] + Entries(t.right);
    } else {
      DropLeastEntries(t.left);
      LeastEntry(t.left);
      var (l, short) := DropLeast(t.left);
      UpdateLeft(t, l, Least(t.left).0, 0);
      AfterLeftAgrees(t.(left := l), short);
    }
  }

  lemma TakenOver(a: map<nat, nat>, key: nat, value: nat, c: map<nat, nat>, k: nat)
    requires k in c && key !in a && key !in c && k !in a
    ensures a + map[k := c[k]] + (c - {k}) == (a + map[key := value] + c) - {key}
  {
  }

  lemma TakenOverOrder(t: Tree, k: nat, v: nat, r: Tree)
    requires t.Node? && IsSearchTree(t) && k in Entries(t.right) && IsSearchTree(r)
        && Entries(r) == Entries(t.right) - {k}
    requires forall j :: j in Entries(t.right) ==> k <= j
    ensures IsSearchTree(t.(key := k, value := v, right := r))
  {
  }

  lemma OneChild(t: Tree)
    requires t.Node? && IsSearchTree(t)
    ensures t.left.Leaf? ==> Entries(t.right) == Entries(t) - {t.key}
    ensures t.right.Leaf? ==> Entries(t.left) == Entries(t) - {t.key}
  {
  }

  lemma DropRootEntries(t: Tree)
    requires t.Node? && IsSearchTree(t)
    ensures IsSearchTree(DropRoot(t).0) && Entries(DropRoot(t).0) == Entries(t) - {t.key}
  {
    if t.left.Node? && t.right.Node? {
      LeastEntry(t.right);
      DropLeastEntries(t.right);
      var (r, short) := DropLeast(t.right);
      var (k, v) := Least(t.right);
      TakenOver(Entries(t.left), t.key, t.value, Entries(t.right), k);
      TakenOverOrder(t, k, v, r);
      AfterRightAgrees(t.(key := k, value := v, right := r), short);
    } else {
      OneChild(t);
    }
  }

  lemma {:induction false} DropEntries(t: Tree, k: nat)
    requires IsSearchTree(t)
    ensures IsSearchTree(Drop(t, k).0) && Entries(Drop(t, k).0) == Entries(t) - {k}
  {
    if t.Node? {
      if k < t.key {
        DropEntries(t.left, k);
        var (l, short) := Drop(t.left, k);
        UpdateLeft(t, l, k, 0);
        AfterLeftAgrees(t.(left := l), short);
      } else if t.key < k {
        DropEntries(t.right, k);
        var (r, short) := Drop(t.right, k);
        UpdateRight(t, r, k, 0);
        AfterRightAgrees(t.(right := r), short);
      } else {
        DropRootEntries(t);
      }
    }
  }

  // ----- searching -----

  datatype Option<T> = None | Some(value: T)

  /** The entry with the least key above `k`. */
  ghost predicate IsNext(m: map<nat, nat>, k: int, h: Option<nat>) {
    if h.None? then forall j :: j in m ==> j <= k
    else h.value in m && k < h.value && forall j :: j in m && k < j ==> h.value <= j
  }

  ghost predicate IsPrevious(m: map<nat, nat>, k: int, l: Option<nat>) {
    if l.None? then forall j :: j in m ==> k <= j
    else l.value in m && l.value < k && forall j :: j in m && j < k ==> j <= l.value
  }

  function Higher(t: Tree, k: int): Option<nat> {
    match t
    case Leaf => None
    case Node(_, l, key, _, r) =>
      if k < key then (var h := Higher(l, k); if h.Some? then h else Some(key)) else Higher(r, k)
  }

  function Lower(t: Tree, k: int): Option<nat> {
    match t
    case Leaf => None
    case Node(_, l, key, _, r) =>
      if key < k then (var h := Lower(r, k); if h.Some? then h else Some(key)) else Lower(l, k)
  }

  function ValueOf(t: Tree, k: nat): nat {
    match t
    case Leaf => 0
    case Node(_, l, key, v, r) => if k < key then ValueOf(l, k) else if key < k then ValueOf(r, k) else v
  }

  lemma {:induction false} HigherIsNext(t: Tree, k: int)
    requires IsSearchTree(t)
    ensures IsNext(Entries(t), k, Higher(t, k))
  {
    if t.Node? {
      HigherIsNext(t.left, k);
      HigherIsNext(t.right, k);
    }
  }

  lemma {:induction false} LowerIsPrevious(t: Tree, k: int)
    requires IsSearchTree(t)
    ensures IsPrevious(Entries(t), k, Lower(t, k))
  {
    if t.Node? {
      LowerIsPrevious(t.left, k);
      LowerIsPrevious(t.right, k);
    }
  }

  lemma {:induction false} ValueOfEntry(t: Tree, k: nat)
    requires IsSearchTree(t) && k in Entries(t)
    ensures ValueOf(t, k) == Entries(t)[k]
  {
    if k < t.key {
      ValueOfEntry(t.left, k);
    } else if t.key < k {
      ValueOfEntry(t.right, k);
    }
  }

  /** The entry `k` has two children. */
  predicate HasTwo(t: Tree, k: nat) {
    match t
    case Leaf => false
    case Node(_, l, key, _, r) =>
      if k < key then HasTwo(l, k) else if key < k then HasTwo(r, k) else l.Node? && r.Node?
  }

  /** What a pointer to the entry `k` shows after the entry was deleted: the entry itself, or its successor when
      it had two children. */
  function Held(t: Tree, k: nat): (nat, nat)
    requires Contains(t, k)
  {
    if k < t.key then Held(t.left, k)
    else if t.key < k then Held(t.right, k)
    else if t.left.Node? && t.right.Node? then Least(t.right)
    else (t.key, t.value)
  }

  lemma {:induction false} HeldIs(t: Tree, k: nat)
    requires IsSearchTree(t) && k in Entries(t)
    ensures Contains(t, k)
    ensures var (key, value) := Held(t, k);
            && key in Entries(t) && value == Entries(t)[key]
            && if HasTwo(t, k) then IsNext(Entries(t), k, Some(key)) else key == k
  {
    if k < t.key {
      HeldIs(t.left, k);
    } else if t.key < k {
      HeldIs(t.right, k);
    } else if t.left.Node? && t.right.Node? {
      LeastEntry(t.right);
    }
  }
}
