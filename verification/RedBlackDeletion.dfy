/** What deletion does to the balance of a tree (src/rbtree.c): exactly when it stays red-black. */
module RedBlackDeletion {
  import opened RedBlack

  predicate IsSound(t: Tree, n: nat) {
    NoRedRed(t) && IsBalanced(t, n)
  }

  lemma {:induction false} HeightIsUnique(t: Tree, m: nat, n: nat)
    requires IsBalanced(t, m) && IsBalanced(t, n)
    ensures m == n
  {
    if t.Node? {
      HeightIsUnique(t.left, if t.color == Red then m else m - 1, if t.color == Red then n else n - 1);
    }
  }

  // ----- what the source leaves out -----

  /** The sibling that lends a node has no red child. */
  predicate HasNoRed(s: Tree) {
    s.Leaf? || (s.left.ColorOf() == Black && s.right.ColorOf() == Black)
  }

  /** A short left child: a red replacement is not coloured black, and a sibling without red children is not coloured
      red. */
  predicate OmitsLeft(t: Tree, short: bool)
    requires t.Node?
  {
    short && (t.left.ColorOf() == Red || HasNoRed(if t.right.ColorOf() == Red then t.right.left else t.right))
  }

  /** A short right child: a red replacement is not coloured black, and neither is a red parent whose sibling was
      coloured red. */
  predicate OmitsRight(t: Tree, short: bool)
    requires t.Node?
  {
    short &&
    (|| t.right.ColorOf() == Red
     || (t.left.ColorOf() == Red && HasNoRed(t.left.right))
     || (t.left.ColorOf() == Black && t.color == Red && HasNoRed(t.left)))
  }

  predicate OmitsLeast(t: Tree)
    requires t.Node?
  {
    t.left.Node? && (OmitsLeast(t.left) || OmitsLeft(t.(left := DropLeast(t.left).0), DropLeast(t.left).1))
  }

  /** The root takes over the key and value of its successor, whose node is unlinked. */
  function TakenOver(t: Tree): Tree
    requires t.Node? && t.right.Node?
  {
    t.(key := Least(t.right).0, value := Least(t.right).1, right := DropLeast(t.right).0)
  }

  predicate OmitsRoot(t: Tree)
    requires t.Node?
  {
    t.left.Node? && t.right.Node? &&
    (OmitsLeast(t.right) || OmitsRight(TakenOver(t), DropLeast(t.right).1))
  }

  /** Somewhere on the way up from the unlinked node a colour was left out. */
  predicate Omits(t: Tree, k: nat) {
    t.Node? &&
    if k < t.key then Omits(t.left, k) || OmitsLeft(t.(left := Drop(t.left, k).0), Drop(t.left, k).1)
    else if t.key < k then Omits(t.right, k) || OmitsRight(t.(right := Drop(t.right, k).0), Drop(t.right, k).1)
    else OmitsRoot(t)
  }

  // ----- where nothing is left out -----

  /** The subtree is as high as it was, or one black node lower below a black root. */
  predicate IsMended(t: Tree, u: Tree, short: bool, n: nat) {
    && (t.ColorOf() == Black ==> u.ColorOf() == Black)
    && if short then n > 0 && IsSound(u, n - 1) && t.ColorOf() == Black else IsSound(u, n)
  }

  /** One black node lower below a red root. */
  predicate IsRedBelow(t: Tree, u: Tree, short: bool, n: nat) {
    short && n > 0 && IsSound(u, n - 1) && t.ColorOf() == Black && u.ColorOf() == Red
  }

  lemma JoinSound(t: Tree, n: nat)
    requires t.Node? && IsSound(t.left, n) && IsSound(t.right, n)
    requires t.color == Red ==> t.left.ColorOf() == Black && t.right.ColorOf() == Black
    ensures IsSound(t, if t.color == Red then n else n + 1)
  {
  }

  lemma Blackened(t: Tree, n: nat)
    requires IsSound(t, n) && t.ColorOf() == Red
    ensures IsSound(t.Colored(Black), n + 1) && IsSound(t.left, n) && IsSound(t.right, n)
    ensures t.left.ColorOf() == t.right.ColorOf() == Black
  {
  }

  lemma Reddened(t: Tree, n: nat)
    requires n > 0 && IsSound(t, n) && t.ColorOf() == Black && HasNoRed(t)
    ensures t.Node? && IsSound(t.Colored(Red), n - 1)
  {
  }

  /** A black sibling with a red child lends a node to a short left child. */
  lemma LendsLeft(t: Tree, n: nat)
    requires t.Node? && t.right.Node? && t.right.color == Black && !HasNoRed(t.right)
    requires n > 0 && IsSound(t.left, n - 1) && IsSound(t.right, n)
    ensures var (u, more) := FixShortLeft(t);
            !more && u.Node? && u.color == t.color && IsSound(u, if t.color == Red then n else n + 1)
  {
    var s, u := t.right, FixShortLeft(t).0;
    if s.right.ColorOf() == Red {
      Blackened(s.right, n - 1);
      var low := Node(Black, t.left, t.key, t.value, s.left);
      JoinSound(low, n - 1);
      assert u == Node(t.color, low, s.key, s.value, s.right.Colored(Black));
    } else {
      var m := s.left;
      Blackened(m, n - 1);
      var low, high := Node(Black, t.left, t.key, t.value, m.left), Node(Black, m.right, s.key, s.value, s.right);
      JoinSound(low, n - 1);
      JoinSound(high, n - 1);
      assert u == Node(t.color, low, m.key, m.value, high);
    }
    JoinSound(u, n);
  }

  lemma LendsRight(t: Tree, n: nat)
    requires t.Node? && t.left.Node? && t.left.color == Black && !HasNoRed(t.left)
    requires n > 0 && IsSound(t.right, n - 1) && IsSound(t.left, n)
    ensures var (u, more) := FixShortRight(t);
            !more && u.Node? && u.color == t.color && IsSound(u, if t.color == Red then n else n + 1)
  {
    var s, u := t.left, FixShortRight(t).0;
    if s.left.ColorOf() == Red {
      Blackened(s.left, n - 1);
      var high := Node(Black, s.right, t.key, t.value, t.right);
      JoinSound(high, n - 1);
      assert u == Node(t.color, s.left.Colored(Black), s.key, s.value, high);
    } else {
      var m := s.right;
      Blackened(m, n - 1);
      var low, high := Node(Black, s.left, s.key, s.value, m.left), Node(Black, m.right, t.key, t.value, t.right);
      JoinSound(low, n - 1);
      JoinSound(high, n - 1);
      assert u == Node(t.color, low, m.key, m.value, high);
    }
    JoinSound(u, n);
  }

  lemma LeftMends(t: Tree, l: Tree, short: bool, n: nat)
    requires t.Node? && IsSound(t, n) && !OmitsLeft(t.(left := l), short)
    requires IsMended(t.left, l, short, if t.color == Red then n else n - 1)
    ensures var (u, short') := AfterLeft(t.(left := l), short); IsMended(t, u, short', n)
  {
    var n', t' := if t.color == Red then n else n - 1, t.(left := l);
    if !short {
      JoinSound(t', n');
    } else if t.right.ColorOf() == Red {
      var s := t.right;
      Blackened(s, n');
      var low := Node(Red, l, t.key, t.value, s.left);
      LendsLeft(low, n');
      var u := AfterLeft(t', short).0;
      assert u == Node(Black, FixShortLeft(low).0, s.key, s.value, s.right);
      JoinSound(u, n');
    } else {
      LendsLeft(t', n');
    }
  }

  lemma RightMends(t: Tree, r: Tree, short: bool, n: nat)
    requires t.Node? && IsSound(t, n) && !OmitsRight(t.(right := r), short)
    requires IsMended(t.right, r, short, if t.color == Red then n else n - 1)
    ensures var (u, short') := AfterRight(t.(right := r), short); IsMended(t, u, short', n)
  {
    var n', t' := if t.color == Red then n else n - 1, t.(right := r);
    if !short {
      JoinSound(t', n');
    } else if t.left.ColorOf() == Red {
      var s := t.left;
      Blackened(s, n');
      var high := Node(Red, s.right, t.key, t.value, r);
      LendsRight(high, n');
      var u := AfterRight(t', short).0;
      assert u == Node(Black, s.left, s.key, s.value, FixShortRight(high).0);
      JoinSound(u, n');
    } else if HasNoRed(t.left) {
      var s := t.left.Colored(Red);
      Reddened(t.left, n');
      JoinSound(t'.(left := s), n' - 1);
    } else {
      LendsRight(t', n');
    }
  }

  lemma {:induction false} LeastMends(t: Tree, n: nat)
    requires t.Node? && IsSound(t, n) && !OmitsLeast(t)
    ensures var (u, short) := DropLeast(t); IsMended(t, u, short, n) || IsRedBelow(t, u, short, n)
  {
    if t.left.Node? {
      LeastMends(t.left, if t.color == Red then n else n - 1);
      LeftMends(t, DropLeast(t.left).0, DropLeast(t.left).1, n);
    }
  }

  lemma RootMends(t: Tree, n: nat)
    requires t.Node? && IsSound(t, n) && !OmitsRoot(t)
    ensures var (u, short) := DropRoot(t); IsMended(t, u, short, n) || IsRedBelow(t, u, short, n)
  {
    if t.left.Node? && t.right.Node? {
      LeastMends(t.right, if t.color == Red then n else n - 1);
      var t' := t.(key := Least(t.right).0, value := Least(t.right).1);
      RightMends(t', DropLeast(t.right).0, DropLeast(t.right).1, n);
    }
  }

  lemma {:induction false} DropMends(t: Tree, k: nat, n: nat)
    requires IsSound(t, n) && Contains(t, k) && !Omits(t, k)
    ensures var (u, short) := Drop(t, k); IsMended(t, u, short, n) || IsRedBelow(t, u, short, n)
  {
    var n' := if t.color == Red then n else n - 1;
    if k < t.key {
      DropMends(t.left, k, n');
      LeftMends(t, Drop(t.left, k).0, Drop(t.left, k).1, n);
    } else if t.key < k {
      DropMends(t.right, k, n');
      RightMends(t, Drop(t.right, k).0, Drop(t.right, k).1, n);
    } else {
      RootMends(t, n);
    }
  }

  // ----- where something is left out -----

  ghost predicate IsSpoiled(t: Tree) {
    forall n: nat :: !IsSound(t, n)
  }

  lemma SpoiledBelow(t: Tree)
    requires t.Node? && (IsSpoiled(t.left) || IsSpoiled(t.right))
    ensures IsSpoiled(t)
  {
    forall n: nat ensures !IsSound(t, n) {
      if IsSound(t, n) {
        var n' := if t.color == Red then n else n - 1;
        assert IsSound(t.left, n') && IsSound(t.right, n');
      }
    }
  }

  lemma Uneven(t: Tree, m: nat, n: nat)
    requires t.Node? && IsBalanced(t.left, m) && IsBalanced(t.right, n) && m != n
    ensures IsSpoiled(t)
  {
    forall i: nat ensures !IsSound(t, i) {
      if IsSound(t, i) {
        var i' := if t.color == Red then i else i - 1;
        HeightIsUnique(t.left, m, i');
        HeightIsUnique(t.right, n, i');
      }
    }
  }

  /** A subtree that is spoiled stays where it is. */
  lemma LeftStaysSpoiled(t: Tree, short: bool)
    requires t.Node? && IsSpoiled(t.left)
    ensures IsSpoiled(AfterLeft(t, short).0)
  {
    var u := AfterLeft(t, short).0;
    if short && t.left.ColorOf() == Black {
      if t.right.ColorOf() == Red {
        var low := Node(Red, t.left, t.key, t.value, t.right.left);
        ShortLeftStaysSpoiled(low);
        assert u.left == FixShortLeft(low).0;
        SpoiledBelow(u);
      } else {
        ShortLeftStaysSpoiled(t);
      }
    } else {
      SpoiledBelow(t);
    }
  }

  lemma ShortLeftStaysSpoiled(t: Tree)
    requires t.Node? && IsSpoiled(t.left)
    ensures IsSpoiled(FixShortLeft(t).0)
  {
    var u := FixShortLeft(t).0;
    if t.right.Leaf? || HasNoRed(t.right) {
      SpoiledBelow(t);
    } else {
      assert u.left.left == t.left;
      SpoiledBelow(u.left);
      SpoiledBelow(u);
    }
  }

  lemma RightStaysSpoiled(t: Tree, short: bool)
    requires t.Node? && IsSpoiled(t.right)
    ensures IsSpoiled(AfterRight(t, short).0)
  {
    var u := AfterRight(t, short).0;
    if short && t.right.ColorOf() == Black {
      if t.left.ColorOf() == Red {
        var high := Node(Red, t.left.right, t.key, t.value, t.right);
        ShortRightStaysSpoiled(high);
        assert u.right == FixShortRight(high).0;
        SpoiledBelow(u);
      } else {
        ShortRightStaysSpoiled(t);
      }
    } else {
      SpoiledBelow(t);
    }
  }

  lemma ShortRightStaysSpoiled(t: Tree)
    requires t.Node? && IsSpoiled(t.right)
    ensures IsSpoiled(FixShortRight(t).0)
  {
    var u := FixShortRight(t).0;
    if t.left.Leaf? || HasNoRed(t.left) {
      assert u.right == t.right;
      SpoiledBelow(u);
    } else {
      assert u.right.right == t.right;
      SpoiledBelow(u.right);
      SpoiledBelow(u);
    }
  }

  /** Here is what was left out. */
  lemma LeftSpoils(t: Tree, l: Tree, short: bool, n: nat)
    requires t.Node? && IsSound(t, n) && OmitsLeft(t.(left := l), short)
    requires || IsMended(t.left, l, short, if t.color == Red then n else n - 1)
        || IsRedBelow(t.left, l, short, if t.color == Red then n else n - 1)
    ensures IsSpoiled(AfterLeft(t.(left := l), short).0)
  {
    var n', t' := if t.color == Red then n else n - 1, t.(left := l);
    var u := AfterLeft(t', short).0;
    if l.ColorOf() == Black && t.right.ColorOf() == Red {
      var low := Node(Red, l, t.key, t.value, t.right.left);
      Blackened(t.right, n');
      assert u.left == low;
      Uneven(low, n' - 1, n');
      SpoiledBelow(u);
    } else {
      assert u == t';
      Uneven(t', n' - 1, n');
    }
  }

  lemma RightSpoils(t: Tree, r: Tree, short: bool, n: nat)
    requires t.Node? && IsSound(t, n) && OmitsRight(t.(right := r), short)
    requires || IsMended(t.right, r, short, if t.color == Red then n else n - 1)
        || IsRedBelow(t.right, r, short, if t.color == Red then n else n - 1)
    ensures IsSpoiled(AfterRight(t.(right := r), short).0)
  {
    var n', t' := if t.color == Red then n else n - 1, t.(right := r);
    var u := AfterRight(t', short).0;
    if r.ColorOf() == Red {
      Uneven(t', n', n' - 1);
    } else if t.left.ColorOf() == Red {
      Blackened(t.left, n');
      assert t.left.right.Node?;
      assert u.right.color == Red && u.right.left.ColorOf() == Red && !NoRedRed(u.right);
      SpoiledBelow(u);
    } else {
      Reddened(t.left, n');
      assert u.color == Red && u.left.ColorOf() == Red && !NoRedRed(u);
    }
  }

  lemma {:induction false} LeastSpoils(t: Tree, n: nat)
    requires t.Node? && IsSound(t, n) && OmitsLeast(t)
    ensures IsSpoiled(DropLeast(t).0)
  {
    var n' := if t.color == Red then n else n - 1;
    var (l, short) := DropLeast(t.left);
    if OmitsLeast(t.left) {
      LeastSpoils(t.left, n');
      LeftStaysSpoiled(t.(left := l), short);
    } else {
      LeastMends(t.left, n');
      LeftSpoils(t, l, short, n);
    }
  }

  lemma RootSpoils(t: Tree, n: nat)
    requires t.Node? && IsSound(t, n) && OmitsRoot(t)
    ensures IsSpoiled(DropRoot(t).0)
  {
    var n' := if t.color == Red then n else n - 1;
    var (r, short) := DropLeast(t.right);
    var t' := t.(key := Least(t.right).0, value := Least(t.right).1);
    if OmitsLeast(t.right) {
      LeastSpoils(t.right, n');
      RightStaysSpoiled(t'.(right := r), short);
    } else {
      LeastMends(t.right, n');
      RightSpoils(t', r, short, n);
    }
  }

  lemma {:induction false} DropSpoils(t: Tree, k: nat, n: nat)
    requires IsSound(t, n) && Contains(t, k) && Omits(t, k)
    ensures IsSpoiled(Drop(t, k).0)
  {
    var n' := if t.color == Red then n else n - 1;
    if k < t.key {
      var (l, short) := Drop(t.left, k);
      if Omits(t.left, k) {
        DropSpoils(t.left, k, n');
        LeftStaysSpoiled(t.(left := l), short);
      } else {
        DropMends(t.left, k, n');
        LeftSpoils(t, l, short, n);
      }
    } else if t.key < k {
      var (r, short) := Drop(t.right, k);
      if Omits(t.right, k) {
        DropSpoils(t.right, k, n');
        RightStaysSpoiled(t.(right := r), short);
      } else {
        DropMends(t.right, k, n');
        RightSpoils(t, r, short, n);
      }
    } else {
      RootSpoils(t, n);
    }
  }

  /** A black root with one red child is unlinked, and the child is not coloured black. */
  predicate LeavesRedRoot(t: Tree, k: nat) {
    t.Node? && k == t.key && (t.left.Leaf? || t.right.Leaf?) && (t.left.Node? || t.right.Node?)
  }

  /** Deletion keeps a tree red-black exactly when no colour is left out on the way up. */
  lemma DeleteIsRedBlack(t: Tree, k: nat)
    requires IsRedBlack(t) && Contains(t, k)
    ensures IsRedBlack(Delete(t, k)) <==> !Omits(t, k) && !LeavesRedRoot(t, k)
  {
    var n: nat :| IsBalanced(t, n);
    var (u, short) := Drop(t, k);
    if Omits(t, k) {
      DropSpoils(t, k, n);
      forall m: nat ensures !(NoRedRed(u) && IsBalanced(u, m)) {
        assert !IsSound(u, m);
      }
    } else {
      DropMends(t, k, n);
      assert IsBalanced(u, if short then n - 1 else n);
      RedRoot(t, k, n);
    }
  }

  lemma RedRoot(t: Tree, k: nat, n: nat)
    requires IsSound(t, n) && t.ColorOf() == Black && Contains(t, k) && !Omits(t, k)
    ensures Delete(t, k).ColorOf() == Red <==> LeavesRedRoot(t, k)
  {
    if k < t.key {
      DropMends(t.left, k, n - 1);
      LeftMends(t, Drop(t.left, k).0, Drop(t.left, k).1, n);
    } else if t.key < k {
      DropMends(t.right, k, n - 1);
      RightMends(t, Drop(t.right, k).0, Drop(t.right, k).1, n);
    } else if t.left.Node? && t.right.Node? {
      LeastMends(t.right, n - 1);
      var t' := t.(key := Least(t.right).0, value := Least(t.right).1);
      RightMends(t', DropLeast(t.right).0, DropLeast(t.right).1, n);
    } else {
      assert IsBalanced(t.left, n - 1) && IsBalanced(t.right, n - 1) && n == 1;
      assert Delete(t, k) == if t.left.Node? then t.left else t.right;
    }
  }

  /** Three black nodes, which deleting from four leaves behind; deleting the least of them unbalances the tree. */
  lemma DeletingUnbalances(t: Tree)
    requires t == Node(Black, Node(Black, Leaf, 1, 1, Leaf), 2, 2, Node(Black, Leaf, 3, 3, Leaf))
    ensures IsRedBlack(t) && Contains(t, 1) && Omits(t, 1) && !IsRedBlack(Delete(t, 1))
  {
    assert IsBalanced(t.left, 1) && IsBalanced(t.right, 1) && IsBalanced(t, 2);
    DeleteIsRedBlack(t, 1);
  }
}
