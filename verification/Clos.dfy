/** Linear orders that extend several lists. */
module Linearization {
  datatype Option<T> = Absent | Present(value: T)

  ghost predicate Distinct<T>(s: seq<T>) {
    forall i, j :: 0 <= i < j < |s| ==> s[i] != s[j]
  }

  ghost predicate Subsequence<T(!new)>(a: seq<T>, b: seq<T>)
    decreases |b|
  {
    || a == []
    || (b != [] && var a', b' := a[..|a| - 1], b[..|b| - 1];
        if a[|a| - 1] == b[|b| - 1] then Subsequence(a', b') else Subsequence(a, b'))
  }

  lemma {:induction false} ShorterSubsequence<T(!new)>(a: seq<T>, b: seq<T>)
    requires Subsequence(a, b) && a != []
    ensures Subsequence(a[..|a| - 1], b)
    decreases |b|, 0
  {
    var n := |b| - 1;
    assert b == b[..n] + [b[n]];
    if a[|a| - 1] != b[n] {
      ShorterSubsequence(a, b[..n]);
    }
    LongerSequence(a[..|a| - 1], b[..n], b[n]);
  }

  lemma {:induction false} LongerSequence<T(!new)>(a: seq<T>, b: seq<T>, x: T)
    requires Subsequence(a, b)
    ensures Subsequence(a, b + [x])
    decreases |b|, 1
  {
    assert (b + [x])[..|b|] == b;
    if a != [] && a[|a| - 1] == x {
      ShorterSubsequence(a, b);
    }
  }

  lemma {:induction false} SubsequenceTransitive<T(!new)>(a: seq<T>, b: seq<T>, c: seq<T>)
    requires Subsequence(a, b) && Subsequence(b, c)
    ensures Subsequence(a, c)
    decreases |c|
  {
    if a != [] {
      var n := |c| - 1;
      assert c == c[..n] + [c[n]];
      if b[|b| - 1] != c[n] {
        SubsequenceTransitive(a, b, c[..n]);
        LongerSequence(a, c[..n], c[n]);
      } else if a[|a| - 1] == c[n] {
        SubsequenceTransitive(a[..|a| - 1], b[..|b| - 1], c[..n]);
      } else {
        SubsequenceTransitive(a, b[..|b| - 1], c[..n]);
      }
    }
  }

  lemma {:induction false} SubsequenceSelf<T(!new)>(a: seq<T>)
    ensures Subsequence(a, a)
    decreases |a|
  {
    if a != [] {
      SubsequenceSelf(a[..|a| - 1]);
    }
  }

  lemma {:induction false} SubsequenceSuffix<T(!new)>(a: seq<T>, b: seq<T>, k: nat)
    requires Subsequence(a, b) && k <= |a|
    ensures Subsequence(a[k..], b)
    decreases |b|
  {
    if k < |a| {
      var n := |b| - 1;
      if a[|a| - 1] == b[n] {
        SubsequenceSuffix(a[..|a| - 1], b[..n], k);
        assert a[..|a| - 1][k..] == a[k..][..|a| - k - 1];
      } else {
        SubsequenceSuffix(a, b[..n], k);
      }
    }
  }

  ghost predicate Before<T>(s: seq<T>, x: T, y: T) {
    exists i, j :: 0 <= i < j < |s| && s[i] == x && s[j] == y
  }

  /** The order of a list is the order of every list it is a subsequence of. */
  lemma {:induction false} OrderKept<T(!new)>(a: seq<T>, b: seq<T>, i: nat, j: nat)
    requires Subsequence(a, b) && i < j < |a|
    ensures Before(b, a[i], a[j])
    decreases |b|
  {
    var n := |b| - 1;
    if a[|a| - 1] != b[n] {
      OrderKept(a, b[..n], i, j);
    } else if j < |a| - 1 {
      OrderKept(a[..|a| - 1], b[..n], i, j);
    } else {
      ElementKept(a[..j], b[..n], i);
    }
  }

  lemma {:induction false} ElementKept<T(!new)>(a: seq<T>, b: seq<T>, i: nat)
    requires Subsequence(a, b) && i < |a|
    ensures a[i] in b
    decreases |b|
  {
    var n := |b| - 1;
    if a[|a| - 1] != b[n] {
      ElementKept(a, b[..n], i);
    } else if i < |a| - 1 {
      ElementKept(a[..|a| - 1], b[..n], i);
    }
  }

  /** All lists are subsequences of `order`, which has no duplicates. */
  ghost predicate Extends<T(!new)>(order: seq<T>, lists: seq<seq<T>>) {
    Distinct(order) && forall k :: 0 <= k < |lists| ==> Subsequence(lists[k], order)
  }

  ghost predicate OnlyFrom<T>(order: seq<T>, lists: seq<seq<T>>) {
    forall x :: x in order ==> exists k :: 0 <= k < |lists| && x in lists[k]
  }

  // ----- which order -----

  /** Everything in front of `x`, in each of the lists, is already out. */
  ghost predicate IsReady<T>(lists: seq<seq<T>>, done: seq<T>, x: T) {
    x !in done && forall k, i, j :: 0 <= k < |lists| && 0 <= i < j < |lists[k]| && lists[k][j] == x ==>
        lists[k][i] in done
  }

  ghost predicate IsFirstIn<T>(lists: seq<seq<T>>, x: T, k: nat) {
    k < |lists| && x in lists[k] && forall i :: 0 <= i < k ==> x !in lists[i]
  }

  /** At every place, none that could stand there occurs in an earlier list. */
  ghost predicate IsEarliest<T(!new)>(lists: seq<seq<T>>, done: seq<T>, c: T) {
    forall x, k: nat, i: nat {:trigger IsFirstIn(lists, x, k), IsFirstIn(lists, c, i)} ::
      IsReady(lists, done, x) && IsFirstIn(lists, x, k) && IsFirstIn(lists, c, i) ==> i <= k
  }

  ghost predicate IsInOrder<T(!new)>(order: seq<T>, lists: seq<seq<T>>) {
    forall n {:trigger order[..n]} :: 0 <= n < |order| ==> IsEarliest(lists, order[..n], order[n])
  }

  /** The order that extends the lists and prefers the earlier ones. */
  ghost predicate IsMergeOf<T(!new)>(order: seq<T>, lists: seq<seq<T>>) {
    Extends(order, lists) && OnlyFrom(order, lists) && IsInOrder(order, lists)
  }

  lemma {:induction false} FirstExists<T>(lists: seq<seq<T>>, x: T, k: nat) returns (i: nat)
    requires k < |lists| && x in lists[k]
    ensures IsFirstIn(lists, x, i)
    decreases k
  {
    if j :| 0 <= j < k && x in lists[j] {
      i := FirstExists(lists, x, j);
    } else {
      i := k;
    }
  }

  /** What comes next in an extension is ready. */
  lemma NextIsReady<T(!new)>(order: seq<T>, lists: seq<seq<T>>, n: nat)
    requires Extends(order, lists) && n < |order|
    ensures IsReady(lists, order[..n], order[n])
  {
    forall k, i, j | 0 <= k < |lists| && 0 <= i < j < |lists[k]| && lists[k][j] == order[n]
      ensures lists[k][i] in order[..n]
    {
      OrderKept(lists[k], order, i, j);
      var a, b :| 0 <= a < b < |order| && order[a] == lists[k][i] && order[b] == lists[k][j];
      assert b == n && order[..n][a] == order[a];
    }
  }

  /** Two ready elements of one list are the same. */
  lemma ReadyIsHead<T>(lists: seq<seq<T>>, done: seq<T>, x: T, y: T, k: nat)
    requires k < |lists| && x in lists[k] && y in lists[k] && IsReady(lists, done, x) && IsReady(lists, done, y)
    ensures x == y
  {
    var i :| 0 <= i < |lists[k]| && lists[k][i] == x;
    var j :| 0 <= j < |lists[k]| && lists[k][j] == y;
  }

  lemma SameNext<T(!new)>(order: seq<T>, order': seq<T>, lists: seq<seq<T>>, n: nat)
    requires IsMergeOf(order, lists) && IsMergeOf(order', lists)
    requires n < |order| && n < |order'| && order[..n] == order'[..n]
    ensures order[n] == order'[n]
  {
    NextIsReady(order, lists, n);
    NextIsReady(order', lists, n);
    assert order[n] in order && order'[n] in order';
    var k :| 0 <= k < |lists| && order[n] in lists[k];
    var k' :| 0 <= k' < |lists| && order'[n] in lists[k'];
    var i := FirstExists(lists, order[n], k);
    var i' := FirstExists(lists, order'[n], k');
    assert IsEarliest(lists, order[..n], order[n]) && IsEarliest(lists, order'[..n], order'[n]);
    ReadyIsHead(lists, order[..n], order[n], order'[n], i);
  }

  lemma {:induction false} SamePrefix<T(!new)>(order: seq<T>, order': seq<T>, lists: seq<seq<T>>, n: nat)
    requires IsMergeOf(order, lists) && IsMergeOf(order', lists) && n <= |order| && n <= |order'|
    ensures order[..n] == order'[..n]
  {
    if n > 0 {
      SamePrefix(order, order', lists, n - 1);
      SameNext(order, order', lists, n - 1);
      assert order[..n] == order[..n - 1] + [order[n - 1]] && order'[..n] == order'[..n - 1] + [order'[n - 1]];
    }
  }

  lemma NotLonger<T(!new)>(order: seq<T>, order': seq<T>, lists: seq<seq<T>>)
    requires IsMergeOf(order, lists) && IsMergeOf(order', lists)
    ensures |order'| <= |order|
  {
    var n := |order|;
    if n < |order'| {
      SamePrefix(order, order', lists, n);
      assert order'[n] in order';
      var k :| 0 <= k < |lists| && order'[n] in lists[k];
      var i :| 0 <= i < |lists[k]| && lists[k][i] == order'[n];
      ElementKept(lists[k], order, i);
    }
  }

  /** The first list comes first, as far as nothing in the others holds it back. */
  lemma {:induction false} FirstListFirst<T(!new)>(order: seq<T>, lists: seq<seq<T>>, n: nat)
    requires IsMergeOf(order, lists) && lists != [] && n <= |lists[0]|
    requires forall i {:trigger lists[0][..i]} :: 0 <= i < n ==> IsReady(lists, lists[0][..i], lists[0][i])
    ensures n <= |order| && order[..n] == lists[0][..n]
  {
    if n > 0 {
      var i, x := n - 1, lists[0][n - 1];
      FirstListFirst(order, lists, i);
      assert IsReady(lists, lists[0][..i], x) && IsFirstIn(lists, x, 0);
      ElementKept(lists[0], order, i);
      var a :| 0 <= a < |order| && order[a] == x;
      assert x !in order[..i] && a >= i;
      NextIsReady(order, lists, i);
      assert order[i] in order;
      var k :| 0 <= k < |lists| && order[i] in lists[k];
      k := FirstExists(lists, order[i], k);
      assert IsEarliest(lists, order[..i], order[i]);
      ReadyIsHead(lists, order[..i], x, order[i], 0);
      assert order[..n] == order[..i] + [x] && lists[0][..n] == lists[0][..i] + [x];
    }
  }

  /** There is one such order. */
  lemma MergeIsUnique<T(!new)>(order: seq<T>, order': seq<T>, lists: seq<seq<T>>)
    requires IsMergeOf(order, lists) && IsMergeOf(order', lists)
    ensures order == order'
  {
    NotLonger(order, order', lists);
    NotLonger(order', order, lists);
    SamePrefix(order, order', lists, |order|);
    assert order[..|order|] == order && order'[..|order'|] == order';
  }
}

/** Class precedence lists (src/clos.c). */
module Clos {
  import opened Linearization

  // ----- merge_lists -----

  /** `c` occurs behind the head of one of the lists. */
  ghost predicate IsBlocked<T>(rest: seq<seq<T>>, c: T) {
    exists t :: 0 <= t < |rest| && rest[t] != [] && c in rest[t][1..]
  }

  ghost predicate IsHead<T>(rest: seq<seq<T>>, c: T) {
    exists k :: 0 <= k < |rest| && rest[k] != [] && rest[k][0] == c
  }

  ghost predicate HeadsBlocked<T(!new)>(rest: seq<seq<T>>) {
    forall c {:trigger IsHead(rest, c)} :: IsHead(rest, c) ==> IsBlocked(rest, c)
  }

  /** When every head is blocked, nothing extends the lists: below each head there would be another. */
  lemma {:induction false} AllBlocked<T(!new)>(rest: seq<seq<T>>, order: seq<T>, at: nat)
    requires HeadsBlocked(rest)
    requires at < |order| && IsHead(rest, order[at])
    ensures !Extends(order, rest)
    decreases at
  {
    if Extends(order, rest) {
      var t :| 0 <= t < |rest| && rest[t] != [] && order[at] in rest[t][1..];
      var j :| 0 < j < |rest[t]| && rest[t][j] == order[at];
      OrderKept(rest[t], order, 0, j);
      var i, i' :| 0 <= i < i' < |order| && order[i] == rest[t][0] && order[i'] == order[at];
      AllBlocked(rest, order, i);
    }
  }

  /** The first head, from the list `k` on, that is not blocked. */
  ghost function NextFrom<T(!new)>(rest: seq<seq<T>>, k: nat): (next: Option<T>)
    requires k <= |rest|
    ensures next.Present? ==> IsHead(rest, next.value) && !IsBlocked(rest, next.value)
    ensures next.Absent? ==> forall i {:trigger rest[i]} :: k <= i < |rest| && rest[i] != [] ==>
        IsBlocked(rest, rest[i][0])
    decreases |rest| - k
  {
    if k == |rest| then Absent
    else if rest[k] != [] && !IsBlocked(rest, rest[k][0]) then Present(rest[k][0])
    else NextFrom(rest, k + 1)
  }

  /** What is ready and first in some list is a head that is not blocked, so that nothing later was taken. */
  lemma {:induction false} NextIsFirst<T(!new)>(rest: seq<seq<T>>, k: nat, j: nat) returns (i: nat)
    requires k <= j < |rest| && rest[j] != [] && !IsBlocked(rest, rest[j][0])
    ensures NextFrom(rest, k).Present? && i <= j && rest[i] != [] && rest[i][0] == NextFrom(rest, k).value
    decreases |rest| - k
  {
    if rest[k] != [] && !IsBlocked(rest, rest[k][0]) {
      i := k;
    } else {
      i := NextIsFirst(rest, k + 1, j);
    }
  }

  /** A ready element heads what is left of each list that it is in. */
  lemma ReadyIsNext<T(!new)>(lists: seq<seq<T>>, rest: seq<seq<T>>, done: seq<T>, x: T, k: nat)
    requires IsMerging(lists, rest, done) && IsReady(lists, done, x) && k < |lists| && x in lists[k]
    ensures rest[k] != [] && rest[k][0] == x
  {
    assert IsRest(lists[k], rest[k], done);
    var j :| 0 <= j < |lists[k]| && lists[k][j] == x;
    var f := |lists[k]| - |rest[k]|;
    if j < f {
      ElementKept(lists[k][..f], done, j);
    } else {
      assert rest[k][0] == lists[k][f];
    }
  }

  lemma ReadyIsFree<T(!new)>(lists: seq<seq<T>>, rest: seq<seq<T>>, done: seq<T>, x: T)
    requires IsMerging(lists, rest, done) && IsReady(lists, done, x)
    ensures !IsBlocked(rest, x)
  {
    forall t, j | 0 <= t < |rest| && 0 < j < |rest[t]| ensures rest[t][j] != x {
      assert IsRest(lists[t], rest[t], done);
      var f := |lists[t]| - |rest[t]|;
      assert lists[t][f + j] == rest[t][j] && lists[t][f] == rest[t][0];
    }
  }

  /** The head that is taken is the earliest that could be. */
  lemma TakenIsEarliest<T(!new)>(lists: seq<seq<T>>, rest: seq<seq<T>>, done: seq<T>)
    requires IsMerging(lists, rest, done) && NextFrom(rest, 0).Present?
    ensures IsEarliest(lists, done, NextFrom(rest, 0).value)
  {
    var c := NextFrom(rest, 0).value;
    forall x, k: nat, i: nat | IsReady(lists, done, x) && IsFirstIn(lists, x, k) && IsFirstIn(lists, c, i)
      ensures i <= k
    {
      ReadyIsNext(lists, rest, done, x, k);
      ReadyIsFree(lists, rest, done, x);
      var j := NextIsFirst(rest, 0, k);
      assert IsRest(lists[j], rest[j], done);
      assert c in lists[j];
    }
  }

  lemma OrderGrows<T(!new)>(lists: seq<seq<T>>, done: seq<T>, c: T)
    requires IsInOrder(done, lists) && IsEarliest(lists, done, c)
    ensures IsInOrder(done + [c], lists)
  {
    var order := done + [c];
    forall n | 0 <= n < |order| ensures IsEarliest(lists, order[..n], order[n]) {
      if n == |done| {
        assert order[..n] == done;
      } else {
        assert order[..n] == done[..n];
      }
    }
  }

  method FindNext<T(==, !new)>(ri: array<seq<T>>) returns (next: Option<T>)
    ensures next == NextFrom(ri[..], 0)
  {
    for sp := 0 to ri.Length
      invariant NextFrom(ri[..], 0) == NextFrom(ri[..], sp)
    {
      if ri[sp] != [] {
        var c := ri[sp][0];
        var tp := 0;
        while tp < ri.Length && (ri[tp] == [] || c !in ri[tp][1..])
          invariant tp <= ri.Length && forall t :: 0 <= t < tp && ri[t] != [] ==> c !in ri[t][1..]
        {
          tp := tp + 1;
        }
        if tp == ri.Length {
          assert ri[..][sp] == ri[sp];
          return Present(c);
        }
        assert ri[..][tp] == ri[tp];
      }
    }
    return Absent;
  }

  function RemovedFrom<T(==)>(list: seq<T>, c: T): seq<T> {
    if list != [] && list[0] == c then list[1..] else list
  }

  function Removed<T(==)>(rest: seq<seq<T>>, c: T): (r: seq<seq<T>>)
    ensures |r| == |rest| && forall k :: 0 <= k < |rest| ==> r[k] == RemovedFrom(rest[k], c)
  {
    seq(|rest|, k requires 0 <= k < |rest| => RemovedFrom(rest[k], c))
  }

  method RemoveNext<T(==)>(ri: array<seq<T>>, c: T)
    modifies ri
    ensures ri[..] == Removed(old(ri[..]), c)
  {
    for sp := 0 to ri.Length
      invariant forall k :: 0 <= k < sp ==> ri[k] == RemovedFrom(old(ri[k]), c)
      invariant forall k :: sp <= k < ri.Length ==> ri[k] == old(ri[k])
    {
      if ri[sp] != [] && ri[sp][0] == c {
        ri[sp] := ri[sp][1..];
      }
    }
  }

  /** What is left of a list after its front went, in order, into `done`. */
  ghost predicate IsRest<T(!new)>(list: seq<T>, rest: seq<T>, done: seq<T>) {
    && |rest| <= |list| && rest == list[|list| - |rest|..] && Subsequence(list[..|list| - |rest|], done)
    && forall x :: x in done ==> x !in rest
  }

  ghost predicate IsMerging<T(!new)>(lists: seq<seq<T>>, rest: seq<seq<T>>, done: seq<T>) {
    && |rest| == |lists| && Distinct(done) && OnlyFrom(done, lists)
    && forall k {:trigger IsRest(lists[k], rest[k], done)} :: 0 <= k < |lists| ==> IsRest(lists[k], rest[k], done)
  }

  lemma RestStep<T(!new)>(list: seq<T>, rest: seq<T>, done: seq<T>, c: T)
    requires IsRest(list, rest, done) && (rest != [] ==> c !in rest[1..])
    ensures IsRest(list, RemovedFrom(rest, c), done + [c])
  {
    var r := |list| - |rest|;
    if rest != [] && rest[0] == c {
      assert list[..r + 1][..r] == list[..r] && (done + [c])[..|done|] == done;
    } else {
      LongerSequence(list[..r], done, c);
    }
  }

  lemma MergeStep<T(!new)>(lists: seq<seq<T>>, rest: seq<seq<T>>, done: seq<T>, c: T)
    requires IsMerging(lists, rest, done) && IsHead(rest, c) && !IsBlocked(rest, c)
    ensures IsMerging(lists, Removed(rest, c), done + [c])
  {
    var h :| 0 <= h < |rest| && rest[h] != [] && rest[h][0] == c;
    assert IsRest(lists[h], rest[h], done);
    assert c in lists[h] && c in rest[h] && c !in done;
    forall k | 0 <= k < |lists| ensures IsRest(lists[k], Removed(rest, c)[k], done + [c]) {
      assert IsRest(lists[k], rest[k], done);
      RestStep(lists[k], rest[k], done, c);
    }
  }

  ghost predicate AllEmpty<T>(rest: seq<seq<T>>) {
    forall k :: 0 <= k < |rest| ==> rest[k] == []
  }

  ghost function Total<T>(rest: seq<seq<T>>): nat {
    if rest == [] then 0 else Total(rest[..|rest| - 1]) + |rest[|rest| - 1]|
  }

  lemma {:induction false} TotalShrinks<T>(rest: seq<seq<T>>, c: T)
    ensures Total(Removed(rest, c)) <= Total(rest)
    ensures IsHead(rest, c) ==> Total(Removed(rest, c)) < Total(rest)
    decreases |rest|
  {
    if rest != [] {
      var n := |rest| - 1;
      TotalShrinks(rest[..n], c);
      assert Removed(rest, c)[..n] == Removed(rest[..n], c);
      HeadInFront(rest, c);
    }
  }

  lemma HeadInFront<T>(rest: seq<seq<T>>, c: T)
    requires rest != []
    ensures var n := |rest| - 1; IsHead(rest, c) ==> (rest[n] != [] && rest[n][0] == c) || IsHead(rest[..n], c)
  {
    var n := |rest| - 1;
    if IsHead(rest, c) {
      var k :| 0 <= k < |rest| && rest[k] != [] && rest[k][0] == c;
      assert k < n ==> rest[..n][k] == rest[k];
    }
  }

  /** When the lists are used up, all of them are subsequences of what was taken. */
  lemma MergeDone<T(!new)>(lists: seq<seq<T>>, rest: seq<seq<T>>, done: seq<T>)
    requires IsMerging(lists, rest, done) && AllEmpty(rest)
    ensures Extends(done, lists)
  {
    forall k | 0 <= k < |lists| ensures Subsequence(lists[k], done) {
      assert IsRest(lists[k], rest[k], done);
      assert lists[k][..|lists[k]|] == lists[k];
    }
  }

  /** When every remaining head is blocked, nothing extends the lists. */
  lemma MergeStuck<T(!new)>(lists: seq<seq<T>>, rest: seq<seq<T>>, done: seq<T>, order: seq<T>)
    requires IsMerging(lists, rest, done) && !AllEmpty(rest) && HeadsBlocked(rest)
    ensures !Extends(order, lists)
  {
    if Extends(order, lists) {
      forall k | 0 <= k < |rest| ensures Subsequence(rest[k], order) {
        assert IsRest(lists[k], rest[k], done);
        SubsequenceSuffix(lists[k], order, |lists[k]| - |rest[k]|);
      }
      var k :| 0 <= k < |rest| && rest[k] != [];
      ElementKept(rest[k], order, 0);
      var at :| 0 <= at < |order| && order[at] == rest[k][0];
      assert IsHead(rest, order[at]);
      AllBlocked(rest, order, at);
    }
  }

  ghost predicate IsImpossible<T(!new)>(lists: seq<seq<T>>) {
    forall order: seq<T> {:trigger Extends(order, lists)} :: !Extends(order, lists)
  }

  lemma Stuck<T(!new)>(lists: seq<seq<T>>, rest: seq<seq<T>>, done: seq<T>)
    requires IsMerging(lists, rest, done) && !AllEmpty(rest) && HeadsBlocked(rest)
    ensures IsImpossible(lists)
  {
    forall order: seq<T> ensures !Extends(order, lists) {
      MergeStuck(lists, rest, done, order);
    }
  }

  method UsedUp<T>(ri: array<seq<T>>) returns (empty: bool)
    ensures empty <==> AllEmpty(ri[..])
  {
    var sp := 0;
    while sp < ri.Length && |ri[sp]| == 0
      invariant sp <= ri.Length && forall k :: 0 <= k < sp ==> ri[k] == []
    {
      sp := sp + 1;
    }
    assert sp < ri.Length ==> ri[..][sp] != [];
    return sp == ri.Length;
  }

  /** `merge_lists`: the merged list, or nothing exactly when no list without duplicates has all the given
      ones as subsequences.  Of the lists that have, it is the one that prefers the earlier ones. */
  method MergeLists<T(==, !new)>(lists: seq<seq<T>>) returns (result: Option<seq<T>>)
    ensures result.Present? ==> IsMergeOf(result.value, lists)
    ensures result.Absent? ==> IsImpossible(lists)
  {
    var ri := new seq<T>[|lists|](k requires 0 <= k < |lists| => lists[k]);
    var done: seq<T> := [];
    assert ri[..] == lists;
    assert forall k :: 0 <= k < |lists| ==> IsRest(lists[k], lists[k], done);
    while true
      invariant IsMerging(lists, ri[..], done) && IsInOrder(done, lists)
      decreases Total(ri[..])
    {
      var empty := UsedUp(ri);
      if empty {
        MergeDone(lists, ri[..], done);
        return Present(done);
      }
      var next := FindNext(ri);
      if next.Absent? {
        Stuck(lists, ri[..], done);
        return Absent;
      }
      MergeStep(lists, ri[..], done, next.value);
      TotalShrinks(ri[..], next.value);
      TakenIsEarliest(lists, ri[..], done);
      OrderGrows(lists, done, next.value);
      done := done + [next.value];
      RemoveNext(ri, next.value);
    }
  }

  // ----- class precedence lists -----

  datatype Class = Class(id: nat)

  const TOP := Class(0)
  const OBJECT := Class(1)

  function Without(list: seq<Class>, target: Class): (r: seq<Class>)
    ensures forall x :: x in r <==> x in list && x != target
  {
    if list == [] then [] else
      var last := list[|list| - 1];
      var front := Without(list[..|list| - 1], target);
      assert list == list[..|list| - 1] + [last];
      if last == target then front else front + [last]
  }

  method Deletel(target: Class, list: seq<Class>) returns (r: seq<Class>)
    ensures r == Without(list, target)
  {
    r := [];
    for i := 0 to |list|
      invariant r == Without(list[..i], target)
    {
      assert list[..i + 1][..i] == list[..i];
      if list[i] != target {
        r := r + [list[i]];
      }
    }
    assert list[..|list|] == list;
  }

  /** The direct superclasses in their order, with <object> moved to the end. */
  function LocalOrder(supers: seq<Class>): seq<Class> {
    Without(Without(supers, OBJECT), TOP) + [OBJECT]
  }

  predicate IsProper(supers: seq<Class>, c: Class) {
    c in supers && c != OBJECT && c != TOP
  }

  /** The precedence lists of the superclasses other than <object> and <top>. */
  function SuperLists(supers: seq<Class>, cpls: map<Class, seq<Class>>): (r: seq<seq<Class>>)
    requires forall c :: c in supers ==> c in cpls
    ensures forall list :: list in r ==> exists c :: IsProper(supers, c) && list == cpls[c]
    ensures forall c :: IsProper(supers, c) ==> cpls[c] in r
  {
    if supers == [] then [] else
      var n := |supers| - 1;
      var front := SuperLists(supers[..n], cpls);
      assert supers == supers[..n] + [supers[n]];
      assert forall c :: IsProper(supers[..n], c) ==> IsProper(supers, c);
      assert forall c :: IsProper(supers, c) ==> IsProper(supers[..n], c) || c == supers[n];
      if !IsProper(supers, supers[n]) then front else front + [cpls[supers[n]]]
  }

  /** `Sg_ComputeCPL`; it fails when the superclasses disagree. */
  method ComputeCpl(klass: Class, supers: seq<Class>, cpls: map<Class, seq<Class>>) returns (cpl: Option<seq<Class>>)
    requires OBJECT in cpls && forall c :: c in supers ==> c in cpls
    ensures var lists := Inputs(supers, cpls);
            if cpl.Absent? then IsImpossible(lists)
            else
              && cpl.value != [] && cpl.value[0] == klass
              && IsMergeOf(cpl.value[1..], lists)
  {
    var ds := Deletel(OBJECT, supers);
    ds := Deletel(TOP, ds);
    ds := ds + [OBJECT];
    var seqs: seq<seq<Class>> := [];
    for i := 0 to |supers|
      invariant seqs == SuperLists(supers[..i], cpls)
    {
      assert supers[..i + 1][..i] == supers[..i];
      assert IsProper(supers[..i + 1], supers[i]) <==> supers[i] != OBJECT && supers[i] != TOP;
      if supers[i] == OBJECT || supers[i] == TOP {
        continue;
      }
      seqs := seqs + [cpls[supers[i]]];
    }
    assert supers[..|supers|] == supers;
    seqs := seqs + [cpls[OBJECT]] + [ds];
    assert seqs == Inputs(supers, cpls);
    var result := MergeLists(seqs);
    if result.Absent? {
      return Absent;
    }
    cpl := Present([klass] + result.value);
    assert cpl.value[1..] == result.value;
  }

  // ----- every class that is ever defined -----

  ghost predicate IsMember(cpls: map<Class, seq<Class>>, cpl: seq<Class>, d: Class) {
    d in cpls && Subsequence(cpls[d], cpl)
  }

  ghost predicate IsGood(cpls: map<Class, seq<Class>>, c: Class, cpl: seq<Class>) {
    && Distinct(cpl) && cpl != [] && cpl[0] == c
    && forall d {:trigger IsMember(cpls, cpl, d)} :: d in cpl ==> IsMember(cpls, cpl, d)
  }

  /** Every list starts with its class, has no duplicates, and has the list of each of its members as a
      subsequence. */
  ghost predicate IsHierarchy(cpls: map<Class, seq<Class>>) {
    && OBJECT in cpls && cpls[OBJECT] == [OBJECT, TOP] && TOP in cpls && cpls[TOP] == [TOP]
    && forall c {:trigger IsGood(cpls, c, cpls[c])} :: c in cpls ==> IsGood(cpls, c, cpls[c])
  }

  function Inputs(supers: seq<Class>, cpls: map<Class, seq<Class>>): seq<seq<Class>>
    requires OBJECT in cpls && forall c :: c in supers ==> c in cpls
  {
    SuperLists(supers, cpls) + [cpls[OBJECT], LocalOrder(supers)]
  }

  lemma {:induction false} FirstSuperList(supers: seq<Class>, cpls: map<Class, seq<Class>>)
    requires supers != [] && IsProper(supers, supers[0]) && forall c :: c in supers ==> c in cpls
    ensures SuperLists(supers, cpls) != [] && SuperLists(supers, cpls)[0] == cpls[supers[0]]
    decreases |supers|
  {
    if |supers| > 1 {
      FirstSuperList(supers[..|supers| - 1], cpls);
    }
  }

  /** The list of the first superclass comes first, before the second superclass, as far as nothing in the other lists
      holds it back. */
  lemma FirstSuperFirst(supers: seq<Class>, cpls: map<Class, seq<Class>>, merged: seq<Class>, n: nat)
    requires OBJECT in cpls && supers != [] && IsProper(supers, supers[0]) && forall c :: c in supers ==> c in cpls
    requires IsMergeOf(merged, Inputs(supers, cpls)) && n <= |cpls[supers[0]]|
    requires forall i {:trigger cpls[supers[0]][..i]} :: 0 <= i < n ==>
        IsReady(Inputs(supers, cpls), cpls[supers[0]][..i], cpls[supers[0]][i])
    ensures n <= |merged| && merged[..n] == cpls[supers[0]][..n]
  {
    FirstSuperList(supers, cpls);
    assert Inputs(supers, cpls)[0] == cpls[supers[0]];
    FirstListFirst(merged, Inputs(supers, cpls), n);
  }

  /** The list of each superclass is a subsequence of the merged list. */
  lemma SupersKept(supers: seq<Class>, cpls: map<Class, seq<Class>>, merged: seq<Class>, c: Class)
    requires IsHierarchy(cpls) && (forall c :: c in supers ==> c in cpls) && Extends(merged, Inputs(supers, cpls))
    requires c in supers || c == OBJECT || c == TOP
    ensures Subsequence(cpls[c], merged)
  {
    var lists, n := Inputs(supers, cpls), |SuperLists(supers, cpls)|;
    assert lists[n] == cpls[OBJECT];
    if IsProper(supers, c) {
      assert cpls[c] in SuperLists(supers, cpls);
      var k :| 0 <= k < n && SuperLists(supers, cpls)[k] == cpls[c];
      assert lists[k] == cpls[c];
    } else if c == TOP {
      SubsequenceSuffix(cpls[OBJECT], merged, 1);
    }
  }

  /** So is the list of every member of the merged list. */
  lemma MembersKept(supers: seq<Class>, cpls: map<Class, seq<Class>>, merged: seq<Class>, d: Class)
    requires IsHierarchy(cpls) && (forall c :: c in supers ==> c in cpls)
    requires Extends(merged, Inputs(supers, cpls)) && OnlyFrom(merged, Inputs(supers, cpls)) && d in merged
    ensures IsMember(cpls, merged, d)
  {
    var lists, n := Inputs(supers, cpls), |SuperLists(supers, cpls)|;
    var k :| 0 <= k < |lists| && d in lists[k];
    if k <= n {
      var c := OBJECT;
      if k < n {
        assert lists[k] in SuperLists(supers, cpls);
        c :| IsProper(supers, c) && lists[k] == cpls[c];
      }
      assert IsGood(cpls, c, cpls[c]) && IsMember(cpls, cpls[c], d);
      SubsequenceTransitive(cpls[d], cpls[c], merged);
    } else {
      SupersKept(supers, cpls, merged, d);
    }
  }

  lemma {:induction false} LaterSequence<T(!new)>(a: seq<T>, x: T, b: seq<T>)
    requires Subsequence(a, b)
    ensures Subsequence(a, [x] + b)
    decreases |b|
  {
    if a != [] {
      var n := |b| - 1;
      assert ([x] + b)[..n + 1] == [x] + b[..n];
      LaterSequence(if a[|a| - 1] == b[n] then a[..|a| - 1] else a, x, b[..n]);
    }
  }

  /** Defining a class keeps the hierarchy: its list has no duplicates, and has the list of every one of its
      ancestors and the order of its superclasses as subsequences. */
  lemma DefinitionKeepsHierarchy(cpls: map<Class, seq<Class>>, klass: Class, supers: seq<Class>, merged: seq<Class>)
    requires IsHierarchy(cpls) && klass !in cpls && forall c :: c in supers ==> c in cpls
    requires Extends(merged, Inputs(supers, cpls)) && OnlyFrom(merged, Inputs(supers, cpls))
    ensures IsHierarchy(cpls[klass := [klass] + merged])
    ensures forall c :: c in supers ==> Subsequence(cpls[c], [klass] + merged)
    ensures Subsequence(LocalOrder(supers), [klass] + merged)
  {
    var cpl := [klass] + merged;
    NewIsGood(cpls, klass, supers, merged);
    OldStayGood(cpls, klass, cpl);
    forall c | c in supers ensures Subsequence(cpls[c], cpl) {
      SupersKept(supers, cpls, merged, c);
      LaterSequence(cpls[c], klass, merged);
    }
    assert Inputs(supers, cpls)[|SuperLists(supers, cpls)| + 1] == LocalOrder(supers);
    LaterSequence(LocalOrder(supers), klass, merged);
  }

  lemma NewIsGood(cpls: map<Class, seq<Class>>, klass: Class, supers: seq<Class>, merged: seq<Class>)
    requires IsHierarchy(cpls) && klass !in cpls && forall c :: c in supers ==> c in cpls
    requires Extends(merged, Inputs(supers, cpls)) && OnlyFrom(merged, Inputs(supers, cpls))
    ensures var cpl := [klass] + merged; IsGood(cpls[klass := cpl], klass, cpl)
  {
    var cpl := [klass] + merged;
    var cpls' := cpls[klass := cpl];
    forall d | d in merged ensures d != klass && IsMember(cpls', cpl, d) {
      MembersKept(supers, cpls, merged, d);
      LaterSequence(cpls[d], klass, merged);
    }
    SubsequenceSelf(cpl);
    assert IsMember(cpls', cpl, klass);
  }

  lemma OldStayGood(cpls: map<Class, seq<Class>>, klass: Class, cpl: seq<Class>)
    requires IsHierarchy(cpls) && klass !in cpls
    ensures forall c {:trigger IsGood(cpls[klass := cpl], c, cpls[c])} :: c in cpls ==>
        IsGood(cpls[klass := cpl], c, cpls[c])
  {
    var cpls' := cpls[klass := cpl];
    forall c | c in cpls ensures IsGood(cpls', c, cpls[c]) {
      assert IsGood(cpls, c, cpls[c]);
      forall d | d in cpls[c] ensures IsMember(cpls', cpls[c], d) {
        assert IsMember(cpls, cpls[c], d);
      }
    }
  }

  ghost predicate EndsInTop(cpl: seq<Class>) {
    |cpl| >= 2 && cpl[|cpl| - 2] == OBJECT && cpl[|cpl| - 1] == TOP
  }

  /** When the lists of the superclasses end in <object> and <top>, so does the merged list. */
  lemma MergedEndsInTop(cpls: map<Class, seq<Class>>, supers: seq<Class>, merged: seq<Class>)
    requires IsHierarchy(cpls) && forall c :: c in supers ==> c in cpls
    requires forall c {:trigger IsProper(supers, c)} :: IsProper(supers, c) ==> EndsInTop(cpls[c])
    requires Extends(merged, Inputs(supers, cpls)) && OnlyFrom(merged, Inputs(supers, cpls))
    ensures EndsInTop(merged)
  {
    SupersKept(supers, cpls, merged, OBJECT);
    OrderKept([OBJECT, TOP], merged, 0, 1);
    forall x | x in merged && x != OBJECT && x != TOP ensures Before(merged, x, OBJECT) {
      BeforeObject(cpls, supers, merged, x);
    }
    var n := |merged|;
    var i, j :| 0 <= i < j < n && merged[i] == OBJECT && merged[j] == TOP;
    assert merged[n - 1] == TOP by {
      var y := merged[n - 1];
      assert y != OBJECT && y != TOP ==> Before(merged, y, OBJECT);
    }
    assert merged[n - 2] == OBJECT by {
      var y := merged[n - 2];
      assert y != OBJECT && y != TOP ==> Before(merged, y, OBJECT);
    }
  }

  lemma BeforeObject(cpls: map<Class, seq<Class>>, supers: seq<Class>, merged: seq<Class>, x: Class)
    requires OBJECT in cpls && cpls[OBJECT] == [OBJECT, TOP] && forall c :: c in supers ==> c in cpls
    requires forall c {:trigger IsProper(supers, c)} :: IsProper(supers, c) ==> EndsInTop(cpls[c])
    requires Extends(merged, Inputs(supers, cpls)) && OnlyFrom(merged, Inputs(supers, cpls))
    requires x in merged && x != OBJECT && x != TOP
    ensures Before(merged, x, OBJECT)
  {
    var lists, n := Inputs(supers, cpls), |SuperLists(supers, cpls)|;
    var k :| 0 <= k < |lists| && x in lists[k];
    if k < n {
      FromSuper(cpls, supers, lists[k], merged, x);
    } else {
      BeforeIn(lists[k], merged, x, if k == n then 0 else |lists[k]| - 1);
    }
  }

  lemma FromSuper(cpls: map<Class, seq<Class>>, supers: seq<Class>, list: seq<Class>, merged: seq<Class>, x: Class)
    requires (forall c :: c in supers ==> c in cpls) && list in SuperLists(supers, cpls) && Subsequence(list, merged)
    requires forall c {:trigger IsProper(supers, c)} :: IsProper(supers, c) ==> EndsInTop(cpls[c])
    requires x in list && x != OBJECT && x != TOP
    ensures Before(merged, x, OBJECT)
  {
    var c :| IsProper(supers, c) && list == cpls[c];
    BeforeIn(list, merged, x, |list| - 2);
  }

  lemma BeforeIn(list: seq<Class>, merged: seq<Class>, x: Class, last: nat)
    requires Subsequence(list, merged) && last < |list| && list[last] == OBJECT
    requires x in list && x != OBJECT && x != TOP && forall i :: last < i < |list| ==> list[i] == TOP
    ensures Before(merged, x, OBJECT)
  {
    var at :| 0 <= at < |list| && list[at] == x;
    OrderKept(list, merged, at, last);
  }
}
