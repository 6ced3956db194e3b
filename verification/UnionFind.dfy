/**
 Partitions of a finite set of objects, given by labelling every object with its class.  This is the
 meaning of the box forest below: merging two objects joins their classes, and any run
 of merges yields the equivalence closure of the merged pairs.
 */
module Partitions {
  import opened Objects

  /** Two objects are in the same class when they carry the same label. */
  type Partition = map<Obj, Obj>

  ghost function Discrete(universe: set<Obj>): Partition {
    map o | o in universe :: o
  }

  ghost function Merge(p: Partition, x: Obj, y: Obj): (q: Partition)
    requires x in p && y in p
    ensures q.Keys == p.Keys
  {
    map o | o in p :: if p[o] == p[x] then p[y] else p[o]
  }

  ghost predicate InUniverse(universe: set<Obj>, pairs: seq<(Obj, Obj)>) {
    forall i :: 0 <= i < |pairs| ==> pairs[i].0 in universe && pairs[i].1 in universe
  }

  ghost function MergeAll(universe: set<Obj>, pairs: seq<(Obj, Obj)>): (p: Partition)
    requires InUniverse(universe, pairs)
    ensures p.Keys == universe
  {
    if pairs == [] then Discrete(universe)
    else
      var last := pairs[|pairs| - 1];
      Merge(MergeAll(universe, pairs[..|pairs| - 1]), last.0, last.1)
  }

  /** `p` only joins classes of `q`, it never splits one. */
  ghost predicate Coarser(p: Partition, q: Partition) {
    p.Keys == q.Keys && forall x, y :: x in q && y in q && q[x] == q[y] ==> p[x] == p[y]
  }

  lemma MergeAllSnoc(universe: set<Obj>, pairs: seq<(Obj, Obj)>, x: Obj, y: Obj)
    requires InUniverse(universe, pairs) && x in universe && y in universe
    ensures InUniverse(universe, pairs + [(x, y)])
    ensures MergeAll(universe, pairs + [(x, y)]) == Merge(MergeAll(universe, pairs), x, y)
  {
    assert (pairs + [(x, y)])[..|pairs|] == pairs;
  }

  lemma MergeTogether(p: Partition, x: Obj, y: Obj)
    requires x in p && y in p
    ensures p[x] == p[y] ==> Merge(p, x, y) == p
  {
  }

  /** The classes of `p` that have a member in `some`. */
  ghost function Classes(p: Partition, some: set<Obj>): set<Obj> {
    set o | o in some && o in p :: p[o]
  }

  lemma MergeDropsOneClass(p: Partition, some: set<Obj>, x: Obj, y: Obj)
    requires x in p && y in p && x in some && y in some
    requires p[x] != p[y]
    ensures Classes(Merge(p, x, y), some) == Classes(p, some) - {p[x]}
    ensures |Classes(Merge(p, x, y), some)| == |Classes(p, some)| - 1
  {
  }

  lemma MergeKeepsOtherClasses(p: Partition, some: set<Obj>, x: Obj, y: Obj)
    requires x in p && y in p
    requires forall o :: o in p && (p[o] == p[x] || p[o] == p[y]) ==> o !in some
    ensures Classes(Merge(p, x, y), some) == Classes(p, some)
  {
  }

  ghost predicate IsEquivalenceRelation(E: (Obj, Obj) -> bool) {
    && (forall a :: E(a, a))
    && (forall a, b :: E(a, b) ==> E(b, a))
    && (forall a, b, c :: E(a, b) && E(b, c) ==> E(a, c))
  }

  ghost predicate Contains(E: (Obj, Obj) -> bool, pairs: seq<(Obj, Obj)>) {
    forall i :: 0 <= i < |pairs| ==> E(pairs[i].0, pairs[i].1)
  }

  /** `x` and `y` are related by the least equivalence relation containing `pairs`. */
  ghost predicate InClosure(pairs: seq<(Obj, Obj)>, x: Obj, y: Obj) {
    forall E: (Obj, Obj) -> bool :: IsEquivalenceRelation(E) && Contains(E, pairs) ==> E(x, y)
  }

  lemma {:induction false} MergedIsRelated(universe: set<Obj>, pairs: seq<(Obj, Obj)>, E: (Obj, Obj) -> bool, x: Obj,
      y: Obj)
    requires InUniverse(universe, pairs) && x in universe && y in universe
    requires IsEquivalenceRelation(E) && Contains(E, pairs)
    requires MergeAll(universe, pairs)[x] == MergeAll(universe, pairs)[y]
    ensures E(x, y)
  {
    if pairs != [] {
      var init, last := pairs[..|pairs| - 1], pairs[|pairs| - 1];
      var p := MergeAll(universe, init);
      assert E(last.0, last.1);
      if p[x] == p[y] {
        MergedIsRelated(universe, init, E, x, y);
      } else if p[x] == p[last.0] {
        MergedIsRelated(universe, init, E, x, last.0);
        MergedIsRelated(universe, init, E, last.1, y);
        assert E(x, last.1);
      } else {
        MergedIsRelated(universe, init, E, x, last.1);
        MergedIsRelated(universe, init, E, last.0, y);
        assert E(x, last.0);
      }
    }
  }

  lemma {:induction false} MergedPairsAreTogether(universe: set<Obj>, pairs: seq<(Obj, Obj)>, i: nat)
    requires InUniverse(universe, pairs) && i < |pairs|
    ensures MergeAll(universe, pairs)[pairs[i].0] == MergeAll(universe, pairs)[pairs[i].1]
  {
    var init := pairs[..|pairs| - 1];
    if i < |init| {
      MergedPairsAreTogether(universe, init, i);
      assert init[i] == pairs[i];
    }
  }

  /** The classes left by any run of merges are exactly the equivalence closure of the merged pairs. */
  lemma MergeAllIsClosure(universe: set<Obj>, pairs: seq<(Obj, Obj)>, x: Obj, y: Obj)
    requires InUniverse(universe, pairs) && x in universe && y in universe
    ensures MergeAll(universe, pairs)[x] == MergeAll(universe, pairs)[y] <==> InClosure(pairs, x, y)
  {
    var p := MergeAll(universe, pairs);
    if p[x] == p[y] {
      forall E: (Obj, Obj) -> bool | IsEquivalenceRelation(E) && Contains(E, pairs) ensures E(x, y) {
        MergedIsRelated(universe, pairs, E, x, y);
      }
    }
    if InClosure(pairs, x, y) {
      var E := (a: Obj, b: Obj) => a == b || (a in p && b in p && p[a] == p[b]);
      forall i | 0 <= i < |pairs| ensures E(pairs[i].0, pairs[i].1) {
        MergedPairsAreTogether(universe, pairs, i);
      }
      assert IsEquivalenceRelation(E) && Contains(E, pairs);
      assert E(x, y);
    }
  }
}

/** The box forest of src/compare.c: `find` with path splitting and `union_find`. */
module BoxForest {
  import opened Objects
  import opened Partitions

  /** A box holds either the weight of its class or a link towards the root of its tree. */
  datatype BoxValue = Weight(n: int) | Link(next: Box)

  class Box {
    var value: BoxValue
    ghost var root: Box
    ghost var rank: nat

    constructor (n: int)
      ensures value == Weight(n) && root == this && rank == 0
    {
      value := Weight(n);
      root, rank := this, 0;
    }
  }

  /** The link of `b`, if it has one, stays in the forest, keeps the root and climbs in rank. */
  ghost predicate IsPlaced(b: Box, boxes: set<Box>)
    reads b, boxes
  {
    && b.root in boxes && b.root.root == b.root
    && (b.value.Weight? <==> b.root == b)
    && (b.value.Link? ==>
          b.value.next in boxes && b.value.next.root == b.root && b.rank < b.value.next.rank)
  }

  /** Ranks climb along links, so the boxes form trees: no chain of links comes back to its start. */
  ghost predicate IsForest(boxes: set<Box>)
    reads boxes
  {
    forall b {:trigger IsPlaced(b, boxes)} :: b in boxes ==> IsPlaced(b, boxes)
  }

  class UnionFind {
    /** The `eq?` hash table from objects to boxes. */
    var table: map<Obj, Box>

    ghost const universe: set<Obj>
    ghost var boxes: set<Box>
    /** The pairs that were not yet together when `Union` was called on them. */
    ghost var merged: seq<(Obj, Obj)>

    ghost function Parts(): Partition
      reads this
      requires InUniverse(universe, merged)
    {
      MergeAll(universe, merged)
    }

    ghost predicate IsTable(p: Partition)
      reads this`table, this`boxes
    {
      table.Keys <= p.Keys && forall o :: o in table ==> table[o] in boxes
    }

    /** The forest and `p` agree on whether `x` and `y` belong together; an object without a box is alone. */
    ghost predicate Agree(p: Partition, x: Obj, y: Obj)
      requires IsTable(p) && x in p && y in p
      reads this`table, this`boxes, boxes
    {
      p[x] == p[y] <==> x == y || (x in table && y in table && table[x].root == table[y].root)
    }

    /** The trees of the forest are the classes of `p`. */
    ghost predicate Represents(p: Partition)
      reads this`table, this`boxes, boxes
    {
      && IsForest(boxes)
      && IsTable(p)
      && forall x, y {:trigger Agree(p, x, y)} :: x in p && y in p ==> Agree(p, x, y)
    }

    ghost predicate Valid()
      reads this, boxes
    {
      InUniverse(universe, merged) && Represents(Parts())
    }

    /** Two different objects in one class both have a box. */
    lemma TogetherInTable(x: Obj, y: Obj)
      requires Valid() && x in universe && y in universe && x != y && Parts()[x] == Parts()[y]
      ensures x in table && y in table
    {
      assert Agree(Parts(), x, y);
    }

    constructor (ghost universe: set<Obj>)
      ensures Valid() && boxes == {} && merged == [] && this.universe == universe && table == map[]
    {
      table := map[];
      this.universe := universe;
      boxes, merged := {}, [];
    }

    /** Path splitting: every visited box is relinked to its grandparent.  The trees change,
        the root of every box does not. */
    method Find(b0: Box) returns (r: Box)
      requires IsForest(boxes) && b0 in boxes
      modifies boxes
      ensures IsForest(boxes) && r == b0.root && r in boxes && r.value.Weight?
      ensures forall b :: b in boxes ==> b.root == old(b.root)
      ensures forall b :: b in boxes && old(b.value.Weight?) ==> b.value == old(b.value)
    {
      var b := b0;
      assert IsPlaced(b, boxes);
      if b.value.Weight? {
        return b;
      }
      var n := b.value.next;
      ghost var above := boxes;
      while true
        invariant IsForest(boxes)
        invariant b in boxes && n in boxes && b.root == old(b0.root) && b.value == Link(n)
        invariant forall b :: b in boxes ==> b.root == old(b.root) && b.rank == old(b.rank)
        invariant forall b :: b in boxes && old(b.value.Weight?) ==> b.value == old(b.value)
        invariant forall c :: c in boxes && c.rank > n.rank ==> c in above
        decreases above
      {
        assert IsPlaced(n, boxes) && IsPlaced(b, boxes);
        var nn := n.value;
        if nn.Weight? {
          return n;
        }
        label before:
        b.value := nn;
        forall c | c in boxes ensures IsPlaced(c, boxes) {
          assert old@before(IsPlaced(c, boxes));
        }
        b := n;
        n := nn.next;
        above := above - {n};
      }
    }

    /** Hangs the tree of root `c` under root `p`. */
    method Attach(c: Box, p: Box, weight: int)
      requires IsForest(boxes) && c in boxes && p in boxes && c != p && c.value.Weight? && p.value.Weight?
      modifies boxes
      ensures IsForest(boxes)
      ensures forall b :: b in boxes ==> b.root == if old(b.root) == c then p else old(b.root)
      ensures c.value == Link(p) && p.value == Weight(weight)
    {
      assert IsPlaced(c, boxes) && IsPlaced(p, boxes);
      c.value := Link(p);
      p.value := Weight(weight);
      p.rank := p.rank + c.rank + 1;
      forall b | b in boxes && b.root == c {
        b.root := p;
      }
      forall b | b in boxes ensures IsPlaced(b, boxes) {
        assert old(IsPlaced(b, boxes));
      }
    }

    /** `union_find`, against any partition the forest represents. */
    method Join(x: Obj, y: Obj, ghost p: Partition) returns (already: bool)
      requires x in p && y in p && Represents(p)
      modifies this`table, this`boxes, boxes
      ensures fresh(boxes - old(boxes))
      ensures Represents(Merge(p, x, y))
      ensures already <==> x in old(table) && p[x] == p[y]
    {
      assert Agree(p, x, y);
      already := false;
      if x !in table {
        if y !in table {
          var b := new Box(1);
          table := table[x := b][y := b];
          boxes := boxes + {b};
          forall c | c in boxes ensures IsPlaced(c, boxes) {
            assert c != b ==> old(IsPlaced(c, boxes));
          }
        } else {
          var ry := Find(table[y]);
          table := table[x := ry];
          assert IsPlaced(ry, boxes);
        }
      } else if y !in table {
        var rx := Find(table[x]);
        table := table[y := rx];
        assert IsPlaced(rx, boxes);
      } else {
        var rx := Find(table[x]);
        var ry := Find(table[y]);
        if rx == ry {
          already := true;
        } else {
          var nx, ny := rx.value.n, ry.value.n;
          if nx > ny {
            Attach(ry, rx, nx + ny);
          } else {
            Attach(rx, ry, ny + nx);
          }
        }
      }
      forall u, v | u in p && v in p ensures Agree(Merge(p, x, y), u, v) {
        assert old(Agree(p, u, v)) && old(Agree(p, u, x)) && old(Agree(p, u, y));
        assert old(Agree(p, v, x)) && old(Agree(p, v, y));
      }
    }

    /** Answers whether `x` and `y` already had boxes in one tree, and joins their classes otherwise. */
    method Union(x: Obj, y: Obj) returns (already: bool)
      requires Valid() && x in universe && y in universe
      modifies this, boxes
      ensures Valid() && fresh(boxes - old(boxes))
      ensures merged == if already then old(merged) else old(merged) + [(x, y)]
      ensures Parts() == Merge(old(Parts()), x, y)
      ensures already <==> x in old(table) && old(Parts())[x] == old(Parts())[y]
    {
      ghost var p := Parts();
      MergeAllSnoc(universe, merged, x, y);
      MergeTogether(p, x, y);
      already := Join(x, y, p);
      merged := if already then merged else merged + [(x, y)];
    }
  }
}
