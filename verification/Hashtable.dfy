/** Hash tables with chained buckets (src/hashtable.c). */
module Hashtable {
  import opened Modular

  /** Two keys are the same for the table's `compare` when they belong to the same class. */
  datatype Key = Key(class_: nat, id: nat)

  datatype Option<T> = Unset | Set(value: T)

  class Entry {
    const key: Key
    const hash: nat
    var value: Option<int>
    var next: Entry?

    constructor (key: Key, hash: nat, next: Entry?)
      ensures this.key == key && this.hash == hash && this.next == next && value == Unset
    {
      this.key, this.hash, this.next, value := key, hash, next, Unset;
    }
  }

  const DEFAULT_BUCKET_COUNT: nat := 4
  const MAX_AVG_CHAIN_LIMIT: nat := 3
  const EXTEND_BITS: nat := 2

  /** How a table of 2^bits buckets finds the bucket of a hash value. */
  type Indexer = (nat, nat) -> nat

  ghost predicate IsIndexer(at: Indexer) {
    forall bits: nat, h: nat {:trigger at(bits, h)} :: at(bits, h) < Pow2(bits)
  }

  /** HASH2INDEX, on 32-bit hash values. */
  function Hash2Index(bits: nat, h: nat): (i: nat)
    ensures i < Pow2(bits)
  {
    var folded := if bits <= 32 then h / Pow2(32 - bits) else h;
    (h + folded) % 0x1_0000_0000 % Pow2(bits)
  }

  // ----- chains -----

  ghost function Succ(chain: seq<Entry>, j: nat): Entry? {
    if j + 1 < |chain| then chain[j + 1] else null
  }

  ghost function Head(chain: seq<Entry>): Entry? {
    if chain == [] then null else chain[0]
  }

  /** What the `next` fields say: the entries of the chain from `from` on follow each other. */
  ghost predicate Linked(links: map<Entry, Entry?>, chain: seq<Entry>, from: nat) {
    forall j {:trigger LinkOk(links, chain, j)} :: from <= j < |chain| ==> LinkOk(links, chain, j)
  }

  ghost predicate LinkOk(links: map<Entry, Entry?>, chain: seq<Entry>, j: nat)
    requires j < |chain|
  {
    chain[j] in links && links[chain[j]] == Succ(chain, j)
  }

  ghost predicate Distinct(s: seq<Entry>) {
    forall i, j :: 0 <= i < j < |s| ==> s[i] != s[j]
  }

  /** An entry that may stand in bucket `b`. */
  ghost predicate Belongs(at: Indexer, bits: nat, entries: set<Entry>, b: nat, e: Entry) {
    e in entries && at(bits, e.hash) == b
  }

  ghost predicate ChainOk(at: Indexer, bits: nat, entries: set<Entry>, b: nat, chain: seq<Entry>) {
    Distinct(chain) && forall j {:trigger Belongs(at, bits, entries, b, chain[j])} :: 0 <= j < |chain| ==>
        Belongs(at, bits, entries, b, chain[j])
  }

  /** Every entry stands in the chain of its bucket and nowhere else. */
  ghost predicate Placed(at: Indexer, bits: nat, chains: seq<seq<Entry>>, entries: set<Entry>) {
    && IsIndexer(at) && |chains| == Pow2(bits)
    && (forall b {:trigger ChainOk(at, bits, entries, b, chains[b])} :: 0 <= b < |chains| ==>
        ChainOk(at, bits, entries, b, chains[b]))
    && (forall e {:trigger AtHome(at, bits, chains, e)} :: e in entries ==> AtHome(at, bits, chains, e))
  }

  ghost predicate AtHome(at: Indexer, bits: nat, chains: seq<seq<Entry>>, e: Entry) {
    at(bits, e.hash) < |chains| && e in chains[at(bits, e.hash)]
  }

  /** The contents of a table: one entry for every class of keys. */
  ghost predicate IsMap(contents: map<nat, Entry>, entries: set<Entry>, hasher: nat -> nat) {
    && (forall c {:trigger ClassOk(contents, entries, c)} :: c in contents ==> ClassOk(contents, entries, c))
    && (forall e {:trigger EntryOk(contents, hasher, e)} :: e in entries ==> EntryOk(contents, hasher, e))
  }

  ghost predicate ClassOk(contents: map<nat, Entry>, entries: set<Entry>, c: nat)
    requires c in contents
  {
    contents[c] in entries && contents[c].key.class_ == c
  }

  ghost predicate EntryOk(contents: map<nat, Entry>, hasher: nat -> nat, e: Entry) {
    e.key.class_ in contents && contents[e.key.class_] == e && e.hash == hasher(e.key.class_)
  }

  ghost function Members(s: seq<Entry>): set<Entry> {
    set e | e in s
  }

  lemma MembersNext(s: seq<Entry>, n: nat)
    requires Distinct(s) && n < |s|
    ensures s[n] !in Members(s[..n]) && s[n] in Members(s) && Members(s[..n + 1]) == Members(s[..n]) + {s[n]}
  {
  }

  /** The chains from bucket `k` on, one after the other: the order of iteration. */
  ghost function Flat(chains: seq<seq<Entry>>, k: nat): seq<Entry>
    decreases |chains| - k
  {
    if k >= |chains| then [] else chains[k] + Flat(chains, k + 1)
  }

  lemma {:induction false} FromFlat(chains: seq<seq<Entry>>, k: nat, e: Entry) returns (b: nat)
    requires e in Flat(chains, k)
    ensures k <= b < |chains| && e in chains[b]
    decreases |chains| - k
  {
    b := k;
    if e !in chains[k] {
      b := FromFlat(chains, k + 1, e);
    }
  }

  lemma {:induction false} InFlat(chains: seq<seq<Entry>>, k: nat, b: nat, e: Entry)
    requires k <= b < |chains| && e in chains[b]
    ensures e in Flat(chains, k)
    decreases b - k
  {
    if k < b {
      InFlat(chains, k + 1, b, e);
    }
  }

  lemma {:induction false} FlatIsDistinct(at: Indexer, bits: nat, chains: seq<seq<Entry>>, entries: set<Entry>, k: nat)
    requires Placed(at, bits, chains, entries)
    ensures Distinct(Flat(chains, k))
    decreases |chains| - k
  {
    if k < |chains| {
      FlatIsDistinct(at, bits, chains, entries, k + 1);
      var here, later := chains[k], Flat(chains, k + 1);
      assert ChainOk(at, bits, entries, k, here);
      forall i, j | 0 <= i < |here| && 0 <= j < |later| ensures here[i] != later[j] {
        var b := FromFlat(chains, k + 1, later[j]);
        InChain(at, bits, chains, entries, b, later[j]);
        assert Belongs(at, bits, entries, k, here[i]);
      }
    }
  }

  lemma InChain(at: Indexer, bits: nat, chains: seq<seq<Entry>>, entries: set<Entry>, b: nat, e: Entry)
    requires Placed(at, bits, chains, entries) && b < |chains| && e in chains[b]
    ensures Belongs(at, bits, entries, b, e)
  {
    var n :| 0 <= n < |chains[b]| && chains[b][n] == e;
    assert ChainOk(at, bits, entries, b, chains[b]);
  }

  /** Iteration meets every entry, and none twice. */
  lemma FlatIsAll(at: Indexer, bits: nat, chains: seq<seq<Entry>>, entries: set<Entry>)
    requires Placed(at, bits, chains, entries)
    ensures Distinct(Flat(chains, 0)) && forall e :: e in Flat(chains, 0) <==> e in entries
  {
    FlatIsDistinct(at, bits, chains, entries, 0);
    forall e ensures e in Flat(chains, 0) <==> e in entries {
      if e in Flat(chains, 0) {
        var b := FromFlat(chains, 0, e);
        InChain(at, bits, chains, entries, b, e);
      }
      if e in entries {
        assert AtHome(at, bits, chains, e);
        InFlat(chains, 0, at(bits, e.hash), e);
      }
    }
  }

  /** Buckets and links form the given chains. */
  ghost predicate Structured(at: Indexer, bits: nat, heads: seq<Entry?>, chains: seq<seq<Entry>>,
      links: map<Entry, Entry?>) {
    && Placed(at, bits, chains, links.Keys) && |heads| == |chains|
    && forall b {:trigger BucketOk(heads, chains, links, b)} :: 0 <= b < |chains| ==> BucketOk(heads, chains, links, b)
  }

  ghost predicate BucketOk(heads: seq<Entry?>, chains: seq<seq<Entry>>, links: map<Entry, Entry?>, b: nat)
    requires b < |chains| == |heads|
  {
    heads[b] == Head(chains[b]) && Linked(links, chains[b], 0)
  }

  lemma PlacedInsert(at: Indexer, bits: nat, chains: seq<seq<Entry>>, entries: set<Entry>, e: Entry)
    requires Placed(at, bits, chains, entries) && e !in entries
    ensures var b := at(bits, e.hash); Placed(at, bits, chains[b := [e] + chains[b]], entries + {e})
  {
    var b, entries' := at(bits, e.hash), entries + {e};
    var chains' := chains[b := [e] + chains[b]];
    forall k | 0 <= k < |chains'| ensures ChainOk(at, bits, entries', k, chains'[k]) {
      assert ChainOk(at, bits, entries, k, chains[k]);
      forall j | 0 <= j < |chains'[k]| ensures Belongs(at, bits, entries', k, chains'[k][j]) {
        if k != b {
          assert Belongs(at, bits, entries, k, chains[k][j]);
        } else if j > 0 {
          assert Belongs(at, bits, entries, k, chains[k][j - 1]);
        }
      }
      forall i, j | 0 <= i < j < |chains'[k]| ensures chains'[k][i] != chains'[k][j] {
        if k == b {
          assert Belongs(at, bits, entries, k, chains[k][j - 1]);
        }
      }
    }
    forall x | x in entries' ensures AtHome(at, bits, chains', x) {
      if x != e {
        assert AtHome(at, bits, chains, x);
      }
    }
  }

  lemma PlacedDelete(at: Indexer, bits: nat, chains: seq<seq<Entry>>, entries: set<Entry>, b: nat, j: nat)
    requires Placed(at, bits, chains, entries) && b < |chains| && j < |chains[b]|
    ensures Placed(at, bits, chains[b := chains[b][..j] + chains[b][j + 1..]], entries - {chains[b][j]})
  {
    var e := chains[b][j];
    assert ChainOk(at, bits, entries, b, chains[b]);
    var entries' := entries - {e};
    var chains' := chains[b := chains[b][..j] + chains[b][j + 1..]];
    InChain(at, bits, chains, entries, b, e);
    forall k | 0 <= k < |chains'| ensures ChainOk(at, bits, entries', k, chains'[k]) {
      assert ChainOk(at, bits, entries, k, chains[k]) && ChainOk(at, bits, entries, b, chains[b]);
      forall i | 0 <= i < |chains'[k]| ensures Belongs(at, bits, entries', k, chains'[k][i]) {
        assert Belongs(at, bits, entries, k, chains[k][if k == b && i >= j then i + 1 else i]);
      }
    }
    forall x | x in entries' ensures AtHome(at, bits, chains', x) {
      assert AtHome(at, bits, chains, x);
    }
  }

  lemma StructureInsert(at: Indexer, bits: nat, heads: seq<Entry?>, chains: seq<seq<Entry>>, links: map<Entry, Entry?>,
      e: Entry)
    requires Structured(at, bits, heads, chains, links) && e !in links
    ensures var b := at(bits, e.hash);
            Structured(at, bits, heads[b := e], chains[b := [e] + chains[b]], links[e := heads[b]])
  {
    var b := at(bits, e.hash);
    var heads', chains', links' := heads[b := e], chains[b := [e] + chains[b]], links[e := heads[b]];
    PlacedInsert(at, bits, chains, links.Keys, e);
    assert links'.Keys == links.Keys + {e};
    forall k | 0 <= k < |chains'| ensures BucketOk(heads', chains', links', k) {
      assert BucketOk(heads, chains, links, k) && ChainOk(at, bits, links'.Keys, k, chains'[k]);
      forall j | 0 <= j < |chains'[k]| ensures LinkOk(links', chains'[k], j) {
        if k != b {
          assert LinkOk(links, chains[k], j);
        } else if j > 0 {
          assert LinkOk(links, chains[k], j - 1);
        }
      }
    }
  }

  lemma StructureDelete(at: Indexer, bits: nat, heads: seq<Entry?>, chains: seq<seq<Entry>>, links: map<Entry, Entry?>,
      b: nat, j: nat)
    requires Structured(at, bits, heads, chains, links) && b < |chains| && j < |chains[b]|
    ensures var chain := chains[b];
            chain[j] in links && (j > 0 ==> chain[j - 1] in links) &&
            Structured(at, bits, if j == 0 then heads[b := links[chain[j]]] else heads,
                       chains[b := chain[..j] + chain[j + 1..]],
                       (if j == 0 then links else links[chain[j - 1] := links[chain[j]]]) - {chain[j]})
  {
    var chain := chains[b];
    assert BucketOk(heads, chains, links, b) && ChainOk(at, bits, links.Keys, b, chain);
    assert LinkOk(links, chain, j) && (j > 0 ==> LinkOk(links, chain, j - 1));
    var e := chain[j];
    var heads' := if j == 0 then heads[b := links[e]] else heads;
    var chains' := chains[b := chain[..j] + chain[j + 1..]];
    var links' := (if j == 0 then links else links[chain[j - 1] := links[e]]) - {e};
    PlacedDelete(at, bits, chains, links.Keys, b, j);
    assert links'.Keys == links.Keys - {e};
    forall k | 0 <= k < |chains'| ensures BucketOk(heads', chains', links', k) {
      assert BucketOk(heads, chains, links, k) && ChainOk(at, bits, links.Keys, k, chains[k]);
      forall i | 0 <= i < |chains'[k]| ensures LinkOk(links', chains'[k], i) {
        var i' := if k == b && i >= j then i + 1 else i;
        assert LinkOk(links, chains[k], i') && LinkOk(links, chain, j);
        assert chains'[k][i] == chains[k][i'] && Belongs(at, bits, links.Keys, k, chains[k][i']);
        assert Belongs(at, bits, links.Keys, b, chain[j]) && (j > 0 ==> Belongs(at, bits, links.Keys, b, chain[j - 1]));
      }
    }
  }

  lemma MapInsert(contents: map<nat, Entry>, entries: set<Entry>, hasher: nat -> nat, e: Entry)
    requires IsMap(contents, entries, hasher) && e.key.class_ !in contents && e.hash == hasher(e.key.class_)
    ensures IsMap(contents[e.key.class_ := e], entries + {e}, hasher)
  {
    var contents', entries' := contents[e.key.class_ := e], entries + {e};
    forall c | c in contents' ensures ClassOk(contents', entries', c) {
      assert c in contents ==> ClassOk(contents, entries, c);
    }
    forall x | x in entries' ensures EntryOk(contents', hasher, x) {
      assert x in entries ==> EntryOk(contents, hasher, x);
    }
  }

  lemma MapDelete(contents: map<nat, Entry>, entries: set<Entry>, hasher: nat -> nat, e: Entry)
    requires IsMap(contents, entries, hasher) && e in entries
    ensures e.key.class_ in contents && IsMap(contents - {e.key.class_}, entries - {e}, hasher)
    ensures |contents - {e.key.class_}| == |contents| - 1
  {
    assert EntryOk(contents, hasher, e);
    var contents', entries' := contents - {e.key.class_}, entries - {e};
    forall c | c in contents' ensures ClassOk(contents', entries', c) {
      assert ClassOk(contents, entries, c);
    }
    forall x | x in entries' ensures EntryOk(contents', hasher, x) {
      assert EntryOk(contents, hasher, x);
    }
    MapWithout(contents, e.key.class_);
  }

  lemma MapWithout(m: map<nat, Entry>, c: nat)
    requires c in m
    ensures |m - {c}| == |m| - 1
  {
  }

  lemma EmptyStructure(at: Indexer, bits: nat, heads: seq<Entry?>, chains: seq<seq<Entry>>)
    requires IsIndexer(at) && |heads| == |chains| == Pow2(bits)
    requires forall b :: 0 <= b < |heads| ==> heads[b] == null && chains[b] == []
    ensures Structured(at, bits, heads, chains, map[])
  {
  }

  /** The ghost state of a table: buckets, chains, links and contents. */
  datatype Picture = Picture(heads: seq<Entry?>, chains: seq<seq<Entry>>, links: map<Entry, Entry?>,
      contents: map<nat, Entry>)

  ghost predicate IsPicture(at: Indexer, hasher: nat -> nat, bits: nat, p: Picture) {
    match p
    case Picture(heads, chains, links, contents) =>
      Structured(at, bits, heads, chains, links) && IsMap(contents, links.Keys, hasher)
  }

  ghost function WithEntry(p: Picture, b: nat, e: Entry): Picture
    requires b < |p.heads| == |p.chains|
  {
    Picture(p.heads[b := e], p.chains[b := [e] + p.chains[b]], p.links[e := p.heads[b]], p.contents[e.key.class_ := e])
  }

  lemma Inserted(at: Indexer, hasher: nat -> nat, bits: nat, p: Picture, e: Entry)
    requires IsPicture(at, hasher, bits, p) && e !in p.links && e.key.class_ !in p.contents
        && e.hash == hasher(e.key.class_)
    ensures at(bits, e.hash) < |p.heads| == |p.chains|
    ensures IsPicture(at, hasher, bits, WithEntry(p, at(bits, e.hash), e))
  {
    StructureInsert(at, bits, p.heads, p.chains, p.links, e);
    MapInsert(p.contents, p.links.Keys, hasher, e);
    assert p.links[e := p.heads[at(bits, e.hash)]].Keys == p.links.Keys + {e};
  }

  ghost function WithoutEntry(p: Picture, b: nat, j: nat): Picture
    requires b < |p.heads| == |p.chains| && j < |p.chains[b]| && p.chains[b][j] in p.links
  {
    var chain := p.chains[b];
    var e := chain[j];
    Picture(if j == 0 then p.heads[b := p.links[e]] else p.heads, p.chains[b := chain[..j] + chain[j + 1..]],
            (if j == 0 then p.links else p.links[chain[j - 1] := p.links[e]]) - {e}, p.contents - {e.key.class_})
  }

  lemma Deleted(at: Indexer, hasher: nat -> nat, bits: nat, p: Picture, b: nat, j: nat)
    requires IsPicture(at, hasher, bits, p) && b < |p.heads| == |p.chains| && j < |p.chains[b]|
    ensures p.chains[b][j] in p.links && p.chains[b][j].key.class_ in p.contents
        && (j > 0 ==> p.chains[b][j - 1] in p.links && p.chains[b][j - 1] != p.chains[b][j])
    ensures IsPicture(at, hasher, bits, WithoutEntry(p, b, j))
    ensures |WithoutEntry(p, b, j).contents| == |p.contents| - 1
  {
    StructureDelete(at, bits, p.heads, p.chains, p.links, b, j);
    MapDelete(p.contents, p.links.Keys, hasher, p.chains[b][j]);
    assert ChainOk(at, bits, p.links.Keys, b, p.chains[b]);
    assert WithoutEntry(p, b, j).links.Keys == p.links.Keys - {p.chains[b][j]};
  }

  /** The least power of two that is not below `val`. */
  method Round2Up(val: nat) returns (n: nat, ghost k: nat)
    ensures n == Pow2(k) && val <= n && (k == 0 || Pow2(k - 1) < val)
  {
    n, k := 1, 0;
    while n < val
      invariant n == Pow2(k) && (k == 0 || Pow2(k - 1) < val)
    {
      Pow2Step(k + 1);
      n, k := 2 * n, k + 1;
    }
  }

  method Log2(n: nat, ghost k: nat) returns (log: nat)
    requires n == Pow2(k)
    ensures log == k
  {
    var i := n;
    log := 0;
    while i > 1
      invariant log <= k && i == Pow2(k - log)
    {
      Pow2Step(k - log);
      i, log := i / 2, log + 1;
    }
    if log < k {
      Pow2Step(k - log);
    }
  }

  // ----- the table -----

  /** A growing table: all entries in the order of iteration, how many are moved, and the new chains and links. */
  datatype Growth = Growth(all: seq<Entry>, n: nat, chains: seq<seq<Entry>>, links: map<Entry, Entry?>)

  /** The entry `e` stands at position `j` of bucket `b`, after `p`. */
  ghost predicate Stands(chains: seq<seq<Entry>>, b: nat, j: nat, e: Entry?, p: Entry?) {
    b < |chains| && j < |chains[b]| && chains[b][j] == e && p == if j == 0 then null else chains[b][j - 1]
  }

  ghost function Just(p: Entry?): set<Entry> {
    if p == null then {} else {p}
  }

  /** Lets the entry before `e`, or its bucket, point to the entry after it. */
  method Bypass(buckets: array<Entry?>, index: nat, e: Entry, p: Entry?)
    requires index < buckets.Length && p != e
    modifies buckets, Just(p)`next, e`next
    ensures e.next == null
    ensures p != null ==> p.next == old(e.next) && buckets[..] == old(buckets[..])
    ensures p == null ==> buckets[..] == old(buckets[..])[index := old(e.next)]
  {
    if p != null {
      p.next := e.next;
    } else {
      buckets[index] := e.next;
    }
    e.next := null;
  }

  datatype DictOp = Get | Create | Delete

  lemma {:induction false} DistinctSize(s: seq<Entry>)
    requires Distinct(s)
    ensures |Members(s)| == |s|
    decreases |s|
  {
    if s != [] {
      var n := |s| - 1;
      DistinctSize(s[..n]);
      MembersNext(s, n);
      assert s[..n + 1] == s;
    }
  }

  lemma {:induction false} ContentsSize(contents: map<nat, Entry>, entries: set<Entry>, hasher: nat -> nat)
    requires IsMap(contents, entries, hasher)
    ensures |contents| == |entries|
    decreases |entries|
  {
    if entries == {} {
      assert forall c {:trigger c in contents} :: c in contents ==> ClassOk(contents, entries, c);
      assert contents == map[];
    } else {
      var e :| e in entries;
      assert EntryOk(contents, hasher, e);
      MapDelete(contents, entries, hasher, e);
      ContentsSize(contents - {e.key.class_}, entries - {e}, hasher);
    }
  }

  class HashCore {
    const hasher: nat -> nat
    const indexer: Indexer
    var buckets: array<Entry?>
    var bucketsLog2Count: nat
    var entryCount: nat
    /** The chains, the `next` field of every entry, and the entry of every class of keys. */
    ghost var chains: seq<seq<Entry>>
    ghost var links: map<Entry, Entry?>
    ghost var contents: map<nat, Entry>

    ghost function Pictured(): Picture
      reads this, buckets
    {
      Picture(buckets[..], chains, links, contents)
    }

    /** Everything but the bound on the number of entries. */
    ghost predicate Shape()
      reads this, buckets, links.Keys
    {
      && IsPicture(indexer, hasher, bucketsLog2Count, Pictured())
      && (forall e {:trigger NextOk(e)} :: e in links ==> NextOk(e))
      && entryCount == |contents|
    }

    ghost predicate NextOk(e: Entry)
      requires e in links
      reads this, e
    {
      e.next == links[e]
    }

    ghost predicate Valid()
      reads this, buckets, links.Keys
    {
      Shape() && entryCount <= buckets.Length * MAX_AVG_CHAIN_LIMIT
    }

    constructor (hasher: nat -> nat, indexer: Indexer, initSize: nat)
      requires IsIndexer(indexer)
      ensures Valid() && this.hasher == hasher && this.indexer == indexer && contents == map[] && links == map[]
          && fresh(buckets)
      ensures initSize <= buckets.Length
    {
      var size := DEFAULT_BUCKET_COUNT;
      ghost var k: nat := 2;
      if initSize != 0 {
        size, k := Round2Up(initSize);
      }
      assert Pow2(2) == 4;
      this.hasher, this.indexer := hasher, indexer;
      buckets := new Entry?[size](_ => null);
      var log := Log2(size, k);
      bucketsLog2Count := log;
      entryCount := 0;
      chains := seq(size, _ => []);
      links := map[];
      contents := map[];
    }

    /** Walks the chain of the key's bucket. */
    method Search(key: Key) returns (e: Entry?, p: Entry?, ghost j: nat)
      requires Shape()
      ensures var b := indexer(bucketsLog2Count, hasher(key.class_));
              if key.class_ !in contents then e == null
              else e == contents[key.class_] && e.key.class_ == key.class_ && Stands(chains, b, j, e, p)
    {
      var b := indexer(bucketsLog2Count, hasher(key.class_));
      ghost var chain := chains[b];
      assert BucketOk(buckets[..], chains, links, b) && ChainOk(indexer, bucketsLog2Count, links.Keys, b, chain);
      e, p, j := buckets[b], null, 0;
      while e != null && e.key.class_ != key.class_
        invariant j <= |chain| && e == (if j < |chain| then chain[j] else null)
            && p == (if j == 0 then null else chain[j - 1])
        invariant forall i :: 0 <= i < j ==> chain[i].key.class_ != key.class_
        decreases |chain| - j
      {
        assert LinkOk(links, chain, j) && NextOk(chain[j]);
        e, p, j := e.next, e, j + 1;
      }
      assert e != null ==> Belongs(indexer, bucketsLog2Count, links.Keys, b, chain[j]);
      assert e != null ==> EntryOk(contents, hasher, e);
      if key.class_ in contents {
        assert ClassOk(contents, links.Keys, key.class_) && EntryOk(contents, hasher, contents[key.class_]);
        assert AtHome(indexer, bucketsLog2Count, chains, contents[key.class_]);
      }
    }

    /** Puts a new entry at the head of its bucket. */
    method Link(key: Key) returns (e: Entry)
      requires Shape() && key.class_ !in contents
      modifies this`entryCount, this`chains, this`links, this`contents, buckets
      ensures Shape() && fresh(e) && e.key == key && e.value == Unset
      ensures contents == old(contents)[key.class_ := e] && links.Keys == old(links.Keys) + {e}
    {
      var h := hasher(key.class_);
      var index := indexer(bucketsLog2Count, h);
      e := new Entry(key, h, buckets[index]);
      Inserted(indexer, hasher, bucketsLog2Count, Pictured(), e);
      ghost var after := WithEntry(Pictured(), index, e);
      buckets[index] := e;
      entryCount := entryCount + 1;
      chains, links, contents := after.chains, after.links, after.contents;
      assert Pictured() == after;
      forall x | x in links ensures NextOk(x) {
        assert x != e ==> old(NextOk(x));
      }
    }

    /** Takes the entry at position `j` of its bucket out of its chain. */
    method Unlink(index: nat, e: Entry, p: Entry?, ghost j: nat)
      requires Shape() && Stands(chains, index, j, e, p)
      modifies this`entryCount, this`chains, this`links, this`contents, buckets, links.Keys`next
      ensures Shape() && e.next == null
      ensures contents == old(contents) - {e.key.class_} && links.Keys == old(links.Keys) - {e}
    {
      Deleted(indexer, hasher, bucketsLog2Count, Pictured(), index, j);
      ghost var after := WithoutEntry(Pictured(), index, j);
      assert NextOk(e);
      Bypass(buckets, index, e, p);
      entryCount := entryCount - 1;
      chains, links, contents := after.chains, after.links, after.contents;
      assert Pictured() == after;
      forall x | x in links ensures NextOk(x) {
        assert old(NextOk(x));
      }
    }

    /** While the table grows: entries met so far are linked into the new buckets, others as before. */
    ghost predicate IsMoved(e: Entry, newLinks: map<Entry, Entry?>)
      requires e in links
      reads this, e
    {
      e.next == if e in newLinks then newLinks[e] else links[e]
    }

    /** Puts an entry at the head of its new bucket. */
    method Move(f: Entry, newbits: nat, newb: array<Entry?>, ghost newChains: seq<seq<Entry>>,
        ghost newLinks: map<Entry, Entry?>)
      returns (ghost newChains': seq<seq<Entry>>)
      requires Structured(indexer, newbits, newb[..], newChains, newLinks) && f !in newLinks
      modifies newb, f`next
      ensures Structured(indexer, newbits, newb[..], newChains', newLinks[f := f.next])
    {
      var index := indexer(newbits, f.hash);
      StructureInsert(indexer, newbits, newb[..], newChains, newLinks, f);
      newChains' := newChains[index := [f] + newChains[index]];
      f.next := newb[index];
      newb[index] := f;
      assert newb[..] == old(newb[..])[index := f];
    }

    /** The first `n` of all entries, and only they, are linked into the new buckets. */
    ghost predicate Moving(g: Growth, newbits: nat, newb: array<Entry?>)
      reads this, newb, links.Keys
    {
      match g
      case Growth(all, n, newChains, newLinks) =>
        && n <= |all| && Distinct(all) && Members(all) == links.Keys && newLinks.Keys == Members(all[..n])
        && Structured(indexer, newbits, newb[..], newChains, newLinks)
        && forall e {:trigger IsMoved(e, newLinks)} :: e in links ==> IsMoved(e, newLinks)
    }

    method MoveNext(f: Entry, ghost g: Growth, newbits: nat, newb: array<Entry?>) returns (ghost g': Growth)
      requires Moving(g, newbits, newb) && g.n < |g.all| && f == g.all[g.n] && newb != buckets
      modifies newb, links.Keys`next
      ensures Moving(g', newbits, newb) && g'.all == g.all && g'.n == g.n + 1
    {
      MembersNext(g.all, g.n);
      ghost var newChains := Move(f, newbits, newb, g.chains, g.links);
      g' := Growth(g.all, g.n + 1, newChains, g.links[f := f.next]);
      forall e | e in links ensures IsMoved(e, g'.links) {
        assert old(IsMoved(e, g.links));
      }
    }

    /** Iterates while the table grows: what the iterator has not met yet is still linked as before. */
    method Advance(itr: HashIter, ghost g: Growth, ghost newbits: nat, ghost newb: array<Entry?>) returns (f: Entry?)
      requires itr.core == this && IsPicture(indexer, hasher, bucketsLog2Count, Pictured())
      requires itr.Valid() && Moving(g, newbits, newb) && g.n <= |g.all| && itr.rest == g.all[g.n..]
      modifies itr
      ensures itr.Valid()
      ensures if f == null then g.n == |g.all| else g.n < |g.all| && f == g.all[g.n] && itr.rest == g.all[g.n + 1..]
    {
      itr.NextIsAhead();
      if itr.next != null {
        MembersNext(g.all, g.n);
        assert IsMoved(g.all[g.n], g.links);
      }
      f := itr.Next();
    }

    method StartMoving(newbits: nat, newb: array<Entry?>) returns (itr: HashIter, ghost g: Growth)
      requires Shape() && newb.Length == Pow2(newbits) && forall b :: 0 <= b < newb.Length ==> newb[b] == null
      ensures fresh(itr) && itr.core == this && itr.Valid() && Moving(g, newbits, newb) && itr.rest == g.all && g.n == 0
    {
      itr := new HashIter(this);
      FlatIsAll(indexer, bucketsLog2Count, chains, links.Keys);
      g := Growth(itr.rest, 0, seq(newb.Length, _ => []), map[]);
      EmptyStructure(indexer, newbits, newb[..], g.chains);
      forall e | e in links ensures IsMoved(e, g.links) {
        assert NextOk(e);
      }
    }

    /** `f` is the entry to be moved next, and the iterator stands behind it. */
    ghost predicate Meeting(itr: HashIter, f: Entry?, g: Growth)
      reads this, itr
    {
      match g
      case Growth(all, n, _, _) =>
        && itr.core == this && itr.Valid()
        && if f == null then n == |all| else n < |all| && f == all[n] && itr.rest == all[n + 1..]
    }

    method Round(itr: HashIter, f: Entry, ghost g: Growth, newbits: nat, newb: array<Entry?>)
      returns (f': Entry?, ghost g': Growth)
      requires IsPicture(indexer, hasher, bucketsLog2Count, Pictured()) && newb != buckets
      requires Meeting(itr, f, g) && Moving(g, newbits, newb)
      modifies itr, newb, links.Keys`next
      ensures Meeting(itr, f', g') && Moving(g', newbits, newb) && g'.all == g.all && g.n < g'.n <= |g.all|
    {
      g' := MoveNext(f, g, newbits, newb);
      f' := Advance(itr, g', newbits, newb);
    }

    /** Links every entry anew, into the bucket of its stored hash, while the iterator walks the old chains. */
    method Relink(newbits: nat, newb: array<Entry?>) returns (ghost g: Growth)
      requires Shape() && newb != buckets && newb.Length == Pow2(newbits) && forall b :: 0 <= b < newb.Length ==>
          newb[b] == null
      modifies newb, links.Keys`next
      ensures Moving(g, newbits, newb) && g.n == |g.all|
    {
      var itr;
      itr, g := StartMoving(newbits, newb);
      var f := Advance(itr, g, newbits, newb);
      while f != null
        invariant fresh(itr) && Meeting(itr, f, g) && Moving(g, newbits, newb)
        decreases |g.all| - g.n
      {
        f, g := Round(itr, f, g, newbits, newb);
      }
    }

    /** Four times as many buckets. */
    method Extend()
      requires Shape()
      modifies this`buckets, this`bucketsLog2Count, this`chains, this`links, links.Keys`next
      ensures Shape() && contents == old(contents) && links.Keys == old(links.Keys)
      ensures buckets.Length == 4 * old(buckets.Length) && fresh(buckets)
    {
      var newbits := bucketsLog2Count + EXTEND_BITS;
      Pow2Step(newbits);
      Pow2Step(newbits - 1);
      var newb := new Entry?[4 * buckets.Length](_ => null);
      ghost var g := Relink(newbits, newb);
      assert g.all[..g.n] == g.all;
      forall e | e in g.links ensures e.next == g.links[e] {
        assert IsMoved(e, g.links);
      }
      chains, links := g.chains, g.links;
      buckets, bucketsLog2Count := newb, newbits;
    }

    /** `insert_entry`: a new entry, and more buckets when there are over three entries to a bucket. */
    method Insert(key: Key) returns (e: Entry)
      requires Valid() && key.class_ !in contents
      modifies this, buckets, links.Keys`next
      ensures Valid() && fresh(e) && e.key == key && e.value == Unset
      ensures contents == old(contents)[key.class_ := e] && links.Keys == old(links.Keys) + {e}
      ensures buckets == old(buckets) || fresh(buckets)
    {
      e := Link(key);
      if entryCount > buckets.Length * MAX_AVG_CHAIN_LIMIT {
        Extend();
      }
    }

    /** `general_access`: the table answers like the finite map of its contents. */
    method Access(key: Key, op: DictOp) returns (e: Entry?)
      requires Valid()
      modifies this, buckets, links.Keys`next
      ensures Valid() && (buckets == old(buckets) || fresh(buckets))
      ensures key.class_ in old(contents) ==> e == old(contents)[key.class_]
      ensures key.class_ !in old(contents) ==>
                if op == Create then e != null && fresh(e) && e.key == key && e.value == Unset else e == null
      ensures contents == if key.class_ in old(contents) then
          (if op == Delete then old(contents) - {key.class_} else old(contents))
                          else if op == Create then old(contents)[key.class_ := e] else old(contents)
    {
      var p;
      ghost var j;
      e, p, j := Search(key);
      if e != null {
        if op == Delete {
          Unlink(indexer(bucketsLog2Count, hasher(key.class_)), e, p, j);
        }
      } else if op == Create {
        e := Insert(key);
      }
    }

    /** One more entry, as long as there is one. */
    method Take(itr: HashIter, ghost all: seq<Entry>, ghost n: nat) returns (e: Entry?)
      requires Shape() && itr.core == this && itr.Valid() && n <= |all| && itr.rest == all[n..]
          && Members(all) == links.Keys
      modifies itr
      ensures Meeting(itr, e, Growth(all, n, [], map[]))
    {
      itr.NextIsAhead();
      if itr.next != null {
        assert all[n] in Members(all) && NextOk(all[n]);
      }
      e := itr.Next();
    }

    method TakeNext(itr: HashIter, e: Entry, ghost all: seq<Entry>, yielded: seq<Entry>)
      returns (e': Entry?, yielded': seq<Entry>)
      requires Shape() && Meeting(itr, e, Growth(all, |yielded|, [], map[])) && Members(all) == links.Keys
          && yielded <= all
      modifies itr
      ensures Meeting(itr, e', Growth(all, |yielded'|, [], map[])) && yielded' <= all && |yielded'| == |yielded| + 1
    {
      yielded' := yielded + [e];
      e' := Take(itr, all, |yielded'|);
    }

    method TakeAll(itr: HashIter, ghost all: seq<Entry>) returns (yielded: seq<Entry>)
      requires Shape() && itr.core == this && itr.Valid() && itr.rest == all && Members(all) == links.Keys
      modifies itr
      ensures yielded == all
    {
      yielded := [];
      var e := Take(itr, all, 0);
      while e != null
        invariant Meeting(itr, e, Growth(all, |yielded|, [], map[])) && yielded <= all
        decreases |all| - |yielded|
      {
        e, yielded := TakeNext(itr, e, all, yielded);
      }
    }

    /** Iterating over the whole table yields every entry exactly once. */
    method All() returns (yielded: seq<Entry>)
      requires Valid()
      ensures Distinct(yielded) && Members(yielded) == links.Keys && |yielded| == entryCount
    {
      var itr := new HashIter(this);
      ghost var all := itr.rest;
      AllMembers(all);
      yielded := TakeAll(itr, all);
      AllEntries(all);
    }

    lemma AllMembers(all: seq<Entry>)
      requires Shape() && all == Flat(chains, 0)
      ensures Members(all) == links.Keys
    {
      FlatIsAll(indexer, bucketsLog2Count, chains, links.Keys);
    }

    lemma AllEntries(all: seq<Entry>)
      requires Shape() && all == Flat(chains, 0)
      ensures Distinct(all) && Members(all) == links.Keys && |all| == entryCount
    {
      FlatIsAll(indexer, bucketsLog2Count, chains, links.Keys);
      DistinctSize(all);
      ContentsSize(contents, links.Keys, hasher);
    }
  }

  // ----- iteration -----

  /** What an iterator that stands at position `pos` of `bucket` has still to yield. */
  ghost predicate IsAhead(chains: seq<seq<Entry>>, bucket: nat, pos: nat, next: Entry?, rest: seq<Entry>) {
    if next == null then rest == []
    else
      && bucket < |chains| && pos < |chains[bucket]| && next == chains[bucket][pos]
      && rest == chains[bucket][pos..] + Flat(chains, bucket + 1)
  }

  class HashIter {
    const core: HashCore
    var bucket: nat
    var next: Entry?
    ghost var pos: nat
    ghost var rest: seq<Entry>

    ghost predicate Valid()
      reads this, core
    {
      IsAhead(core.chains, bucket, pos, next, rest)
    }

    lemma NextIsAhead()
      requires Valid()
      ensures next == null <==> rest == []
      ensures next != null ==> rest[0] == next
    {
    }

    /** The first entry of the first bucket from `i` on that has one. */
    method Scan(i: nat)
      requires IsPicture(core.indexer, core.hasher, core.bucketsLog2Count, core.Pictured())
      modifies this
      ensures Valid() && rest == Flat(core.chains, i)
    {
      var k := i;
      ghost var chains := core.chains;
      while k < core.buckets.Length && core.buckets[k] == null
        invariant k <= |chains| || k == i
        invariant Flat(chains, i) == Flat(chains, k)
      {
        assert BucketOk(core.buckets[..], chains, core.links, k);
        k := k + 1;
      }
      rest := Flat(chains, i);
      next, pos := null, 0;
      if k < core.buckets.Length {
        assert BucketOk(core.buckets[..], chains, core.links, k);
        bucket, next := k, core.buckets[k];
      }
    }

    constructor (core: HashCore)
      requires core.Shape()
      ensures this.core == core && Valid() && rest == Flat(core.chains, 0)
    {
      this.core := core;
      bucket, next, pos, rest := 0, null, 0, [];
      new;
      Scan(0);
    }

    /** Yields the next entry; its `next` field is read before it is handed out. */
    method Next() returns (e: Entry?)
      requires Valid() && IsPicture(core.indexer, core.hasher, core.bucketsLog2Count, core.Pictured())
      requires next != null ==> next in core.links && next.next == core.links[next]
      modifies this
      ensures Valid()
      ensures if old(rest) == [] then e == null && rest == [] else e == old(rest)[0] && rest == old(rest)[1..]
    {
      e := next;
      if e == null {
        return;
      }
      ghost var chain := core.chains[bucket];
      assert BucketOk(core.buckets[..], core.chains, core.links, bucket) && LinkOk(core.links, chain, pos);
      ghost var ahead := rest[1..];
      assert ahead == chain[pos + 1..] + Flat(core.chains, bucket + 1);
      if e.next != null {
        next, pos, rest := e.next, pos + 1, ahead;
      } else {
        Scan(bucket + 1);
      }
    }
  }
}
