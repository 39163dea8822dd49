/** The Kademlia routing tree: k-buckets that split along the path of the own node, and the ring
    distance lookups are based on. */
module KBuckets {

  import opened Arithmetic
  import opened Collections

  type Bits = seq<bool>
  type Key = k: Bits | |k| == 256 witness seq(256, _ => false)

  /** A node as stored; its key is the hash of its wallet address. */
  datatype Item = Item(key: Key, isSelfObject: bool, data: int)

  type Bucket = map<Key, Item>

  datatype Tree =
    | Leaf(prefix: Bits, bucket: Bucket)
    | Node(prefix: Bits, zero: Tree, one: Tree)

  /** The miner's key, and the order in which a bucket is traversed. */
  datatype Env = Env(miner: Key, order: set<Key> -> seq<Key>)
  {
    /** Every key is met exactly once. */
    ghost predicate Valid()
    {
      forall s, k :: (k in order(s) <==> k in s) && Distinct(order(s))
    }
  }

  const K := 20

  predicate IsSelf(e: Env, item: Item)
  {
    item.isSelfObject || item.key == e.miner
  }

  predicate HoldsSelf(e: Env, b: Bucket)
  {
    exists k :: k in b && IsSelf(e, b[k])
  }

  function Contents(t: Tree): Bucket
  {
    match t
    case Leaf(_, b) => b
    case Node(_, z, o) => Contents(z) + Contents(o)
  }

  // ---- Invariant ------------------------------------------------------------------------------

  /** Items lie under their own keys, and these begin with the prefix. */
  ghost predicate Sorted(prefix: Bits, b: Bucket)
  {
    forall k :: k in b ==> prefix <= k && b[k].key == k
  }

  /** Leaves hold fewer than twenty items, sorted by the prefixes of the tree. */
  ghost predicate Valid(t: Tree, prefix: Bits)
    ensures Valid(t, prefix) ==> t.prefix == prefix && Sorted(prefix, Contents(t))
    decreases t
  {
    t.prefix == prefix && |prefix| <= 256 && Sorted(prefix, Contents(t)) &&
    match t
    case Leaf(_, b) => |b| < K
    case Node(_, z, o) => |prefix| < 256 && Valid(z, prefix + [false]) && Valid(o, prefix + [true])
  }

  /** Only the miner's item is marked as the own node. */
  ghost predicate OneSelf(e: Env, b: Bucket)
  {
    forall k :: k in b && b[k].isSelfObject ==> k == e.miner
  }

  /** Only nodes on the way to the own key are split. */
  ghost predicate Narrow(e: Env, t: Tree)
    decreases t
  {
    match t
    case Leaf(_, _) => true
    case Node(p, z, o) =>
      |p| < 256 && p <= e.miner && Narrow(e, z) && Narrow(e, o) && (if e.miner[|p|] then z.Leaf? else o.Leaf?)
  }

  ghost predicate Lone(e: Env, t: Tree)
  {
    OneSelf(e, Contents(t)) && Narrow(e, t)
  }

  /** Number of splits on the way to a key. */
  function Depth(t: Tree, k: Key): nat
  {
    match t
    case Leaf(_, _) => 0
    case Node(p, z, o) => 1 + if |p| < 256 && k[|p|] then Depth(o, k) else Depth(z, k)
  }

  function BucketCount(t: Tree): nat
  {
    match t
    case Leaf(_, _) => 1
    case Node(_, z, o) => BucketCount(z) + BucketCount(o)
  }

  /** There is one bucket more than splits on the way to the own key. */
  lemma {:induction false} BucketsAreDepth(e: Env, t: Tree)
    requires Narrow(e, t)
    ensures BucketCount(t) == 1 + Depth(t, e.miner)
    decreases t
  {
    if t.Node? {
      BucketsAreDepth(e, t.zero);
      BucketsAreDepth(e, t.one);
    }
  }

  // ---- Insertion --------------------------------------------------------------------------------

  /** The leaf a key belongs to. */
  function BucketOf(t: Tree, k: Key): Bucket
  {
    match t
    case Leaf(_, b) => b
    case Node(p, z, o) => if |p| < 256 && k[|p|] then BucketOf(o, k) else BucketOf(z, k)
  }

  /** Its bucket is full and neither it nor the item is about the own node. */
  predicate Refused(e: Env, t: Tree, item: Item)
  {
    var b := BucketOf(t, item.key);
    |b[item.key := item]| >= K && !HoldsSelf(e, b[item.key := item])
  }

  ghost predicate Fits(e: Env, item: Item)
  {
    item.isSelfObject ==> item.key == e.miner
  }

  lemma SidesApart(prefix: Bits, z: Bucket, o: Bucket)
    requires |prefix| < 256 && Sorted(prefix + [false], z) && Sorted(prefix + [true], o)
    ensures z.Keys !! o.Keys && Sorted(prefix, z + o)
    ensures forall k :: k in z ==> !k[|prefix|]
    ensures forall k :: k in o ==> k[|prefix|]
  {
    forall k | k in z ensures prefix <= k && !k[|prefix|] {
      assert prefix + [false] <= k;
      assert k[..|prefix|] == (prefix + [false])[..|prefix|] == prefix;
    }
    forall k | k in o ensures prefix <= k && k[|prefix|] {
      assert prefix + [true] <= k;
      assert k[..|prefix|] == (prefix + [true])[..|prefix|] == prefix;
    }
  }

  /** Twenty items under one prefix leave room for another bit. */
  lemma RoomToSplit(prefix: Bits, b: Bucket)
    requires Sorted(prefix, b) && |b| >= 2
    ensures |prefix| < 256
  {
    var x :| x in b.Keys;
    assert |b.Keys - {x}| > 0;
    var y :| y in b.Keys - {x};
    assert prefix == x[..|prefix|] == y[..|prefix|];
    assert x[..256] == x && y[..256] == y;
  }

  /** Mapping a key below a node is mapping it in the child the key belongs to. */
  lemma UnionPut(prefix: Bits, z: Bucket, o: Bucket, k: Key, x: Item)
    requires |prefix| < 256 && Sorted(prefix + [false], z) && Sorted(prefix + [true], o)
    ensures k[|prefix|] ==> z + o[k := x] == (z + o)[k := x]
    ensures !k[|prefix|] ==> z[k := x] + o == (z + o)[k := x]
  {
    SidesApart(prefix, z, o);
  }

  /** The child a key belongs to, and the node with that child exchanged. */
  function Child(t: Tree, k: Key): Tree
    requires t.Node? && |t.prefix| < 256
  {
    if k[|t.prefix|] then t.one else t.zero
  }

  function Exchange(t: Tree, k: Key, c: Tree): Tree
    requires t.Node? && |t.prefix| < 256
  {
    if k[|t.prefix|] then Node(t.prefix, t.zero, c) else Node(t.prefix, c, t.one)
  }

  /** What an insertion makes of a tree. */
  ghost predicate Inserted(e: Env, t: Tree, item: Item, r: Tree)
  {
    Valid(r, t.prefix) &&
    (Refused(e, t, item) ==> r == t) &&
    (!Refused(e, t, item) ==> Contents(r) == Contents(t)[item.key := item]) &&
    (t.Node? ==> r.Node?) &&
    (Lone(e, t) && Fits(e, item) ==> Lone(e, r) && (t.Leaf? && !(t.prefix <= e.miner) ==> r.Leaf?))
  }

  lemma ExchangeValid(t: Tree, k: Key, c: Tree)
    requires Valid(t, t.prefix) && t.Node? && t.prefix <= k
    requires Valid(c, Child(t, k).prefix)
    ensures Valid(Exchange(t, k, c), t.prefix)
  {
    var r := Exchange(t, k, c);
    SidesApart(t.prefix, Contents(r.zero), Contents(r.one));
  }

  lemma ExchangeLone(e: Env, t: Tree, k: Key, c: Tree)
    requires Valid(t, t.prefix) && t.Node? && t.prefix <= k && Valid(c, Child(t, k).prefix)
    requires Lone(e, t) && Lone(e, c)
    requires Child(t, k).Leaf? && !(Child(t, k).prefix <= e.miner) ==> c.Leaf?
    ensures Lone(e, Exchange(t, k, c))
  {
    SidesApart(t.prefix, Contents(t.zero), Contents(t.one));
    PrefixStep(t.prefix, k);
  }

  lemma ChildLone(e: Env, t: Tree, k: Key)
    requires Valid(t, t.prefix) && t.Node? && Lone(e, t)
    ensures Lone(e, Child(t, k))
  {
    SidesApart(t.prefix, Contents(t.zero), Contents(t.one));
  }

  /** An insertion into the child is an insertion into the node. */
  lemma InsertedBelow(e: Env, t: Tree, item: Item, c: Tree)
    requires Valid(t, t.prefix) && t.Node? && t.prefix <= item.key
    requires Inserted(e, Child(t, item.key), item, c)
    ensures Inserted(e, t, item, Exchange(t, item.key, c))
  {
    var k := item.key;
    ExchangeValid(t, k, c);
    UnionPut(t.prefix, Contents(t.zero), Contents(t.one), k, item);
    assert Refused(e, t, item) == Refused(e, Child(t, k), item);
    LoneBelow(e, t, item, c);
  }

  lemma LoneBelow(e: Env, t: Tree, item: Item, c: Tree)
    requires Valid(t, t.prefix) && t.Node? && t.prefix <= item.key
    requires Inserted(e, Child(t, item.key), item, c)
    ensures Lone(e, t) && Fits(e, item) ==> Lone(e, Exchange(t, item.key, c))
  {
    if Lone(e, t) && Fits(e, item) {
      ChildLone(e, t, item.key);
      ExchangeLone(e, t, item.key, c);
    }
  }

  function Restrict(b: Bucket, ks: seq<Key>): Bucket
  {
    map k | k in b && k in ks :: b[k]
  }

  lemma RestrictCount(b: Bucket, ks: seq<Key>, n: nat)
    requires Distinct(ks) && n <= |ks| && forall k :: k in ks ==> k in b
    ensures |Restrict(b, ks[..n])| == n
  {
    DistinctCount(ks[..n], Restrict(b, ks[..n]).Keys);
  }

  lemma {:induction false} BucketInContents(t: Tree, k: Key)
    requires Valid(t, t.prefix) && t.prefix <= k
    ensures forall x :: x in BucketOf(t, k) ==> x in Contents(t) && Contents(t)[x] == BucketOf(t, k)[x]
    ensures k in Contents(t) ==> k in BucketOf(t, k)
    decreases t
  {
    if t.Node? {
      SidesApart(t.prefix, Contents(t.zero), Contents(t.one));
      PrefixStep(t.prefix, k);
      if k[|t.prefix|] { BucketInContents(t.one, k); } else { BucketInContents(t.zero, k); }
    }
  }

  lemma SubBucket(a: Bucket, b: Bucket)
    requires forall x :: x in a ==> x in b && b[x] == a[x]
    ensures |a| <= |b|
    ensures |a| == |b| ==> a == b
  {
    SubsetCount(a.Keys, b.Keys);
  }

  /** While a bucket with the own node is spread over its halves, nothing is refused: if one half gets
      all twenty items the own node is among them. */
  lemma SpreadNeverRefuses(e: Env, t: Tree, b: Bucket, ks: seq<Key>, n: nat)
    requires Valid(t, t.prefix) && Sorted(t.prefix, b) && HoldsSelf(e, b) && |b| == K
    requires Distinct(ks) && (forall k :: k in ks <==> k in b) && n < |ks| == K
    requires Contents(t) == Restrict(b, ks[..n])
    ensures !Refused(e, t, b[ks[n]])
  {
    var k := ks[n];
    var leaf := BucketOf(t, k);
    assert k in ks && k in b;
    BucketInContents(t, k);
    PutCount(leaf, k, b[k]);
    if |leaf[k := b[k]]| >= K {
      FullHalfIsAll(b, ks, n, leaf);
    }
  }

  /** A part of the first n items that would reach twenty with the next one is all of them. */
  lemma FullHalfIsAll(b: Bucket, ks: seq<Key>, n: nat, leaf: Bucket)
    requires Distinct(ks) && (forall k :: k in ks <==> k in b) && n < |ks| == K && |leaf| >= K - 1
    requires forall x :: x in leaf ==> x in Restrict(b, ks[..n]) && Restrict(b, ks[..n])[x] == leaf[x]
    ensures leaf[ks[n] := b[ks[n]]] == b
  {
    RestrictCount(b, ks, n);
    SubBucket(leaf, Restrict(b, ks[..n]));
    assert ks[n] in ks;
    RestrictNext(b, ks, n);
    assert ks[..n + 1] == ks;
  }

  lemma PutCount(b: Bucket, k: Key, x: Item)
    ensures |b[k := x]| == if k in b then |b| else |b| + 1
  {
    assert b[k := x].Keys == b.Keys + {k};
  }

  /** The own node is under every prefix where it is held. */
  lemma SelfBelow(e: Env, prefix: Bits, b: Bucket)
    requires Sorted(prefix, b) && HoldsSelf(e, b) && OneSelf(e, b)
    ensures prefix <= e.miner
  {
    var k :| k in b && IsSelf(e, b[k]);
  }

  lemma OnWay(e: Env, prefix: Bits, b: Bucket)
    requires Sorted(prefix, b) && HoldsSelf(e, b)
    ensures OneSelf(e, b) ==> prefix <= e.miner
  {
    if OneSelf(e, b) { SelfBelow(e, prefix, b); }
  }

  lemma PutStaysSorted(e: Env, prefix: Bits, b: Bucket, item: Item)
    requires Sorted(prefix, b) && prefix <= item.key
    ensures Sorted(prefix, b[item.key := item])
    ensures OneSelf(e, b) && Fits(e, item) ==> OneSelf(e, b[item.key := item])
  {
  }

  /** do_insert_item: the item is mapped, or a full bucket without the own node stays as it is. */
  function Insert(e: Env, t: Tree, item: Item): (r: Tree)
    requires e.Valid() && Valid(t, t.prefix) && t.prefix <= item.key
    ensures Inserted(e, t, item, r)
    decreases 257 - |t.prefix|, if t.Leaf? then 3 else 1, 0
  {
    match t
    case Leaf(p, b) =>
      var b' := b[item.key := item];
      PutCount(b, item.key, item);
      PutStaysSorted(e, p, b, item);
      if |b'| < K then Leaf(p, b')
      else if HoldsSelf(e, b') then
        Split(e, p, b')
      else t
    case Node(p, _, _) =>
      PrefixStep(p, item.key);
      var c := Insert(e, Child(t, item.key), item);
      InsertedBelow(e, t, item, c);
      Exchange(t, item.key, c)
  }

  lemma EmptyHalves(e: Env, p: Bits, b: Bucket, ks: seq<Key>)
    requires |p| < 256
    ensures p <= e.miner ==> Lone(e, Node(p, Leaf(p + [false], map[]), Leaf(p + [true], map[])))
    ensures Valid(Node(p, Leaf(p + [false], map[]), Leaf(p + [true], map[])), p)
    ensures Contents(Node(p, Leaf(p + [false], map[]), Leaf(p + [true], map[]))) == Restrict(b, ks[..0])
  {
  }

  lemma RestrictNext(b: Bucket, ks: seq<Key>, n: nat)
    requires n < |ks| && ks[n] in b
    ensures Restrict(b, ks[..n])[ks[n] := b[ks[n]]] == Restrict(b, ks[..n + 1])
  {
    assert ks[..n + 1] == ks[..n] + [ks[n]];
  }

  /** A full bucket with the own node becomes a node over two buckets, again split where need be. */
  function Split(e: Env, p: Bits, b: Bucket): (r: Tree)
    requires e.Valid() && Sorted(p, b) && HoldsSelf(e, b) && |b| == K
    ensures Valid(r, p) && r.Node? && Contents(r) == b
    ensures OneSelf(e, b) ==> Lone(e, r) && p <= e.miner
    decreases 257 - |p|, 2, K + 1
  {
    RoomToSplit(p, b);
    OnWay(e, p, b);
    DistinctCount(e.order(b.Keys), b.Keys);
    EmptyHalves(e, p, b, e.order(b.Keys));
    InsertAll(e, Node(p, Leaf(p + [false], map[]), Leaf(p + [true], map[])), b, e.order(b.Keys), 0)
  }

  /** The reduce over the items of a split bucket. */
  function InsertAll(e: Env, t: Tree, b: Bucket, ks: seq<Key>, n: nat): (r: Tree)
    requires e.Valid() && Valid(t, t.prefix) && t.Node? && Sorted(t.prefix, b) && HoldsSelf(e, b) && |b| == K
    requires Distinct(ks) && (forall k :: k in ks <==> k in b) && n <= |ks| == K
    requires Contents(t) == Restrict(b, ks[..n])
    ensures Valid(r, t.prefix) && r.Node? && Contents(r) == b
    ensures OneSelf(e, b) && Lone(e, t) ==> Lone(e, r)
    decreases 257 - |t.prefix|, 2, |ks| - n
  {
    if n == |ks| then
      RestrictAll(b, ks);
      t
    else
      ItemFits(e, t.prefix, b, ks, n);
      var r := Insert(e, t, b[ks[n]]);
      SpreadStep(e, t, b, ks, n, r);
      InsertAll(e, r, b, ks, n + 1)
  }

  lemma RestrictAll(b: Bucket, ks: seq<Key>)
    requires forall k :: k in ks <==> k in b
    ensures Restrict(b, ks[..|ks|]) == b
  {
    assert ks[..|ks|] == ks;
  }

  lemma ItemFits(e: Env, prefix: Bits, b: Bucket, ks: seq<Key>, n: nat)
    requires Sorted(prefix, b) && n < |ks| && forall k :: k in ks <==> k in b
    ensures ks[n] in b && b[ks[n]].key == ks[n] && prefix <= ks[n]
    ensures OneSelf(e, b) ==> Fits(e, b[ks[n]])
  {
    assert ks[n] in ks;
  }

  lemma SpreadStep(e: Env, t: Tree, b: Bucket, ks: seq<Key>, n: nat, r: Tree)
    requires Valid(t, t.prefix) && t.Node? && Sorted(t.prefix, b) && HoldsSelf(e, b) && |b| == K
    requires Distinct(ks) && (forall k :: k in ks <==> k in b) && n < |ks| == K
    requires Contents(t) == Restrict(b, ks[..n]) && ks[n] in b && b[ks[n]].key == ks[n]
    requires Inserted(e, t, b[ks[n]], r)
    ensures Contents(r) == Restrict(b, ks[..n + 1])
  {
    SpreadNeverRefuses(e, t, b, ks, n);
    RestrictNext(b, ks, n);
  }

  // ---- Deletion and update -----------------------------------------------------------------------

  lemma UnionDrop(prefix: Bits, z: Bucket, o: Bucket, k: Key)
    requires |prefix| < 256 && Sorted(prefix + [false], z) && Sorted(prefix + [true], o)
    ensures k[|prefix|] ==> z + (o - {k}) == (z + o) - {k}
    ensures !k[|prefix|] ==> (z - {k}) + o == (z + o) - {k}
  {
    SidesApart(prefix, z, o);
  }

  lemma ExchangeStaysLone(e: Env, t: Tree, k: Key, c: Tree)
    requires Valid(t, t.prefix) && t.Node? && t.prefix <= k && Valid(c, Child(t, k).prefix)
    requires Child(t, k).Leaf? <==> c.Leaf?
    ensures Lone(e, t) ==> Lone(e, Child(t, k))
    ensures Lone(e, t) && Lone(e, c) ==> Lone(e, Exchange(t, k, c))
  {
    if Lone(e, t) {
      ChildLone(e, t, k);
      if Lone(e, c) { ExchangeLone(e, t, k, c); }
    }
  }

  function Delete(e: Env, t: Tree, k: Key): (r: Tree)
    requires Valid(t, t.prefix) && t.prefix <= k
    ensures Valid(r, t.prefix) && Contents(r) == Contents(t) - {k}
    ensures t.Leaf? <==> r.Leaf?
    ensures Lone(e, t) ==> Lone(e, r)
    decreases t
  {
    match t
    case Leaf(p, b) =>
      SubBucket(b - {k}, b);
      Leaf(p, b - {k})
    case Node(p, _, _) =>
      PrefixStep(p, k);
      var c := Delete(e, Child(t, k), k);
      ExchangeValid(t, k, c);
      ExchangeStaysLone(e, t, k, c);
      UnionDrop(p, Contents(t.zero), Contents(t.one), k);
      Exchange(t, k, c)
  }

  /** A bucket with an item exchanged if it is there. */
  function Updated(b: Bucket, item: Item): Bucket
  {
    if item.key in b then b[item.key := item] else b
  }

  lemma UpdatedBelow(e: Env, t: Tree, item: Item, c: Tree)
    requires Valid(t, t.prefix) && t.Node? && t.prefix <= item.key
    requires Contents(c) == Updated(Contents(Child(t, item.key)), item)
    ensures Contents(Exchange(t, item.key, c)) == Updated(Contents(t), item)
  {
    MemberOfChild(t, item.key);
    UpdatedUnion(t.prefix, Contents(t.zero), Contents(t.one), item);
  }

  lemma UpdatedUnion(prefix: Bits, z: Bucket, o: Bucket, item: Item)
    requires |prefix| < 256 && Sorted(prefix + [false], z) && Sorted(prefix + [true], o)
    requires item.key in z + o <==> if item.key[|prefix|] then item.key in o else item.key in z
    ensures item.key[|prefix|] ==> z + Updated(o, item) == Updated(z + o, item)
    ensures !item.key[|prefix|] ==> Updated(z, item) + o == Updated(z + o, item)
  {
    UnionPut(prefix, z, o, item.key, item);
  }

  lemma MemberOfChild(t: Tree, k: Key)
    requires Valid(t, t.prefix) && t.Node?
    ensures k in Contents(t) <==> k in Contents(Child(t, k))
  {
    SidesApart(t.prefix, Contents(t.zero), Contents(t.one));
  }

  /** update_item: exchanges an item that is there. */
  function Update(e: Env, t: Tree, item: Item): (r: Tree)
    requires Valid(t, t.prefix) && t.prefix <= item.key
    ensures Valid(r, t.prefix)
    ensures Contents(r) == if item.key in Contents(t) then Contents(t)[item.key := item] else Contents(t)
    ensures t.Leaf? <==> r.Leaf?
    ensures Lone(e, t) && Fits(e, item) ==> Lone(e, r)
    decreases t
  {
    match t
    case Leaf(p, b) =>
      PutCount(b, item.key, item);
      PutStaysSorted(e, p, b, item);
      if item.key in b then Leaf(p, b[item.key := item]) else Leaf(p, b)
    case Node(p, _, _) =>
      PrefixStep(p, item.key);
      var c := Update(e, Child(t, item.key), item);
      ExchangeValid(t, item.key, c);
      ExchangeStaysLone(e, t, item.key, c);
      UpdatedBelow(e, t, item, c);
      Exchange(t, item.key, c)
  }

  // ---- Runs ----------------------------------------------------------------------------------------

  datatype Op = OpInsert(item: Item) | OpDelete(key: Key) | OpUpdate(item: Item)

  ghost predicate OwnMark(e: Env, op: Op)
  {
    op.OpDelete? || Fits(e, op.item)
  }

  ghost predicate OwnMarksOnly(e: Env, ops: seq<Op>)
  {
    forall op :: op in ops ==> OwnMark(e, op)
  }

  function New(e: Env): Tree
  {
    Leaf([], map[e.miner := Item(e.miner, true, -1)])
  }

  function Apply(e: Env, t: Tree, op: Op): (r: Tree)
    requires e.Valid() && Valid(t, [])
    ensures Valid(r, [])
    ensures Lone(e, t) && OwnMark(e, op) ==> Lone(e, r)
  {
    match op
    case OpInsert(x) => Insert(e, t, x)
    case OpDelete(k) => Delete(e, t, k)
    case OpUpdate(x) => Update(e, t, x)
  }

  function Run(e: Env, ops: seq<Op>): (t: Tree)
    requires e.Valid()
    ensures Valid(t, [])
    ensures OwnMarksOnly(e, ops) ==> Lone(e, t)
  {
    if ops == [] then New(e) else Apply(e, Run(e, ops[..|ops| - 1]), ops[|ops| - 1])
  }

  /** In every reachable tree each item is found under its own key and each bucket holds fewer than
      twenty.  When no other node is ever marked as the own one, there is one bucket more than splits
      on the way to the own node. */
  lemma RunShape(e: Env, ops: seq<Op>, k: Key)
    requires e.Valid()
    ensures OwnMarksOnly(e, ops) ==> BucketCount(Run(e, ops)) == 1 + Depth(Run(e, ops), e.miner)
    ensures |BucketOf(Run(e, ops), k)| < 20
    ensures k in Contents(Run(e, ops)) <==> k in BucketOf(Run(e, ops), k)
    ensures k in Contents(Run(e, ops)) ==> Contents(Run(e, ops))[k].key == k && BucketOf(Run(e, ops), k)[k] == Contents(Run(e, ops))[k]
  {
    var t := Run(e, ops);
    if Lone(e, t) { BucketsAreDepth(e, t); }
    BucketInContents(t, k);
    BucketSmall(t, k);
  }

  lemma {:induction false} BucketSmall(t: Tree, k: Key)
    requires Valid(t, t.prefix)
    ensures |BucketOf(t, k)| < K
    decreases t
  {
    if t.Node? { BucketSmall(Child(t, k), k); }
  }

  /** An item is refused exactly when its bucket holds nineteen others and neither they nor the item are
      the own node. */
  lemma RefusedIff(e: Env, t: Tree, item: Item)
    requires Valid(t, t.prefix)
    ensures Refused(e, t, item) <==>
      |BucketOf(t, item.key)| == 19 && item.key !in BucketOf(t, item.key) &&
      !item.isSelfObject && item.key != e.miner &&
      forall k :: k in BucketOf(t, item.key) ==>
        !BucketOf(t, item.key)[k].isSelfObject && BucketOf(t, item.key)[k].key != e.miner
  {
    var b := BucketOf(t, item.key);
    BucketSmall(t, item.key);
    PutCount(b, item.key, item);
    var b' := b[item.key := item];
    if item.key !in b {
      assert b'[item.key] == item && forall k :: k in b ==> k in b' && b'[k] == b[k];
    }
  }

  /** The own node is never refused, so it stays until it is deleted. */
  lemma {:induction false} SelfIsNeverRefused(e: Env, t: Tree, item: Item)
    requires item.key == e.miner
    ensures !Refused(e, t, item)
  {
    var b := BucketOf(t, item.key)[item.key := item];
    assert item.key in b && IsSelf(e, b[item.key]);
  }

  // ---- Distance ---------------------------------------------------------------------------------------

  const RING := 0x1_0000000000000000_0000000000000000_0000000000000000_0000000000000000
  const HALF := 0x8000000000000000_0000000000000000_0000000000000000_0000000000000000

  lemma {:induction false} NumberInjective(a: Bits, b: Bits)
    requires |a| == |b| && Number(a) == Number(b)
    ensures a == b
    decreases |a|
  {
    if a != [] {
      NumberInjective(a[..|a| - 1], b[..|b| - 1]);
      assert a == a[..|a| - 1] + [a[|a| - 1]] && b == b[..|b| - 1] + [b[|b| - 1]];
    }
  }

  lemma Pow2At256()
    ensures Pow2(256) == RING
  {
    assert Pow2(8) == 0x100;
    Pow2Sum(8, 8);
    assert Pow2(16) == 0x1_0000;
    Pow2Sum(16, 16);
    assert Pow2(32) == 0x1_0000_0000;
    Pow2Sum(32, 32);
    assert Pow2(64) == 0x1_0000000000000000;
    Pow2Sum(64, 64);
    assert Pow2(128) == 0x1_0000000000000000_0000000000000000;
    Pow2Sum(128, 128);
  }

  lemma NumberBelowRing(k: Key)
    ensures Number(k) < RING
  {
    Pow2At256();
  }

  function Abs(x: int): nat { if x < 0 then -x else x }

  /** The distance on the ring as the code computes it. */
  function Distance(a: Key, b: Key): (d: nat)
  {
    NumberBelowRing(a);
    NumberBelowRing(b);
    var d := Abs(Number(a) - Number(b));
    if d > HALF - 1 then RING - 1 - d else d
  }

  /** The shorter way round the ring. */
  function RingDistance(a: Key, b: Key): int
  {
    var d := Abs(Number(a) - Number(b));
    if d >= HALF then RING - d else d
  }

  /** Keys half a ring or more apart come out one too near. */
  lemma DistanceOffByOne(a: Key, b: Key)
    ensures Distance(a, b) == RingDistance(a, b) - if Abs(Number(a) - Number(b)) >= HALF then 1 else 0
    ensures RingDistance(a, b) <= Abs(Number(a) - Number(b)) && RingDistance(a, b) <= Pow2(256) - Abs(Number(a) - Number(b))
    ensures RingDistance(a, b) == Abs(Number(a) - Number(b)) || RingDistance(a, b) == Pow2(256) - Abs(Number(a) - Number(b))
  {
    Pow2At256();
    NumberBelowRing(a);
    NumberBelowRing(b);
  }

  /** Keys that share their first n bits are less than 2^(256 - n) apart. */
  lemma {:induction false} SharedPrefixNear(a: Key, b: Key, n: nat)
    requires 0 < n <= 256 && a[..n] == b[..n]
    ensures Distance(a, b) < Pow2(256 - n)
  {
    NumberSplit(a, n);
    NumberSplit(b, n);
    Pow2Monotone(256 - n, 255);
    Pow2At256();
    assert Pow2(256) == 2 * Pow2(255);
  }

  /** Keys that part at bit n, not the first, are as far apart as their numbers, of which the one with the
      1 there is the greater. */
  lemma {:induction false} PartedKeys(a: Key, b: Key, n: nat)
    requires 0 < n < 256 && a[..n] == b[..n] && !a[n] && b[n]
    ensures 0 < Distance(a, b) < Pow2(256 - n) && Number(b) == Number(a) + Distance(a, b)
  {
    NumberParts(a, b, n);
    Pow2Monotone(256 - n, 255);
    Pow2At256();
    assert Pow2(256) == 2 * Pow2(255);
  }

  /** Keys that differ in the last bit only are neighbours. */
  lemma {:induction false} NeighbourKeys(a: Key, b: Key)
    requires a[..255] == b[..255] && a[255] != b[255]
    ensures Distance(a, b) == 1
  {
    if b[255] { PartedKeys(a, b, 255); } else { PartedKeys(b, a, 255); }
  }

  /** The first and the last key of the ring. */
  predicate Ends(a: Key, b: Key)
  {
    Number(a) + Number(b) == RING - 1 && (Number(a) == 0 || Number(b) == 0)
  }

  /** The distance is zero for equal keys, and for the two ends of the ring. */
  lemma ZeroDistance(a: Key, b: Key)
    ensures Distance(a, b) == 0 <==> a == b || Ends(a, b)
  {
    NumberBelowRing(a);
    NumberBelowRing(b);
    if Number(a) == Number(b) { NumberInjective(a, b); }
  }

  /** The two ends of the ring are equally far from every key. */
  lemma EndsEquallyFar(k: Key, a: Key, b: Key)
    requires Ends(a, b)
    ensures Distance(k, a) == Distance(k, b)
  {
    NumberBelowRing(k);
  }

  // ---- Lookup by distance --------------------------------------------------------------------------------

  /** What sorting by distance can put first: any item nearest to the key. */
  ghost predicate Nearest(b: Bucket, k: Key, x: Key)
  {
    x in b && forall y :: y in b ==> Distance(k, x) <= Distance(k, y)
  }

  /** item: the nearest item if it has the key. */
  function Lookup(b: Bucket, k: Key, nearest: Key): Option<Item>
    requires nearest in b
  {
    if nearest == k then Some(b[nearest]) else None
  }

  /** A lookup is exact whatever comes first among equally near items, exactly when the tree does not
      hold both the key and, at the other end of the ring, a key that counts as equally near. */
  lemma LookupExactIff(b: Bucket, k: Key)
    ensures (forall x :: Nearest(b, k, x) ==> Lookup(b, k, x) == (if k in b then Some(b[k]) else None)) <==>
      !(k in b && exists y :: y in b && y != k && Ends(k, y))
  {
    forall y: Key ensures Distance(k, y) == 0 <==> k == y || Ends(k, y) { ZeroDistance(k, y); }
    if k in b {
      assert Nearest(b, k, k);
      if y :| y in b && y != k && Ends(k, y) {
        assert Nearest(b, k, y);
      }
    }
  }

  lemma {:induction false} AllBits(n: nat)
    ensures Number(seq(n, _ => false)) == 0 && Number(seq(n, _ => true)) == Pow2(n) - 1
  {
    if n > 0 {
      AllBits(n - 1);
      assert seq(n, _ => false)[..n - 1] == seq(n - 1, _ => false) && seq(n, _ => true)[..n - 1] == seq(n - 1, _ => true);
    }
  }

  /** Two insertions into a new tree are not refused. */
  lemma TwoInserted(e: Env, x: Item, y: Item)
    requires e.Valid()
    ensures Contents(Run(e, [OpInsert(x), OpInsert(y)])) == New(e).bucket[x.key := x][y.key := y]
  {
    var ops := [OpInsert(x), OpInsert(y)];
    assert ops[..1] == [OpInsert(x)] && ops[..1][..0] == [];
    var b := New(e).bucket;
    PutCount(b, x.key, x);
    PutCount(b[x.key := x], y.key, y);
    assert Run(e, ops[..1]) == Leaf([], b[x.key := x]);
  }

  /** With both ends of the ring in a tree, a lookup of the first key can miss it. */
  lemma LookupMissExample(e: Env, x: Item, y: Item)
    requires e.Valid() && x.key == seq(256, _ => false) && y.key == seq(256, _ => true)
    ensures var b := Contents(Run(e, [OpInsert(x), OpInsert(y)]));
      x.key in b && Nearest(b, x.key, y.key) && Lookup(b, x.key, y.key) == None
  {
    TwoInserted(e, x, y);
    AllBits(256);
    Pow2At256();
    ZeroDistance(x.key, y.key);
    assert x.key[0] != y.key[0];
  }
}
