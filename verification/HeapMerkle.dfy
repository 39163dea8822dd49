/** The self-splitting binary Merkle tree with sixteen hash lanes (HeapMerkleTree), its proofs, and
    the plain map (MapMerkleTree) it must agree with. */
module HeapMerkle {

  import Arithmetic
  import opened Bytes
  import opened Collections

  type Binary = seq<Byte>
  type Bits = seq<bool>
  type Hash = h: Bits | |h| == 256 witness seq(256, _ => false)

  /** Keys and values as callers pass them. */
  datatype Term = Raw(bytes: Binary) | Number(value: int)

  datatype Item = Item(key: Binary, value: Binary)

  /** The lists that are encoded and hashed: two lane hashes, the sixteen lanes of a root, or a lane
      of a leaf with its prefix, number and items. */
  datatype Preimage =
    | Pair(left: Binary, right: Binary)
    | Lanes(hashes: seq<Binary>)
    | LeafList(prefix: Bits, pos: nat, items: seq<Item>)

  /** The key hash, the signature of an encoded list, and the order in which a map is traversed,
      which depends on its keys only. */
  datatype Env = Env(hash: Binary -> Hash, sig: Preimage -> Binary, order: set<Binary> -> seq<Binary>)
  {
    ghost predicate Valid()
    {
      forall s, k :: k in order(s) <==> k in s
    }
  }

  datatype Cache = Cache(hashes: seq<Binary>, count: nat)

  datatype Tree =
    | Leaf(cache: Option<Cache>, prefix: Bits, bucket: map<Binary, Binary>)
    | Node(cache: Option<Cache>, prefix: Bits, left: Tree, right: Tree)

  const LEAF_SIZE := 16

  // ---- Keys and hashes ----------------------------------------------------------------------

  /** to_binary: integers are cut to 256 bits. */
  function ToBinary(t: Term): Binary
  {
    match t
    case Raw(b) => b
    case Number(i) =>
      var low := i % 0x1_0000000000000000_0000000000000000_0000000000000000_0000000000000000;
      BigEndian(low, 32)
  }

  function ZeroWord(): Binary { BigEndian(0, 32) }

  /** true: the key belongs to the left. */
  function Decide(h: Hash, prefix: Bits): bool
    requires prefix <= h && |prefix| < 256
  {
    !h[|prefix|]
  }

  /** The last byte of the hash modulo sixteen. */
  function LeafIndex(h: Hash): (i: nat)
    ensures i < LEAF_SIZE
  {
    (if h[252] then 8 else 0) + (if h[253] then 4 else 0) + (if h[254] then 2 else 0) + (if h[255] then 1 else 0)
  }

  /** That is the hash as a number, modulo sixteen. */
  lemma {:induction false} LeafIndexIsLow(h: Hash)
    ensures LeafIndex(h) == Arithmetic.Number(h) % 16
  {
    var low := h[252..];
    Arithmetic.NumberSplit(h, 252);
    Arithmetic.NumberLead(low);
    Arithmetic.NumberLead(low[1..]);
    Arithmetic.NumberLead(low[2..]);
    Arithmetic.NumberLead(low[3..]);
    assert low[1..][1..] == low[2..] && low[2..][1..] == low[3..] && low[3..][1..] == [];
    assert Arithmetic.Pow2(3) == 8 && Arithmetic.Pow2(4) == 16;
    Arithmetic.DivisionUnique(Arithmetic.Number(h), Arithmetic.Number(h[..252]), 16, LeafIndex(h));
  }

  /** An integer in binary is 32 bytes, the integer modulo 2^256. */
  lemma IntegerInBinary(i: int)
    ensures |ToBinary(Number(i))| == 32
    ensures FromBigEndian(ToBinary(Number(i))) ==
      i % 0x1_0000000000000000_0000000000000000_0000000000000000_0000000000000000
  {
    Pow256At32();
    BigEndianRoundTrip(i % Pow256(32), 32);
  }

  lemma {:induction false} ZeroBytes(n: nat)
    ensures BigEndian(0, n) == Zeros(n) && FromBigEndian(Zeros(n)) == 0
  {
    if n > 0 {
      ZeroBytes(n - 1);
      assert Zeros(n)[..n - 1] == Zeros(n - 1);
    }
  }

  /** 32 zero bytes, or an integer that 2^256 divides. */
  predicate IsZero(v: Term)
  {
    match v
    case Raw(b) => b == Zeros(32)
    case Number(i) => i % 0x1_0000000000000000_0000000000000000_0000000000000000_0000000000000000 == 0
  }

  lemma ZeroWordIff(v: Term)
    ensures ToBinary(v) == ZeroWord() <==> IsZero(v)
  {
    ZeroBytes(32);
    if v.Number? { IntegerInBinary(v.value); }
  }

  ghost predicate Belongs(e: Env, prefix: Bits, m: map<Binary, Binary>)
  {
    forall k :: k in m ==> prefix <= e.hash(k)
  }

  function SameHash(e: Env, keys: set<Binary>, h: Hash): set<Binary>
  {
    set k | k in keys && e.hash(k) == h
  }

  /** At most sixteen of the keys share a hash; a larger group could never be split. */
  ghost predicate Apart(e: Env, keys: set<Binary>)
  {
    forall h :: |SameHash(e, keys, h)| <= LEAF_SIZE
  }

  lemma ApartSubset(e: Env, a: set<Binary>, b: set<Binary>)
    requires a <= b && Apart(e, b)
    ensures Apart(e, a)
  {
    forall h ensures |SameHash(e, a, h)| <= LEAF_SIZE {
      var x, y := SameHash(e, a, h), SameHash(e, b, h);
      assert y == x + (y - x);
    }
  }

  function Side(e: Env, prefix: Bits, m: map<Binary, Binary>, right: bool): (s: map<Binary, Binary>)
    requires |prefix| < 256
  {
    map k | k in m && e.hash(k)[|prefix|] == right :: m[k]
  }

  lemma WholeHash(e: Env, prefix: Hash, m: map<Binary, Binary>)
    requires Belongs(e, prefix, m)
    ensures SameHash(e, m.Keys, prefix) == m.Keys
  {
    forall k | k in m ensures e.hash(k) == prefix {
      assert e.hash(k)[..256] == e.hash(k);
    }
  }

  /** More than sixteen keys below a prefix leave a bit to part by. */
  lemma RoomToSplit(e: Env, prefix: Bits, m: map<Binary, Binary>)
    requires Belongs(e, prefix, m) && Apart(e, m.Keys) && |m| > LEAF_SIZE
    ensures |prefix| < 256
  {
    var a :| a in m.Keys;
    assert |prefix| <= |e.hash(a)|;
    if |prefix| == 256 { WholeHash(e, prefix, m); }
  }

  lemma SidesBelong(e: Env, prefix: Bits, m: map<Binary, Binary>)
    requires Belongs(e, prefix, m) && Apart(e, m.Keys) && |prefix| < 256
    ensures Belongs(e, prefix + [false], Side(e, prefix, m, false)) && Apart(e, Side(e, prefix, m, false).Keys)
    ensures Belongs(e, prefix + [true], Side(e, prefix, m, true)) && Apart(e, Side(e, prefix, m, true).Keys)
  {
    forall k | k in m ensures prefix + [e.hash(k)[|prefix|]] <= e.hash(k) {
    }
    ApartSubset(e, Side(e, prefix, m, false).Keys, m.Keys);
    ApartSubset(e, Side(e, prefix, m, true).Keys, m.Keys);
  }

  lemma SidesJoin(e: Env, prefix: Bits, m: map<Binary, Binary>)
    requires |prefix| < 256
    ensures Side(e, prefix, m, false) + Side(e, prefix, m, true) == m
    ensures |Side(e, prefix, m, false)| + |Side(e, prefix, m, true)| == |m|
  {
    UnionSize(Side(e, prefix, m, false), Side(e, prefix, m, true));
  }

  lemma UnionSize(a: map<Binary, Binary>, b: map<Binary, Binary>)
    requires a.Keys !! b.Keys
    ensures |a + b| == |a| + |b|
  {
    assert (a + b).Keys == a.Keys + b.Keys;
  }

  // ---- Lanes of a leaf ----------------------------------------------------------------------

  function Items(m: map<Binary, Binary>, keys: seq<Binary>): (s: seq<Item>)
    requires forall k :: k in keys ==> k in m
  {
    if keys == [] then [] else [Item(keys[0], m[keys[0]])] + Items(m, keys[1..])
  }

  function Listing(e: Env, m: map<Binary, Binary>): seq<Item>
    requires e.Valid()
  {
    Items(m, e.order(m.Keys))
  }

  /** bucket_to_leafes: every item joins the list of its lane. */
  function Spread(e: Env, items: seq<Item>, lists: seq<seq<Item>>): (r: seq<seq<Item>>)
    requires |lists| == LEAF_SIZE
    ensures |r| == LEAF_SIZE
  {
    if items == [] then lists
    else
      var pos := LeafIndex(e.hash(items[0].key));
      Spread(e, items[1..], lists[pos := lists[pos] + [items[0]]])
  }

  /** bucket_to_leaf: the items of one lane only. */
  function Lane(e: Env, items: seq<Item>, pos: nat): seq<Item>
  {
    if items == [] then []
    else if LeafIndex(e.hash(items[0].key)) == pos then [items[0]] + Lane(e, items[1..], pos)
    else Lane(e, items[1..], pos)
  }

  const NO_ITEMS: seq<seq<Item>> := [[], [], [], [], [], [], [], [], [], [], [], [], [], [], [], []]

  lemma {:induction false} SpreadIsLanes(e: Env, items: seq<Item>, lists: seq<seq<Item>>, pos: nat)
    requires |lists| == LEAF_SIZE && pos < LEAF_SIZE
    ensures Spread(e, items, lists)[pos] == lists[pos] + Lane(e, items, pos)
  {
    if items != [] {
      var at := LeafIndex(e.hash(items[0].key));
      SpreadIsLanes(e, items[1..], lists[at := lists[at] + [items[0]]], pos);
    }
  }

  function LaneHashes(e: Env, prefix: Bits, lists: seq<seq<Item>>, pos: nat): (s: seq<Binary>)
    requires pos <= |lists|
    ensures |s| == |lists| - pos
    ensures forall i :: 0 <= i < |s| ==> s[i] == e.sig(LeafList(prefix, pos + i, lists[pos + i]))
    decreases |lists| - pos
  {
    if pos == |lists| then []
    else [e.sig(LeafList(prefix, pos, lists[pos]))] + LaneHashes(e, prefix, lists, pos + 1)
  }

  function LeafHashes(e: Env, prefix: Bits, m: map<Binary, Binary>): (s: seq<Binary>)
    requires e.Valid()
    ensures |s| == LEAF_SIZE
  {
    LaneHashes(e, prefix, Spread(e, Listing(e, m), NO_ITEMS), 0)
  }

  lemma LeafHashAt(e: Env, prefix: Bits, m: map<Binary, Binary>, pos: nat)
    requires e.Valid() && pos < LEAF_SIZE
    ensures LeafHashes(e, prefix, m)[pos] == e.sig(LeafList(prefix, pos, Lane(e, Listing(e, m), pos)))
  {
    SpreadIsLanes(e, Listing(e, m), NO_ITEMS, pos);
    assert NO_ITEMS[pos] + Lane(e, Listing(e, m), pos) == Lane(e, Listing(e, m), pos);
  }

  /** The item lists a lane holds: exactly the bucket's entries with that lane index. */
  lemma {:induction false} ItemsAre(m: map<Binary, Binary>, keys: seq<Binary>, x: Item)
    requires forall k :: k in keys ==> k in m
    ensures x in Items(m, keys) <==> x.key in keys && x.value == m[x.key]
  {
    if keys != [] {
      ItemsAre(m, keys[1..], x);
      assert keys == [keys[0]] + keys[1..];
    }
  }

  lemma {:induction false} LaneHolds(e: Env, items: seq<Item>, pos: nat, x: Item)
    ensures x in Lane(e, items, pos) <==> x in items && LeafIndex(e.hash(x.key)) == pos
  {
    if items != [] {
      LaneHolds(e, items[1..], pos, x);
      assert items == [items[0]] + items[1..];
    }
  }

  lemma LaneOfBucket(e: Env, m: map<Binary, Binary>, k: Binary, v: Binary)
    requires e.Valid()
    ensures Item(k, v) in Lane(e, Listing(e, m), LeafIndex(e.hash(k))) <==> k in m && m[k] == v
  {
    LaneHolds(e, Listing(e, m), LeafIndex(e.hash(k)), Item(k, v));
    ItemsAre(m, e.order(m.Keys), Item(k, v));
  }

  // ---- The tree determined by its contents ----------------------------------------------------

  function Zip(e: Env, ls: seq<Binary>, rs: seq<Binary>): (s: seq<Binary>)
    requires |ls| == |rs|
    ensures |s| == |ls|
    ensures forall i :: 0 <= i < |s| ==> s[i] == e.sig(Pair(ls[i], rs[i]))
  {
    if ls == [] then [] else [e.sig(Pair(ls[0], rs[0]))] + Zip(e, ls[1..], rs[1..])
  }

  predicate Hashed(t: Tree)
  {
    t.cache.Some? && |t.cache.value.hashes| == LEAF_SIZE
  }

  function Contents(t: Tree): map<Binary, Binary>
  {
    match t
    case Leaf(_, _, b) => b
    case Node(_, _, l, r) => Contents(l) + Contents(r)
  }

  function LeafOf(e: Env, prefix: Bits, m: map<Binary, Binary>): Tree
    requires e.Valid()
  {
    Leaf(Some(Cache(LeafHashes(e, prefix, m), |m|)), prefix, m)
  }

  function NodeOf(e: Env, prefix: Bits, l: Tree, r: Tree): Tree
    requires Hashed(l) && Hashed(r)
  {
    var cl, cr := l.cache.value, r.cache.value;
    Node(Some(Cache(Zip(e, cl.hashes, cr.hashes), cl.count + cr.count)), prefix, l, r)
  }

  /** The one tree for these contents below this prefix. */
  function Build(e: Env, prefix: Bits, m: map<Binary, Binary>): (t: Tree)
    requires e.Valid() && Belongs(e, prefix, m) && Apart(e, m.Keys)
    ensures Hashed(t) && t.cache.value.count == |m| && t.prefix == prefix && Contents(t) == m
    ensures t.Node? <==> |m| > LEAF_SIZE
    decreases 256 - |prefix|
  {
    if |m| <= LEAF_SIZE then LeafOf(e, prefix, m)
    else
      RoomToSplit(e, prefix, m);
      SidesBelong(e, prefix, m);
      SidesJoin(e, prefix, m);
      NodeOf(e, prefix, Build(e, prefix + [false], Side(e, prefix, m, false)),
             Build(e, prefix + [true], Side(e, prefix, m, true)))
  }

  // ---- update_merkle_hash_count ----------------------------------------------------------------

  ghost predicate MemoOk(e: Env, memo: map<Binary, Hash>)
  {
    forall k :: k in memo ==> memo[k] == e.hash(k)
  }

  function KeyHash(e: Env, memo: map<Binary, Hash>, k: Binary): Hash
  {
    if k in memo then memo[k] else e.hash(k)
  }

  function ToList(e: Env, t: Tree): seq<Item>
    requires e.Valid()
  {
    match t
    case Leaf(_, _, b) => Listing(e, b)
    case Node(_, _, l, r) => ToList(e, l) + ToList(e, r)
  }

  /** Map.new of a list: later items win. */
  function NewMap(items: seq<Item>): map<Binary, Binary>
  {
    if items == [] then map[]
    else
      var last := items[|items| - 1];
      NewMap(items[..|items| - 1])[last.key := last.value]
  }

  /** A node whose children are up to date: merged into a leaf when sixteen items or fewer remain. */
  function Join(e: Env, prefix: Bits, l: Tree, r: Tree): Tree
    requires e.Valid() && Hashed(l) && Hashed(r)
  {
    if l.cache.value.count + r.cache.value.count <= LEAF_SIZE then
      LeafOf(e, prefix, NewMap(ToList(e, Node(None, prefix, l, r))))
    else NodeOf(e, prefix, l, r)
  }

  function Half(e: Env, memo: map<Binary, Hash>, prefix: Bits, m: map<Binary, Binary>, left: bool): map<Binary, Binary>
    requires |prefix| < 256 && MemoOk(e, memo) && Belongs(e, prefix, m)
  {
    map k | k in m && Decide(KeyHash(e, memo, k), prefix) == left :: m[k]
  }

  lemma HalvesAreSides(e: Env, memo: map<Binary, Hash>, prefix: Bits, m: map<Binary, Binary>)
    requires |prefix| < 256 && MemoOk(e, memo) && Belongs(e, prefix, m)
    ensures Half(e, memo, prefix, m, true) == Side(e, prefix, m, false)
    ensures Half(e, memo, prefix, m, false) == Side(e, prefix, m, true)
  {
  }

  function RefreshLeaf(e: Env, memo: map<Binary, Hash>, prefix: Bits, m: map<Binary, Binary>): (t: Tree)
    requires e.Valid() && MemoOk(e, memo) && Belongs(e, prefix, m) && Apart(e, m.Keys)
    ensures t == Build(e, prefix, m)
    decreases 256 - |prefix|
  {
    if |m| <= LEAF_SIZE then LeafOf(e, prefix, m)
    else
      RoomToSplit(e, prefix, m);
      SidesBelong(e, prefix, m);
      SidesJoin(e, prefix, m);
      HalvesAreSides(e, memo, prefix, m);
      JoinIsBuild(e, prefix, Side(e, prefix, m, false), Side(e, prefix, m, true));
      Join(e, prefix, RefreshLeaf(e, memo, prefix + [false], Half(e, memo, prefix, m, true)),
           RefreshLeaf(e, memo, prefix + [true], Half(e, memo, prefix, m, false)))
  }

  /** A tree between updates: every part with a cache is the tree built from its contents, and keys
      sit where their hashes say. */
  ghost predicate Tracked(e: Env, t: Tree, prefix: Bits)
    requires e.Valid()
    ensures Tracked(e, t, prefix) ==> t.prefix == prefix && Belongs(e, prefix, Contents(t))
    decreases t
  {
    t.prefix == prefix &&
    if t.cache.Some? then
      Belongs(e, prefix, Contents(t)) && Apart(e, Contents(t).Keys) && t == Build(e, prefix, Contents(t))
    else
      match t
      case Leaf(_, _, b) => Belongs(e, prefix, b)
      case Node(_, _, l, r) =>
        |prefix| < 256 && Tracked(e, l, prefix + [false]) && Tracked(e, r, prefix + [true]) &&
        Belongs(e, prefix, Contents(t))
  }

  /** Below a node the sides are the contents of the children. */
  lemma SidesOfNode(e: Env, prefix: Bits, l: map<Binary, Binary>, r: map<Binary, Binary>)
    requires |prefix| < 256 && Belongs(e, prefix + [false], l) && Belongs(e, prefix + [true], r)
    ensures Belongs(e, prefix, l + r) && l.Keys !! r.Keys
    ensures Side(e, prefix, l + r, false) == l && Side(e, prefix, l + r, true) == r
  {
    forall k | k in l ensures prefix <= e.hash(k) && !e.hash(k)[|prefix|] {
      assert prefix + [false] <= e.hash(k);
      assert e.hash(k)[..|prefix|] == (prefix + [false])[..|prefix|] == prefix;
    }
    forall k | k in r ensures prefix <= e.hash(k) && e.hash(k)[|prefix|] {
      assert prefix + [true] <= e.hash(k);
      assert e.hash(k)[..|prefix|] == (prefix + [true])[..|prefix|] == prefix;
    }
  }

  function Refresh(e: Env, memo: map<Binary, Hash>, t: Tree, ghost prefix: Bits): (r: Tree)
    requires e.Valid() && MemoOk(e, memo) && Tracked(e, t, prefix) && Apart(e, Contents(t).Keys)
    ensures r == Build(e, prefix, Contents(t))
    decreases t
  {
    if t.cache.Some? then t
    else
      match t
      case Leaf(_, p, b) => RefreshLeaf(e, memo, p, b)
      case Node(_, p, l, r) =>
        SidesOfNode(e, p, Contents(l), Contents(r));
        ApartHalves(e, Contents(l), Contents(r));
        JoinIsBuild(e, p, Contents(l), Contents(r));
        Join(e, p, Refresh(e, memo, l, p + [false]), Refresh(e, memo, r, p + [true]))
  }

  lemma {:induction false} Collects(m: map<Binary, Binary>, items: seq<Item>)
    requires forall x :: x in items ==> x.key in m && m[x.key] == x.value
    ensures forall k :: k in NewMap(items) ==> k in m && NewMap(items)[k] == m[k]
    ensures forall x :: x in items ==> x.key in NewMap(items)
  {
    if items != [] {
      var n := |items| - 1;
      assert items == items[..n] + [items[n]];
      Collects(m, items[..n]);
    }
  }

  /** The merged leaf holds what the two leaves held. */
  lemma MergedList(e: Env, l: map<Binary, Binary>, r: map<Binary, Binary>)
    requires e.Valid() && l.Keys !! r.Keys
    ensures NewMap(Listing(e, l) + Listing(e, r)) == l + r
  {
    var items := Listing(e, l) + Listing(e, r);
    forall x: Item ensures x in items <==> x.key in l + r && (l + r)[x.key] == x.value {
      ItemsAre(l, e.order(l.Keys), x);
      ItemsAre(r, e.order(r.Keys), x);
    }
    Collects(l + r, items);
    forall k | k in l + r ensures k in NewMap(items) {
      assert Item(k, (l + r)[k]) in items;
    }
  }

  lemma JoinIsBuild(e: Env, prefix: Bits, l: map<Binary, Binary>, r: map<Binary, Binary>)
    requires e.Valid() && |prefix| < 256 && Belongs(e, prefix + [false], l) && Belongs(e, prefix + [true], r)
    requires Apart(e, (l + r).Keys) && Apart(e, l.Keys) && Apart(e, r.Keys)
    ensures Belongs(e, prefix, l + r)
    ensures Join(e, prefix, Build(e, prefix + [false], l), Build(e, prefix + [true], r)) == Build(e, prefix, l + r)
  {
    SidesOfNode(e, prefix, l, r);
    UnionSize(l, r);
    var tl, tr := Build(e, prefix + [false], l), Build(e, prefix + [true], r);
    if |l + r| <= LEAF_SIZE {
      MergedList(e, l, r);
      JoinSmall(e, prefix, l, r, tl, tr);
    } else {
      BuildNode(e, prefix, l + r);
      assert Join(e, prefix, tl, tr) == NodeOf(e, prefix, tl, tr);
    }
  }

  lemma JoinSmall(e: Env, prefix: Bits, l: map<Binary, Binary>, r: map<Binary, Binary>, tl: Tree, tr: Tree)
    requires e.Valid() && |l| <= LEAF_SIZE && |r| <= LEAF_SIZE && |l| + |r| <= LEAF_SIZE
    requires tl == LeafOf(e, tl.prefix, l) && tr == LeafOf(e, tr.prefix, r)
    requires NewMap(Listing(e, l) + Listing(e, r)) == l + r
    ensures Join(e, prefix, tl, tr) == LeafOf(e, prefix, l + r)
  {
    assert ToList(e, Node(None, prefix, tl, tr)) == Listing(e, l) + Listing(e, r) by {
      assert ToList(e, tl) == Listing(e, l);
      assert ToList(e, tr) == Listing(e, r);
    }
  }

  lemma BuildNode(e: Env, prefix: Bits, m: map<Binary, Binary>)
    requires e.Valid() && Belongs(e, prefix, m) && Apart(e, m.Keys) && |m| > LEAF_SIZE
    ensures |prefix| < 256
    ensures Belongs(e, prefix + [false], Side(e, prefix, m, false)) && Apart(e, Side(e, prefix, m, false).Keys)
    ensures Belongs(e, prefix + [true], Side(e, prefix, m, true)) && Apart(e, Side(e, prefix, m, true).Keys)
    ensures Build(e, prefix, m) == NodeOf(e, prefix, Build(e, prefix + [false], Side(e, prefix, m, false)),
                                          Build(e, prefix + [true], Side(e, prefix, m, true)))
  {
    RoomToSplit(e, prefix, m);
    SidesBelong(e, prefix, m);
  }

  lemma ApartHalves(e: Env, l: map<Binary, Binary>, r: map<Binary, Binary>)
    requires Apart(e, (l + r).Keys)
    ensures Apart(e, l.Keys) && Apart(e, r.Keys)
  {
    ApartSubset(e, l.Keys, (l + r).Keys);
    ApartSubset(e, r.Keys, (l + r).Keys);
  }

  // ---- Operations --------------------------------------------------------------------------------

  /** Map.put, or Map.delete when there is no value. */
  function Change(m: map<Binary, Binary>, k: Binary, v: Option<Binary>): map<Binary, Binary>
  {
    match v
    case Some(x) => m[k := x]
    case None => m - {k}
  }

  lemma BuildTracked(e: Env, t: Tree, prefix: Bits)
    requires e.Valid() && Tracked(e, t, prefix) && t.Node?
    ensures |prefix| < 256 && Tracked(e, t.left, prefix + [false]) && Tracked(e, t.right, prefix + [true])
  {
    if t.cache.Some? {
      BuildNode(e, prefix, Contents(t));
    }
  }

  lemma ChangeSides(e: Env, prefix: Bits, l: map<Binary, Binary>, r: map<Binary, Binary>, k: Binary, v: Option<Binary>)
    requires |prefix| < 256 && Belongs(e, prefix + [false], l) && Belongs(e, prefix + [true], r) && prefix <= e.hash(k)
    ensures !e.hash(k)[|prefix|] ==> prefix + [false] <= e.hash(k) && Change(l, k, v) + r == Change(l + r, k, v)
    ensures e.hash(k)[|prefix|] ==> prefix + [true] <= e.hash(k) && l + Change(r, k, v) == Change(l + r, k, v)
  {
    SidesOfNode(e, prefix, l, r);
    assert prefix + [e.hash(k)[|prefix|]] == e.hash(k)[..|prefix| + 1];
    assert Side(e, prefix, l + r, false).Keys == l.Keys && Side(e, prefix, l + r, true).Keys == r.Keys;
  }

  lemma ChangeBelongs(e: Env, prefix: Bits, m: map<Binary, Binary>, k: Binary, v: Option<Binary>)
    requires Belongs(e, prefix, m) && prefix <= e.hash(k)
    ensures Belongs(e, prefix, Change(m, k, v))
  {
  }

  /** update_bucket: walks to the leaf of the key and drops the caches on the way. */
  function UpdateBucket(e: Env, t: Tree, k: Binary, h: Hash, v: Option<Binary>, ghost prefix: Bits): (r: Tree)
    requires e.Valid() && h == e.hash(k) && Tracked(e, t, prefix) && prefix <= e.hash(k)
    ensures Tracked(e, r, prefix) && Contents(r) == Change(Contents(t), k, v)
    decreases t
  {
    match t
    case Leaf(_, p, b) =>
      ChangeBelongs(e, prefix, b, k, v);
      Leaf(None, p, Change(b, k, v))
    case Node(_, p, l, r) =>
      BuildTracked(e, t, prefix);
      ChangeSides(e, p, Contents(l), Contents(r), k, v);
      ChangeBelongs(e, p, Contents(t), k, v);
      if Decide(h, p) then Node(None, p, UpdateBucket(e, l, k, h, v, p + [false]), r)
      else Node(None, p, l, UpdateBucket(e, r, k, h, v, p + [true]))
  }

  /** An up-to-date tree below a prefix; at the root, what every public function takes and returns. */
  ghost predicate UpToDate(e: Env, t: Tree, prefix: Bits)
    requires e.Valid()
  {
    Tracked(e, t, prefix) && t.cache.Some?
  }

  ghost predicate Fresh(e: Env, t: Tree)
    requires e.Valid()
  {
    UpToDate(e, t, [])
  }

  datatype Entry = Entry(key: Term, value: Term)

  /** The value an entry stores; the 256-bit zero stores nothing. */
  function Stored(x: Entry): Option<Binary>
  {
    if ToBinary(x.value) == ZeroWord() then None else Some(ToBinary(x.value))
  }

  function Updated(m: map<Binary, Binary>, items: seq<Entry>): map<Binary, Binary>
    decreases |items|
  {
    if items == [] then m
    else Updated(Change(m, ToBinary(items[0].key), Stored(items[0])), items[1..])
  }

  datatype Pending = Pending(tree: Tree, memo: map<Binary, Hash>)

  function PutAll(e: Env, p: Pending, items: seq<Entry>): (r: Pending)
    requires e.Valid() && Tracked(e, p.tree, []) && MemoOk(e, p.memo)
    ensures Tracked(e, r.tree, []) && MemoOk(e, r.memo) && Contents(r.tree) == Updated(Contents(p.tree), items)
    decreases |items|
  {
    if items == [] then p
    else
      var k := ToBinary(items[0].key);
      var h := e.hash(k);
      PutAll(e, Pending(UpdateBucket(e, p.tree, k, h, Stored(items[0]), []), p.memo[k := h]), items[1..])
  }

  function New(e: Env): (t: Tree)
    requires e.Valid()
    ensures Fresh(e, t) && Contents(t) == map[]
  {
    Refresh(e, map[], Leaf(None, [], map[]), [])
  }

  /** Insertion gives the one tree for the updated contents. */
  function InsertItems(e: Env, t: Tree, items: seq<Entry>): (r: Tree)
    requires e.Valid() && Fresh(e, t) && Apart(e, Updated(Contents(t), items).Keys)
    ensures Fresh(e, r) && r == Build(e, [], Updated(Contents(t), items))
  {
    var p := PutAll(e, Pending(t, map[]), items);
    Refresh(e, p.memo, p.tree, [])
  }

  /** Deletion gives the one tree for what is left. */
  function Delete(e: Env, t: Tree, key: Term): (r: Tree)
    requires e.Valid() && Fresh(e, t)
    ensures Fresh(e, r) && Apart(e, (Contents(t) - {ToBinary(key)}).Keys) && r == Build(e, [], Contents(t) - {ToBinary(key)})
  {
    var k := ToBinary(key);
    var t' := UpdateBucket(e, t, k, e.hash(k), None, []);
    ApartSubset(e, Contents(t').Keys, Contents(t).Keys);
    Refresh(e, map[], t', [])
  }

  function Get(e: Env, t: Tree, k: Binary, ghost prefix: Bits): (r: Option<Binary>)
    requires e.Valid() && Tracked(e, t, prefix) && prefix <= e.hash(k)
    ensures r == if k in Contents(t) then Some(Contents(t)[k]) else None
    decreases t
  {
    match t
    case Leaf(_, _, b) => if k in b then Some(b[k]) else None
    case Node(_, p, l, r) =>
      BuildTracked(e, t, prefix);
      ChangeSides(e, p, Contents(l), Contents(r), k, None);
      if Decide(e.hash(k), p) then Get(e, l, k, p + [false]) else Get(e, r, k, p + [true])
  }

  // ---- Runs ---------------------------------------------------------------------------------------

  datatype Op = Insert(items: seq<Entry>) | Remove(key: Term)

  function RunMap(ops: seq<Op>): map<Binary, Binary>
  {
    if ops == [] then map[]
    else
      var m := RunMap(ops[..|ops| - 1]);
      match ops[|ops| - 1]
      case Insert(items) => Updated(m, items)
      case Remove(k) => m - {ToBinary(k)}
  }

  /** No more than sixteen keys stored at the same time share a hash. */
  ghost predicate ApartThroughout(e: Env, ops: seq<Op>)
  {
    forall n :: 0 <= n <= |ops| ==> Apart(e, RunMap(ops[..n]).Keys)
  }

  function Run(e: Env, ops: seq<Op>): (t: Tree)
    requires e.Valid() && ApartThroughout(e, ops)
    ensures Fresh(e, t) && Contents(t) == RunMap(ops) && Apart(e, RunMap(ops).Keys)
    ensures Belongs(e, [], RunMap(ops)) && t == Build(e, [], RunMap(ops))
  {
    assert ops[..|ops|] == ops;
    if ops == [] then New(e)
    else
      var n := |ops| - 1;
      assert forall i :: 0 <= i <= n ==> ops[..n][..i] == ops[..i];
      var t := Run(e, ops[..n]);
      match ops[n]
      case Insert(items) => InsertItems(e, t, items)
      case Remove(k) => Delete(e, t, k)
  }

  /** Inserting one item into whatever a run has left removes its key when the value is zero, maps the
      key to the value in binary otherwise, and touches no other key. */
  lemma OneItemInserted(e: Env, ops: seq<Op>, k: Term, v: Term)
    requires e.Valid() && ApartThroughout(e, ops + [Insert([Entry(k, v)])])
    ensures ApartThroughout(e, ops)
    ensures Contents(Run(e, ops + [Insert([Entry(k, v)])])) ==
      if IsZero(v) then Contents(Run(e, ops)) - {ToBinary(k)} else Contents(Run(e, ops))[ToBinary(k) := ToBinary(v)]
  {
    var x, m := Entry(k, v), RunMap(ops);
    var more := ops + [Insert([x])];
    assert forall n :: 0 <= n <= |ops| ==> more[..n] == ops[..n];
    assert more[..|more| - 1] == ops;
    ZeroWordIff(v);
    assert Updated(m, [x]) == Updated(Change(m, ToBinary(k), Stored(x)), []);
  }

  /** Inserting items together is inserting them in order. */
  lemma {:induction false} UpdatedConcat(m: map<Binary, Binary>, xs: seq<Entry>, ys: seq<Entry>)
    ensures Updated(m, xs + ys) == Updated(Updated(m, xs), ys)
    decreases |xs|
  {
    if xs == [] {
      assert xs + ys == ys;
    } else {
      UpdatedConcat(Change(m, ToBinary(xs[0].key), Stored(xs[0])), xs[1..], ys);
      assert (xs + ys)[1..] == xs[1..] + ys;
    }
  }

  lemma InsertedInOrder(ops: seq<Op>, xs: seq<Entry>, ys: seq<Entry>)
    ensures RunMap(ops + [Insert(xs + ys)]) == RunMap(ops + [Insert(xs), Insert(ys)])
  {
    UpdatedConcat(RunMap(ops), xs, ys);
    var one, two := ops + [Insert(xs + ys)], ops + [Insert(xs), Insert(ys)];
    assert one[..|one| - 1] == ops && two[..|two| - 1] == ops + [Insert(xs)] && (ops + [Insert(xs)])[..|ops|] == ops;
  }

  // ---- MapMerkleTree --------------------------------------------------------------------------------

  function PutOne(d: map<Term, Term>, x: Entry): map<Term, Term>
  {
    if ToBinary(x.value) == ZeroWord() then d - {x.key} else d[x.key := x.value]
  }

  /** The plain map deletes on the same values. */
  lemma PutOneDeletes(d: map<Term, Term>, x: Entry)
    ensures PutOne(d, x) == if IsZero(x.value) then d - {x.key} else d[x.key := x.value]
  {
    ZeroWordIff(x.value);
  }

  function ReferencePut(d: map<Term, Term>, items: seq<Entry>): map<Term, Term>
    decreases |items|
  {
    if items == [] then d else ReferencePut(PutOne(d, items[0]), items[1..])
  }

  function RunReference(ops: seq<Op>): map<Term, Term>
  {
    if ops == [] then map[]
    else
      var d := RunReference(ops[..|ops| - 1]);
      match ops[|ops| - 1]
      case Insert(items) => ReferencePut(d, items)
      case Remove(k) => d - {k}
  }

  ghost predicate Agree(m: map<Binary, Binary>, d: map<Term, Term>)
  {
    (forall k :: k in d ==> k.Raw? && k.bytes in m && d[k] == Raw(m[k.bytes])) &&
    (forall b :: b in m ==> Raw(b) in d)
  }

  predicate Binaries(items: seq<Entry>)
  {
    forall x :: x in items ==> x.key.Raw? && x.value.Raw?
  }

  predicate BinaryOp(op: Op)
  {
    match op
    case Insert(items) => Binaries(items)
    case Remove(k) => k.Raw?
  }

  lemma {:induction false} PutAgrees(m: map<Binary, Binary>, d: map<Term, Term>, items: seq<Entry>)
    requires Agree(m, d) && Binaries(items)
    ensures Agree(Updated(m, items), ReferencePut(d, items))
    decreases |items|
  {
    if items != [] {
      var x := items[0];
      PutAgrees(Change(m, x.key.bytes, Stored(x)), PutOne(d, x), items[1..]);
    }
  }

  /** On binary keys and values the tree always holds what the plain map holds. */
  lemma {:induction false} ReferenceAgrees(ops: seq<Op>)
    requires forall op :: op in ops ==> BinaryOp(op)
    ensures Agree(RunMap(ops), RunReference(ops))
  {
    if ops != [] {
      var n := |ops| - 1;
      ReferenceAgrees(ops[..n]);
      assert ops[n] in ops;
      if ops[n].Insert? { PutAgrees(RunMap(ops[..n]), RunReference(ops[..n]), ops[n].items); }
    }
  }

  ghost predicate Spells(d: map<Term, Term>, b: Binary)
  {
    exists k :: k in d && ToBinary(k) == b
  }

  /** The tree holds what the plain map holds when keys and values are made binary, and no two keys of
      the plain map have one binary form. */
  ghost predicate Matches(m: map<Binary, Binary>, d: map<Term, Term>)
  {
    (forall k :: k in d ==> ToBinary(k) in m && m[ToBinary(k)] == ToBinary(d[k])) &&
    (forall b :: b in m ==> Spells(d, b)) &&
    (forall j, k :: j in d && k in d && ToBinary(j) == ToBinary(k) ==> j == k)
  }

  /** The plain map has no other spelling of this key. */
  ghost predicate OneSpelling(d: map<Term, Term>, k: Term)
  {
    forall j :: j in d && ToBinary(j) == ToBinary(k) ==> j == k
  }

  /** One item put, or one key deleted. */
  datatype Step = Put(entry: Entry) | Drop(dropped: Term)
  {
    function Key(): Term { if Put? then entry.key else dropped }
  }

  function TreeStep(m: map<Binary, Binary>, s: Step): map<Binary, Binary>
  {
    match s
    case Put(x) => Change(m, ToBinary(x.key), Stored(x))
    case Drop(k) => m - {ToBinary(k)}
  }

  function DictStep(d: map<Term, Term>, s: Step): map<Term, Term>
  {
    match s
    case Put(x) => PutOne(d, x)
    case Drop(k) => d - {k}
  }

  lemma StillSpells(d: map<Term, Term>, d': map<Term, Term>, b: Binary)
    requires Spells(d, b) && forall k :: k in d && ToBinary(k) == b ==> k in d'
    ensures Spells(d', b)
  {
    var k :| k in d && ToBinary(k) == b;
    assert k in d';
  }

  lemma StoreMatches(m: map<Binary, Binary>, d: map<Term, Term>, k: Term, v: Term)
    requires Matches(m, d) && OneSpelling(d, k)
    ensures Matches(m[ToBinary(k) := ToBinary(v)], d[k := v])
  {
    var m', d' := m[ToBinary(k) := ToBinary(v)], d[k := v];
    assert k in d';
    forall b | b in m' ensures Spells(d', b) {
      if b != ToBinary(k) { StillSpells(d, d', b); }
    }
  }

  lemma DropMatches(m: map<Binary, Binary>, d: map<Term, Term>, k: Term)
    requires Matches(m, d) && OneSpelling(d, k)
    ensures Matches(m - {ToBinary(k)}, d - {k})
  {
    var m', d' := m - {ToBinary(k)}, d - {k};
    forall b | b in m' ensures Spells(d', b) { StillSpells(d, d', b); }
    forall j | j in d' ensures ToBinary(j) in m' && m'[ToBinary(j)] == ToBinary(d'[j]) { DropHolds(m, d, k, j); }
  }

  lemma DropHolds(m: map<Binary, Binary>, d: map<Term, Term>, k: Term, j: Term)
    requires Matches(m, d) && OneSpelling(d, k) && j in d && j != k
    ensures ToBinary(j) in m && ToBinary(j) != ToBinary(k) && m[ToBinary(j)] == ToBinary(d[j])
  {
  }

  lemma SpelledStepMatches(m: map<Binary, Binary>, d: map<Term, Term>, s: Step)
    requires Matches(m, d) && OneSpelling(d, s.Key())
    ensures Matches(TreeStep(m, s), DictStep(d, s))
  {
    match s
    case Put(x) =>
      if ToBinary(x.value) == ZeroWord() { DropMatches(m, d, x.key); } else { StoreMatches(m, d, x.key, x.value); }
    case Drop(k) => DropMatches(m, d, k);
  }

  lemma OtherSpellingBreaks(m: map<Binary, Binary>, d: map<Term, Term>, s: Step)
    requires Matches(m, d) && !OneSpelling(d, s.Key())
    ensures !Matches(TreeStep(m, s), DictStep(d, s))
  {
    var j :| j in d && ToBinary(j) == ToBinary(s.Key()) && j != s.Key();
    assert j in DictStep(d, s);
  }

  /** A call keeps tree and plain map in agreement exactly when the plain map has no other spelling of
      its key. */
  lemma StepMatchesIff(m: map<Binary, Binary>, d: map<Term, Term>, s: Step)
    requires Matches(m, d)
    ensures Matches(TreeStep(m, s), DictStep(d, s)) <==> OneSpelling(d, s.Key())
  {
    if OneSpelling(d, s.Key()) { SpelledStepMatches(m, d, s); } else { OtherSpellingBreaks(m, d, s); }
  }

  function TreeAfter(steps: seq<Step>): map<Binary, Binary>
  {
    if steps == [] then map[] else TreeStep(TreeAfter(steps[..|steps| - 1]), steps[|steps| - 1])
  }

  function DictAfter(steps: seq<Step>): map<Term, Term>
  {
    if steps == [] then map[] else DictStep(DictAfter(steps[..|steps| - 1]), steps[|steps| - 1])
  }

  /** Every step names its key as the plain map already spells it. */
  ghost predicate Spelled(steps: seq<Step>)
  {
    forall n :: 0 <= n < |steps| ==> OneSpelling(DictAfter(steps[..n]), steps[n].Key())
  }

  ghost predicate MatchThroughout(steps: seq<Step>)
  {
    forall n :: 0 <= n <= |steps| ==> Matches(TreeAfter(steps[..n]), DictAfter(steps[..n]))
  }

  lemma {:induction false} MatchUpTo(steps: seq<Step>, n: nat)
    requires Spelled(steps) && n <= |steps|
    ensures Matches(TreeAfter(steps[..n]), DictAfter(steps[..n]))
    decreases n
  {
    if n > 0 {
      MatchUpTo(steps, n - 1);
      assert steps[..n][..n - 1] == steps[..n - 1];
      StepMatchesIff(TreeAfter(steps[..n - 1]), DictAfter(steps[..n - 1]), steps[n - 1]);
    }
  }

  lemma SpelledAt(steps: seq<Step>, n: nat)
    requires MatchThroughout(steps) && n < |steps|
    ensures OneSpelling(DictAfter(steps[..n]), steps[n].Key())
  {
    var here, next := steps[..n], steps[..n + 1];
    assert next[..n] == here && next[n] == steps[n];
    assert Matches(TreeAfter(here), DictAfter(here)) && Matches(TreeAfter(next), DictAfter(next));
    StepMatchesIff(TreeAfter(here), DictAfter(here), steps[n]);
  }

  /** Tree and plain map agree at every point of a run exactly when no key is ever given in another
      spelling than the plain map holds. */
  lemma MatchThroughoutIffSpelled(steps: seq<Step>)
    ensures MatchThroughout(steps) <==> Spelled(steps)
  {
    if Spelled(steps) {
      forall n | 0 <= n <= |steps| ensures Matches(TreeAfter(steps[..n]), DictAfter(steps[..n])) { MatchUpTo(steps, n); }
    } else if MatchThroughout(steps) {
      forall n | 0 <= n < |steps| ensures OneSpelling(DictAfter(steps[..n]), steps[n].Key()) { SpelledAt(steps, n); }
    }
  }

  function Puts(items: seq<Entry>): seq<Step>
  {
    if items == [] then [] else [Put(items[0])] + Puts(items[1..])
  }

  /** The steps of a run of calls. */
  function StepsOf(ops: seq<Op>): seq<Step>
  {
    if ops == [] then []
    else
      StepsOf(ops[..|ops| - 1]) +
      match ops[|ops| - 1]
      case Insert(items) => Puts(items)
      case Remove(k) => [Drop(k)]
  }

  lemma PutsShift(before: seq<Step>, items: seq<Entry>)
    requires items != []
    ensures before + Puts(items) == before + [Put(items[0])] + Puts(items[1..])
  {
  }

  lemma FirstPut(m: map<Binary, Binary>, d: map<Term, Term>, items: seq<Entry>)
    requires items != []
    ensures Updated(m, items) == Updated(TreeStep(m, Put(items[0])), items[1..])
    ensures ReferencePut(d, items) == ReferencePut(DictStep(d, Put(items[0])), items[1..])
  {
  }

  lemma {:induction false} PutsInTree(before: seq<Step>, items: seq<Entry>)
    ensures TreeAfter(before + Puts(items)) == Updated(TreeAfter(before), items)
    decreases |items|
  {
    if items == [] {
      assert before + Puts(items) == before;
    } else {
      var next := before + [Put(items[0])];
      OneMoreStep(before, Put(items[0]));
      PutsInTree(next, items[1..]);
      PutsShift(before, items);
      FirstPut(TreeAfter(before), DictAfter(before), items);
    }
  }

  lemma {:induction false} PutsInDict(before: seq<Step>, items: seq<Entry>)
    ensures DictAfter(before + Puts(items)) == ReferencePut(DictAfter(before), items)
    decreases |items|
  {
    if items == [] {
      assert before + Puts(items) == before;
    } else {
      var next := before + [Put(items[0])];
      OneMoreStep(before, Put(items[0]));
      PutsInDict(next, items[1..]);
      PutsShift(before, items);
      FirstPut(TreeAfter(before), DictAfter(before), items);
    }
  }

  lemma OneMoreStep(before: seq<Step>, s: Step)
    ensures TreeAfter(before + [s]) == TreeStep(TreeAfter(before), s)
    ensures DictAfter(before + [s]) == DictStep(DictAfter(before), s)
  {
    assert (before + [s])[..|before|] == before;
  }

  /** The contents of tree and plain map after a run of calls. */
  lemma {:induction false} OpsAreSteps(ops: seq<Op>)
    ensures RunMap(ops) == TreeAfter(StepsOf(ops)) && RunReference(ops) == DictAfter(StepsOf(ops))
  {
    if ops != [] {
      var n := |ops| - 1;
      var before := StepsOf(ops[..n]);
      OpsAreSteps(ops[..n]);
      match ops[n]
      case Insert(items) =>
        PutsInTree(before, items);
        PutsInDict(before, items);
      case Remove(k) => OneMoreStep(before, Drop(k));
    }
  }

  /** So it is for keys and values of any kind after a run of calls whose steps keep to one spelling. */
  lemma SpelledRunMatches(ops: seq<Op>)
    requires Spelled(StepsOf(ops))
    ensures Matches(RunMap(ops), RunReference(ops))
  {
    var steps := StepsOf(ops);
    OpsAreSteps(ops);
    MatchUpTo(steps, |steps|);
    assert steps[..|steps|] == steps;
  }

  /** An integer key and its binary form are one key here and two in the plain map. */
  lemma IntegerKeysDiffer()
    ensures var b := ToBinary(Number(1));
      var items := [Entry(Number(1), Raw([7])), Entry(Raw(b), Raw([8]))];
      Updated(map[], items) == map[b := [8]] && ReferencePut(map[], items).Keys == {Number(1), Raw(b)}
  {
    var b := ToBinary(Number(1));
    var x, y := Entry(Number(1), Raw([7])), Entry(Raw(b), Raw([8]));
    assert |ZeroWord()| == 32;
    assert Updated(map[b := [7]], [y]) == Updated(map[b := [8]], []);
    assert [x, y][1..] == [y];
    var d: map<Term, Term> := map[Number(1) := Raw([7])];
    assert ReferencePut(d, [y]) == ReferencePut(d[Raw(b) := Raw([8])], []);
  }

  // ---- Shape and caches -------------------------------------------------------------------------------

  /** Inner nodes hold more than sixteen items, leaves at most sixteen, caches are current, and every
      key lies under the prefix of its leaf. */
  ghost predicate Current(e: Env, t: Tree)
    requires e.Valid()
    ensures Current(e, t) ==> Hashed(t)
    decreases t
  {
    Belongs(e, t.prefix, Contents(t)) &&
    match t
    case Leaf(c, p, b) =>
      |b| <= LEAF_SIZE && c == Some(Cache(LeafHashes(e, p, b), |b|))
    case Node(c, p, l, r) =>
      Current(e, l) && Current(e, r) && l.prefix == p + [false] && r.prefix == p + [true] &&
      |p| < 256 && |Contents(t)| > LEAF_SIZE &&
      c == Some(Cache(Zip(e, l.cache.value.hashes, r.cache.value.hashes), |Contents(t)|))
  }

  lemma {:induction false} BuildIsCurrent(e: Env, prefix: Bits, m: map<Binary, Binary>)
    requires e.Valid() && Belongs(e, prefix, m) && Apart(e, m.Keys)
    ensures Current(e, Build(e, prefix, m))
    decreases 256 - |prefix|
  {
    if |m| > LEAF_SIZE {
      BuildNode(e, prefix, m);
      BuildIsCurrent(e, prefix + [false], Side(e, prefix, m, false));
      BuildIsCurrent(e, prefix + [true], Side(e, prefix, m, true));
      SidesJoin(e, prefix, m);
    }
  }

  /** Every tree reached from the empty one has this shape, whatever the order of the operations. */
  lemma RunIsCurrent(e: Env, ops: seq<Op>)
    requires e.Valid() && ApartThroughout(e, ops)
    ensures Current(e, Run(e, ops)) && (Run(e, ops).Leaf? <==> |RunMap(ops)| <= 16)
  {
    var t := Run(e, ops);
    BuildIsCurrent(e, [], RunMap(ops));
  }

  // ---- Root hash ------------------------------------------------------------------------------------

  function RootHash(e: Env, t: Tree): Binary
    requires Hashed(t)
  {
    e.sig(Lanes(t.cache.value.hashes))
  }

  function LaneInput(e: Env, t: Tree, pos: nat): Preimage
    requires e.Valid() && pos < LEAF_SIZE && (t.Node? ==> Hashed(t.left) && Hashed(t.right))
  {
    match t
    case Leaf(_, p, b) => LeafList(p, pos, Lane(e, Listing(e, b), pos))
    case Node(_, _, l, r) => Pair(l.cache.value.hashes[pos], r.cache.value.hashes[pos])
  }

  /** The lists signed inside a tree. */
  ghost predicate Inside(e: Env, t: Tree, x: Preimage)
    requires e.Valid() && Current(e, t)
    decreases t
  {
    (exists pos :: 0 <= pos < LEAF_SIZE && x == LaneInput(e, t, pos)) ||
    (t.Node? && (Inside(e, t.left, x) || Inside(e, t.right, x)))
  }

  ghost predicate Signed(e: Env, t: Tree, x: Preimage)
    requires e.Valid() && Current(e, t)
  {
    x == Lanes(t.cache.value.hashes) || Inside(e, t, x)
  }

  /** Two different lists with one signature, one inside each tree. */
  ghost predicate Collide(e: Env, s: Tree, t: Tree)
    requires e.Valid() && Current(e, s) && Current(e, t)
  {
    exists x, y :: Inside(e, s, x) && Inside(e, t, y) && x != y && e.sig(x) == e.sig(y)
  }

  lemma LaneSigned(e: Env, t: Tree, pos: nat)
    requires e.Valid() && Current(e, t) && pos < LEAF_SIZE
    ensures Inside(e, t, LaneInput(e, t, pos))
    ensures t.cache.value.hashes[pos] == e.sig(LaneInput(e, t, pos))
  {
    if t.Leaf? { LeafHashAt(e, t.prefix, t.bucket, pos); }
  }

  lemma SameLanes(e: Env, s: Tree, t: Tree)
    requires e.Valid() && Current(e, s) && Current(e, t)
    requires s.cache.value.hashes == t.cache.value.hashes
    ensures Collide(e, s, t) || forall pos :: 0 <= pos < LEAF_SIZE ==> LaneInput(e, s, pos) == LaneInput(e, t, pos)
  {
    forall pos | 0 <= pos < LEAF_SIZE && LaneInput(e, s, pos) != LaneInput(e, t, pos) ensures Collide(e, s, t) {
      LaneSigned(e, s, pos);
      LaneSigned(e, t, pos);
    }
  }

  lemma LeavesDecide(e: Env, s: Tree, t: Tree)
    requires e.Valid() && s.Leaf? && t.Leaf?
    requires forall pos :: 0 <= pos < LEAF_SIZE ==> LaneInput(e, s, pos) == LaneInput(e, t, pos)
    ensures s.bucket == t.bucket
  {
    BucketWithin(e, s, t);
    BucketWithin(e, t, s);
  }

  lemma BucketWithin(e: Env, s: Tree, t: Tree)
    requires e.Valid() && s.Leaf? && t.Leaf?
    requires forall pos :: 0 <= pos < LEAF_SIZE ==> LaneInput(e, s, pos) == LaneInput(e, t, pos)
    ensures forall k :: k in s.bucket ==> k in t.bucket && t.bucket[k] == s.bucket[k]
  {
    forall k | k in s.bucket ensures k in t.bucket && t.bucket[k] == s.bucket[k] {
      LaneOfBucket(e, s.bucket, k, s.bucket[k]);
      LaneOfBucket(e, t.bucket, k, s.bucket[k]);
      assert LaneInput(e, s, LeafIndex(e.hash(k))) == LaneInput(e, t, LeafIndex(e.hash(k)));
    }
  }

  lemma NodeLanes(e: Env, s: Tree, t: Tree)
    requires e.Valid() && s.Node? && t.Node?
    requires Hashed(s.left) && Hashed(s.right) && Hashed(t.left) && Hashed(t.right)
    requires forall pos :: 0 <= pos < LEAF_SIZE ==> LaneInput(e, s, pos) == LaneInput(e, t, pos)
    ensures s.left.cache.value.hashes == t.left.cache.value.hashes
    ensures s.right.cache.value.hashes == t.right.cache.value.hashes
  {
    forall pos | 0 <= pos < LEAF_SIZE
      ensures s.left.cache.value.hashes[pos] == t.left.cache.value.hashes[pos]
      ensures s.right.cache.value.hashes[pos] == t.right.cache.value.hashes[pos]
    {
      assert LaneInput(e, s, pos) == LaneInput(e, t, pos);
    }
  }

  lemma CollideAbove(e: Env, s: Tree, t: Tree)
    requires e.Valid() && Current(e, s) && Current(e, t) && s.Node? && t.Node?
    requires Collide(e, s.left, t.left) || Collide(e, s.right, t.right)
    ensures Collide(e, s, t)
  {
    var l := Collide(e, s.left, t.left);
    var sc, tc := if l then s.left else s.right, if l then t.left else t.right;
    var x, y :| Inside(e, sc, x) && Inside(e, tc, y) && x != y && e.sig(x) == e.sig(y);
    assert Inside(e, s, x) && Inside(e, t, y);
  }

  lemma ChildrenDecide(e: Env, s: Tree, t: Tree)
    requires e.Valid() && Current(e, s) && Current(e, t) && s.Node? && t.Node?
    requires Contents(s.left) == Contents(t.left) || Collide(e, s.left, t.left)
    requires Contents(s.right) == Contents(t.right) || Collide(e, s.right, t.right)
    ensures Contents(s) == Contents(t) || Collide(e, s, t)
  {
    if Collide(e, s.left, t.left) || Collide(e, s.right, t.right) { CollideAbove(e, s, t); }
  }

  /** Equal lane hashes mean equal contents, or a collision of the signature. */
  lemma {:induction false} LanesDecide(e: Env, s: Tree, t: Tree)
    requires e.Valid() && Current(e, s) && Current(e, t)
    requires s.cache.value.hashes == t.cache.value.hashes
    ensures Contents(s) == Contents(t) || Collide(e, s, t)
    decreases s
  {
    SameLanes(e, s, t);
    if !Collide(e, s, t) {
      assert LaneInput(e, s, 0) == LaneInput(e, t, 0);
      if s.Leaf? {
        LeavesDecide(e, s, t);
      } else {
        NodeLanes(e, s, t);
        LanesDecide(e, s.left, t.left);
        LanesDecide(e, s.right, t.right);
        ChildrenDecide(e, s, t);
      }
    }
  }

  ghost predicate InjectiveOn(e: Env, s: Tree, t: Tree)
    requires e.Valid() && Current(e, s) && Current(e, t)
  {
    forall x, y :: Signed(e, s, x) && Signed(e, t, y) && e.sig(x) == e.sig(y) ==> x == y
  }

  /** After any two runs the root hashes are equal exactly when the contents are, as long as the
      signature does not collide on the lists the two trees sign. */
  lemma RootHashDecides(e: Env, xs: seq<Op>, ys: seq<Op>)
    requires e.Valid() && ApartThroughout(e, xs) && ApartThroughout(e, ys)
    requires Current(e, Run(e, xs)) && Current(e, Run(e, ys)) && InjectiveOn(e, Run(e, xs), Run(e, ys))
    ensures RootHash(e, Run(e, xs)) == RootHash(e, Run(e, ys)) <==> RunMap(xs) == RunMap(ys)
  {
    InjectiveDecides(e, Run(e, xs), Run(e, ys));
  }

  lemma InjectiveDecides(e: Env, s: Tree, t: Tree)
    requires e.Valid() && Current(e, s) && Current(e, t) && InjectiveOn(e, s, t)
    ensures RootHash(e, s) == RootHash(e, t) ==> Contents(s) == Contents(t)
  {
    if RootHash(e, s) == RootHash(e, t) {
      assert Signed(e, s, Lanes(s.cache.value.hashes)) && Signed(e, t, Lanes(t.cache.value.hashes));
      LanesDecide(e, s, t);
      if Collide(e, s, t) {
        var x, y :| Inside(e, s, x) && Inside(e, t, y) && x != y && e.sig(x) == e.sig(y);
        assert Signed(e, s, x) && Signed(e, t, y);
      }
    }
  }

  // ---- Proofs ---------------------------------------------------------------------------------------

  datatype Proof = AtLeaf(list: Preimage) | GoLeft(below: Proof, other: Binary) | GoRight(other: Binary, below: Proof)

  function Fold(e: Env, p: Proof): Binary
  {
    match p
    case AtLeaf(l) => e.sig(l)
    case GoLeft(b, o) => e.sig(Pair(Fold(e, b), o))
    case GoRight(o, b) => e.sig(Pair(o, Fold(e, b)))
  }

  function End(p: Proof): Preimage
  {
    match p
    case AtLeaf(l) => l
    case GoLeft(b, _) => End(b)
    case GoRight(_, b) => End(b)
  }

  /** merkle_hash: a lane of a cached hash list. */
  function LaneHash(t: Tree, pos: nat): Binary
  {
    if Hashed(t) && pos < LEAF_SIZE then t.cache.value.hashes[pos] else []
  }

  /** The child a hash leads to. */
  function Towards(t: Tree, h: Hash): Tree
    requires t.Node?
  {
    if |t.prefix| < 256 && h[|t.prefix|] then t.right else t.left
  }

  function GetProofs(e: Env, t: Tree, k: Binary): Proof
    requires e.Valid()
  {
    var pos := LeafIndex(e.hash(k));
    match t
    case Leaf(_, p, b) =>
      AtLeaf(LeafList(p, pos, Lane(e, Listing(e, b), pos)))
    case Node(_, p, l, r) =>
      if |p| < 256 && e.hash(k)[|p|] then GoRight(LaneHash(l, pos), GetProofs(e, r, k))
      else GoLeft(GetProofs(e, l, k), LaneHash(r, pos))
  }

  lemma TowardsCurrent(e: Env, t: Tree, h: Hash)
    requires e.Valid() && Current(e, t) && t.Node? && t.prefix <= h
    ensures Current(e, Towards(t, h)) && Towards(t, h).prefix <= h
  {
    PrefixStep(t.prefix, h);
  }

  lemma NodeHashAt(e: Env, t: Tree, pos: nat)
    requires e.Valid() && Current(e, t) && t.Node? && pos < LEAF_SIZE
    ensures LaneHash(t, pos) == e.sig(Pair(LaneHash(t.left, pos), LaneHash(t.right, pos)))
  {
  }

  /** Folding the proof of any key, present or not, gives the root entry of the key's lane. */
  lemma {:induction false} ProofFolds(e: Env, t: Tree, k: Binary)
    requires e.Valid() && Current(e, t) && t.prefix <= e.hash(k)
    ensures Fold(e, GetProofs(e, t, k)) == LaneHash(t, LeafIndex(e.hash(k)))
    decreases t
  {
    if t.Leaf? {
      LeafHashAt(e, t.prefix, t.bucket, LeafIndex(e.hash(k)));
    } else {
      TowardsCurrent(e, t, e.hash(k));
      ProofFolds(e, Towards(t, e.hash(k)), k);
      NodeHashAt(e, t, LeafIndex(e.hash(k)));
      FoldsAbove(e, t, k);
    }
  }

  lemma FoldsAbove(e: Env, t: Tree, k: Binary)
    requires e.Valid() && t.Node?
    requires Fold(e, GetProofs(e, Towards(t, e.hash(k)), k)) == LaneHash(Towards(t, e.hash(k)), LeafIndex(e.hash(k)))
    ensures Fold(e, GetProofs(e, t, k)) ==
      e.sig(Pair(LaneHash(t.left, LeafIndex(e.hash(k))), LaneHash(t.right, LeafIndex(e.hash(k)))))
  {
  }

  /** The proof of a key ends in a list that holds the key exactly when it is a member, with its value. */
  lemma {:induction false} ProofShowsMember(e: Env, t: Tree, k: Binary, v: Binary)
    requires e.Valid() && Current(e, t) && t.prefix <= e.hash(k)
    ensures Shows(e, End(GetProofs(e, t, k)), Contents(t), k, v)
    decreases t
  {
    if t.Leaf? {
      LaneOfBucket(e, t.bucket, k, v);
    } else {
      TowardsCurrent(e, t, e.hash(k));
      ProofShowsMember(e, Towards(t, e.hash(k)), k, v);
      EndBelow(e, t, k);
      MemberTowards(e, t, e.hash(k), k);
    }
  }

  /** After any run, for any key. */
  lemma RunProofs(e: Env, ops: seq<Op>, k: Binary, v: Binary)
    requires e.Valid() && ApartThroughout(e, ops)
    ensures Fold(e, GetProofs(e, Run(e, ops), k)) == LaneHash(Run(e, ops), LeafIndex(e.hash(k)))
    ensures Shows(e, End(GetProofs(e, Run(e, ops), k)), RunMap(ops), k, v)
  {
    var t := Run(e, ops);
    RunIsCurrent(e, ops);
    ProofFolds(e, t, k);
    ProofShowsMember(e, t, k, v);
  }

  ghost predicate Shows(e: Env, list: Preimage, m: map<Binary, Binary>, k: Binary, v: Binary)
  {
    list.LeafList? && list.prefix <= e.hash(k) && (Item(k, v) in list.items <==> k in m && m[k] == v)
  }

  lemma EndBelow(e: Env, t: Tree, k: Binary)
    requires e.Valid() && t.Node?
    ensures End(GetProofs(e, t, k)) == End(GetProofs(e, Towards(t, e.hash(k)), k))
  {
  }

  lemma MemberTowards(e: Env, t: Tree, h: Hash, k: Binary)
    requires e.Valid() && Current(e, t) && t.Node? && t.prefix <= h && h == e.hash(k)
    ensures k in Contents(t) <==> k in Contents(Towards(t, h))
    ensures k in Contents(t) ==> Contents(t)[k] == Contents(Towards(t, h))[k]
  {
    SideHolds(e, t.prefix, Contents(t.left), Contents(t.right), k);
  }

  /** A key below a node is on the side its hash names. */
  lemma SideHolds(e: Env, prefix: Bits, l: map<Binary, Binary>, r: map<Binary, Binary>, k: Binary)
    requires |prefix| < 256 && Belongs(e, prefix + [false], l) && Belongs(e, prefix + [true], r) && prefix <= e.hash(k)
    ensures k in l + r ==> (k in l <==> Decide(e.hash(k), prefix)) && (k in r <==> !Decide(e.hash(k), prefix))
  {
    SidesOfNode(e, prefix, l, r);
    assert Side(e, prefix, l + r, false).Keys == l.Keys && Side(e, prefix, l + r, true).Keys == r.Keys;
  }

  /** The list holds exactly the entries of m with this lane under its prefix. */
  ghost predicate Genuine(e: Env, m: map<Binary, Binary>, pos: nat, list: Preimage)
  {
    list.LeafList? && list.pos == pos &&
    forall k, v :: Item(k, v) in list.items <==>
      (list.prefix <= e.hash(k) && LeafIndex(e.hash(k)) == pos && k in m && m[k] == v)
  }

  ghost predicate InProof(e: Env, p: Proof, x: Preimage)
  {
    match p
    case AtLeaf(l) => x == l
    case GoLeft(b, o) => x == Pair(Fold(e, b), o) || InProof(e, b, x)
    case GoRight(o, b) => x == Pair(o, Fold(e, b)) || InProof(e, b, x)
  }

  ghost predicate Forged(e: Env, p: Proof, t: Tree)
    requires e.Valid() && Current(e, t)
  {
    exists x, y :: InProof(e, p, x) && Inside(e, t, y) && x != y && e.sig(x) == e.sig(y)
  }

  lemma LeafGenuine(e: Env, prefix: Bits, m: map<Binary, Binary>, pos: nat)
    requires e.Valid() && Belongs(e, prefix, m)
    ensures Genuine(e, m, pos, LeafList(prefix, pos, Lane(e, Listing(e, m), pos)))
  {
    forall k, v ensures Item(k, v) in Lane(e, Listing(e, m), pos) <==>
      (prefix <= e.hash(k) && LeafIndex(e.hash(k)) == pos && k in m && m[k] == v)
    {
      LaneHolds(e, Listing(e, m), pos, Item(k, v));
      ItemsAre(m, e.order(m.Keys), Item(k, v));
    }
  }

  lemma GenuineAbove(e: Env, prefix: Bits, m: map<Binary, Binary>, right: bool, pos: nat, list: Preimage)
    requires |prefix| < 256 && Genuine(e, Side(e, prefix, m, right), pos, list)
    requires prefix + [right] <= list.prefix
    ensures Genuine(e, m, pos, list) && prefix <= list.prefix
  {
    forall k | list.prefix <= e.hash(k) ensures e.hash(k)[|prefix|] == right {
      assert e.hash(k)[|prefix|] == list.prefix[|prefix|] == (prefix + [right])[|prefix|];
    }
    assert prefix == list.prefix[..|prefix|] by { assert list.prefix[..|prefix| + 1] == prefix + [right]; }
  }

  /** No proof that folds to a root entry and ends in a leaf list can show an entry that is not in the
      tree or hide one that is, unless it holds a collision of the signature. */
  lemma {:induction false} ProofSound(e: Env, prefix: Bits, m: map<Binary, Binary>, p: Proof, pos: nat)
    requires e.Valid() && Belongs(e, prefix, m) && Apart(e, m.Keys) && pos < LEAF_SIZE
    requires Current(e, Build(e, prefix, m)) && Fold(e, p) == Build(e, prefix, m).cache.value.hashes[pos]
    requires End(p).LeafList?
    ensures Forged(e, p, Build(e, prefix, m)) || (Genuine(e, m, pos, End(p)) && prefix <= End(p).prefix)
    decreases p
  {
    var t := Build(e, prefix, m);
    LaneSigned(e, t, pos);
    var x := match p case AtLeaf(l) => l case GoLeft(b, o) => Pair(Fold(e, b), o) case GoRight(o, b) => Pair(o, Fold(e, b));
    assert InProof(e, p, x);
    if x == LaneInput(e, t, pos) {
      if t.Leaf? {
        LeafGenuine(e, prefix, m, pos);
      } else {
        BuildNode(e, prefix, m);
        SoundBelow(e, prefix, m, p, pos);
      }
    }
  }

  lemma {:induction false} SoundBelow(e: Env, prefix: Bits, m: map<Binary, Binary>, p: Proof, pos: nat)
    requires e.Valid() && Belongs(e, prefix, m) && Apart(e, m.Keys) && pos < LEAF_SIZE && |m| > LEAF_SIZE
    requires Current(e, Build(e, prefix, m))
    requires match p
      case AtLeaf(l) => false
      case GoLeft(b, o) => Fold(e, b) == Build(e, prefix, m).left.cache.value.hashes[pos]
      case GoRight(o, b) => Fold(e, b) == Build(e, prefix, m).right.cache.value.hashes[pos]
    requires End(p).LeafList?
    ensures Forged(e, p, Build(e, prefix, m)) || (Genuine(e, m, pos, End(p)) && prefix <= End(p).prefix)
    decreases p, 0
  {
    var t, right := Build(e, prefix, m), p.GoRight?;
    BuildNode(e, prefix, m);
    var c := Build(e, prefix + [right], Side(e, prefix, m, right));
    assert c == if right then t.right else t.left;
    ProofSound(e, prefix + [right], Side(e, prefix, m, right), p.below, pos);
    if Forged(e, p.below, c) {
      ForgedAbove(e, t, p);
    } else {
      GenuineAbove(e, prefix, m, right, pos, End(p));
    }
  }

  lemma ForgedAbove(e: Env, t: Tree, p: Proof)
    requires e.Valid() && Current(e, t) && t.Node? && !p.AtLeaf?
    requires Forged(e, p.below, if p.GoRight? then t.right else t.left)
    ensures Forged(e, p, t)
  {
    var c := if p.GoRight? then t.right else t.left;
    var x, y :| InProof(e, p.below, x) && Inside(e, c, y) && x != y && e.sig(x) == e.sig(y);
    assert InProof(e, p, x) && Inside(e, t, y);
  }
}
