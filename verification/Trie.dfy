/** The Merkle Patricia trie of GenericTrieDB: lookup, insertion by cleaving and branching, and
    removal by grafting and merging.  A node reference is the node itself. */
module Trie {

  import opened Collections

  type Nibble = x: int | 0 <= x < 16
  type Key = seq<Nibble>
  type Value = string

  /** Leaf and Ext are the two-item nodes with and without the terminator flag; the empty item is
      Empty; a branch has sixteen children and a value, "" when it has none. */
  datatype Node =
    | Empty
    | Leaf(key: Key, value: Value)
    | Ext(key: Key, child: Node)
    | Branch(children: seq<Node>, value: Value)

  /** What the RLP layout guarantees: seventeen-item branches, and extensions that consume a nibble. */
  predicate WellFormed(n: Node)
  {
    match n
    case Empty => true
    case Leaf(_, _) => true
    case Ext(k, c) => k != [] && WellFormed(c)
    case Branch(cs, _) => |cs| == 16 && forall i :: 0 <= i < 16 ==> WellFormed(cs[i])
  }

  // ---- Lookup -------------------------------------------------------------------------------

  function At(n: Node, k: Key): Value
    requires WellFormed(n)
  {
    match n
    case Empty => ""
    case Leaf(lk, v) => if k == lk then v else ""
    case Ext(ek, c) => if ek <= k then At(c, k[|ek|..]) else ""
    case Branch(cs, v) => if |k| == 0 then v else At(cs[k[0]], k[1..])
  }

  /** Number of nibbles shared at the front. */
  function Shared(a: Key, b: Key): (n: nat)
    ensures n <= |a| && n <= |b| && a[..n] == b[..n]
    ensures n < |a| && n < |b| ==> a[n] != b[n]
  {
    if a == [] || b == [] || a[0] != b[0] then 0
    else
      var n := Shared(a[1..], b[1..]);
      assert a[..n + 1] == [a[0]] + a[1..][..n] && b[..n + 1] == [b[0]] + b[1..][..n];
      n + 1
  }

  method SharedNibbles(a: Key, b: Key) returns (n: nat)
    ensures n == Shared(a, b)
  {
    n := 0;
    assert a[0..] == a && b[0..] == b;
    while n < |a| && n < |b| && a[n] == b[n]
      invariant n <= |a| && n <= |b|
      invariant Shared(a, b) == n + Shared(a[n..], b[n..])
    {
      assert a[n..][1..] == a[n + 1..] && b[n..][1..] == b[n + 1..];
      n := n + 1;
    }
  }

  // ---- Insertion ----------------------------------------------------------------------------

  const NO_CHILDREN: seq<Node> :=
    [Empty, Empty, Empty, Empty, Empty, Empty, Empty, Empty, Empty, Empty, Empty, Empty, Empty, Empty, Empty, Empty]

  /** Splits a two-item node after s nibbles. */
  function Cleve(n: Node, s: nat): Node
    requires (n.Leaf? || n.Ext?) && s <= |n.key|
  {
    var bottom := if n.Leaf? then Leaf(n.key[s..], n.value) else Ext(n.key[s..], n.child);
    Ext(n.key[..s], bottom)
  }

  /** Turns a two-item node into a branch. */
  function BranchOf(n: Node): Node
    requires n.Leaf? || (n.Ext? && n.key != [])
  {
    if n.key == [] then Branch(NO_CHILDREN, n.value)
    else
      var rest := n.key[1..];
      var below := if n.Leaf? then Leaf(rest, n.value) else if rest != [] then Ext(rest, n.child) else n.child;
      Branch(NO_CHILDREN[n.key[0] := below], "")
  }

  /** The two-item node opened at the nibble where it and the key part. */
  function Opened(n: Node, k: Key): Node
    requires n.Leaf? || (n.Ext? && n.key != [])
  {
    var sh := Shared(k, n.key);
    if sh > 0 then Cleve(n, sh) else BranchOf(n)
  }

  function Rank(n: Node, k: Key): nat
  {
    if n.Leaf? || (n.Ext? && !(n.key <= k)) then 1 else 0
  }

  lemma OpenedRank(n: Node, k: Key)
    requires n.Leaf? || (n.Ext? && n.key != [] && !(n.key <= k))
    requires WellFormed(n)
    ensures WellFormed(Opened(n, k)) && Rank(Opened(n, k), k) == 0
    ensures n.Ext? ==> Shared(k, n.key) < |n.key|
  {
    var sh := Shared(k, n.key);
    assert k[..sh] <= k;
  }

  function MergeAt(n: Node, k: Key, v: Value): (r: Node)
    requires WellFormed(n)
    ensures WellFormed(r)
    decreases |k|, Rank(n, k)
  {
    match n
    case Empty =>
      Leaf(k, v)
    case Leaf(lk, _) =>
      if lk == k then Leaf(lk, v)
      else
        OpenedRank(n, k);
        MergeAt(Opened(n, k), k, v)
    case Ext(ek, c) =>
      if ek <= k then Ext(ek, MergeAt(c, k[|ek|..], v))
      else
        OpenedRank(n, k);
        MergeAt(Opened(n, k), k, v)
    case Branch(cs, bv) =>
      if |k| == 0 then Branch(cs, v)
      else Branch(cs[k[0] := MergeAt(cs[k[0]], k[1..], v)], bv)
  }

  lemma {:induction false} CleveKeepsLookup(n: Node, s: nat, k: Key)
    requires WellFormed(n) && (n.Leaf? || (n.Ext? && s < |n.key|)) && 0 < s <= |n.key|
    ensures WellFormed(Cleve(n, s)) && At(Cleve(n, s), k) == At(n, k)
  {
    var top := n.key[..s];
    assert n.key == top + n.key[s..];
    if top <= k {
      assert k == top + k[s..];
      if n.Leaf? {
        assert k == n.key <==> k[s..] == n.key[s..];
      } else {
        assert n.key <= k <==> n.key[s..] <= k[s..];
        if n.key <= k { assert k[|n.key|..] == k[s..][|n.key| - s..]; }
      }
    } else {
      assert !(n.key <= k);
    }
  }

  lemma {:induction false} BranchKeepsLookup(n: Node, k: Key)
    requires WellFormed(n) && (n.Leaf? || n.Ext?)
    ensures WellFormed(BranchOf(n)) && At(BranchOf(n), k) == At(n, k)
  {
    if n.key != [] && k != [] {
      assert n.key == [n.key[0]] + n.key[1..] && k == [k[0]] + k[1..];
      if n.Ext? && k[0] == n.key[0] {
        assert n.key <= k <==> n.key[1..] <= k[1..];
        if n.key <= k { assert k[|n.key|..] == k[1..][|n.key| - 1..]; }
        if |n.key| == 1 { assert k[1..] == k[|n.key|..]; }
      }
    }
  }

  /** Insertion refines map update, for every key and value, also when keys are prefixes of others. */
  lemma {:induction false} AtAfterMerge(n: Node, k: Key, v: Value, q: Key)
    requires WellFormed(n)
    ensures At(MergeAt(n, k, v), q) == if q == k then v else At(n, q)
    decreases |k|, Rank(n, k)
  {
    if n.Branch? {
      if |k| != 0 && |q| != 0 && q[0] == k[0] {
        AtAfterMerge(n.children[k[0]], k[1..], v, q[1..]);
        assert q == k <==> q[1..] == k[1..] by { assert q == [q[0]] + q[1..] && k == [k[0]] + k[1..]; }
      }
    } else if n.Ext? && n.key <= k {
      if n.key <= q {
        AtAfterMerge(n.child, k[|n.key|..], v, q[|n.key|..]);
        assert q == n.key + q[|n.key|..] && k == n.key + k[|n.key|..];
      }
    } else if (n.Leaf? && n.key != k) || n.Ext? {
      OpenedRank(n, k);
      OpenedKeepsLookup(n, k, q);
      AtAfterMerge(Opened(n, k), k, v, q);
    }
  }

  lemma OpenedKeepsLookup(n: Node, k: Key, q: Key)
    requires WellFormed(n) && (n.Leaf? || (n.Ext? && !(n.key <= k)))
    ensures WellFormed(Opened(n, k)) && At(Opened(n, k), q) == At(n, q)
  {
    OpenedRank(n, k);
    if Shared(k, n.key) > 0 {
      CleveKeepsLookup(n, Shared(k, n.key), q);
    } else {
      BranchKeepsLookup(n, q);
    }
  }

  // ---- Canonical form -----------------------------------------------------------------------

  predicate Used(n: Node, i: int)
    requires n.Branch? && |n.children| == 16 && 0 <= i <= 16
  {
    if i == 16 then n.value != "" else !n.children[i].Empty?
  }

  ghost predicate TwoUsed(n: Node)
    requires n.Branch? && |n.children| == 16
  {
    exists i, j :: 0 <= i < j <= 16 && Used(n, i) && Used(n, j)
  }

  /** Leaves carry a value, extensions lead to a branch, and a branch has two occupied slots. */
  ghost predicate CanonicalNode(n: Node)
    ensures CanonicalNode(n) ==> WellFormed(n)
  {
    match n
    case Empty => false
    case Leaf(_, v) => v != ""
    case Ext(k, c) => k != [] && c.Branch? && CanonicalNode(c)
    case Branch(cs, _) => |cs| == 16 && TwoUsed(n) && forall i :: 0 <= i < 16 ==> cs[i].Empty? || CanonicalNode(cs[i])
  }

  ghost predicate Canonical(n: Node)
    ensures Canonical(n) ==> WellFormed(n)
  {
    n.Empty? || CanonicalNode(n)
  }

  lemma CanonicalBranch(cs: seq<Node>, v: Value, i: int, j: int)
    requires |cs| == 16 && 0 <= i <= 16 && 0 <= j <= 16 && i != j
    requires Used(Branch(cs, v), i) && Used(Branch(cs, v), j)
    requires forall x :: 0 <= x < 16 ==> Canonical(cs[x])
    ensures CanonicalNode(Branch(cs, v))
  {
    var a, b := if i < j then i else j, if i < j then j else i;
    assert Used(Branch(cs, v), a) && Used(Branch(cs, v), b);
  }

  /** Slots other than the one written keep their state. */
  lemma SetChild(n: Node, i: Nibble, c: Node)
    requires CanonicalNode(n) && n.Branch? && CanonicalNode(c)
    ensures CanonicalNode(Branch(n.children[i := c], n.value))
  {
    var r := Branch(n.children[i := c], n.value);
    var a, b :| 0 <= a < b <= 16 && Used(n, a) && Used(n, b);
    assert Used(r, a) && Used(r, b);
  }

  lemma SetValue(n: Node, v: Value)
    requires CanonicalNode(n) && n.Branch? && v != ""
    ensures CanonicalNode(Branch(n.children, v))
  {
    var r := Branch(n.children, v);
    var a, b :| 0 <= a < b <= 16 && Used(n, a) && Used(n, b);
    assert Used(r, a) && Used(r, b);
  }

  /** A branch made from a two-item node and a key that parts from it at once. */
  lemma FreshBranch(n: Node, k: Key, v: Value)
    requires CanonicalNode(n) && v != "" && (n.Leaf? || n.Ext?) && Shared(k, n.key) == 0
    requires n.Leaf? ==> n.key != k
    ensures CanonicalNode(MergeAt(BranchOf(n), k, v)) && MergeAt(BranchOf(n), k, v).Branch?
  {
    var b := BranchOf(n);
    BelowCanonical(n);
    if k == [] {
      CanonicalBranch(b.children, v, 16, n.key[0]);
    } else {
      var cs := b.children[k[0] := Leaf(k[1..], v)];
      assert n.key == [] || k[0] != n.key[0];
      assert b.children[k[0]].Empty?;
      CanonicalBranch(cs, b.value, k[0], if n.key == [] then 16 else n.key[0]);
    }
  }

  lemma BelowCanonical(n: Node)
    requires CanonicalNode(n) && (n.Leaf? || n.Ext?)
    ensures BranchOf(n).Branch? && |BranchOf(n).children| == 16
    ensures forall x :: 0 <= x < 16 ==> Canonical(BranchOf(n).children[x])
    ensures forall x :: 0 <= x < 16 && (n.key == [] || x != n.key[0]) ==> BranchOf(n).children[x].Empty?
    ensures Used(BranchOf(n), if n.key == [] then 16 else n.key[0])
  {
  }

  lemma {:induction false} MergeKeepsCanonical(n: Node, k: Key, v: Value)
    requires Canonical(n) && v != ""
    ensures CanonicalNode(MergeAt(n, k, v))
    ensures n.Branch? ==> MergeAt(n, k, v).Branch?
    decreases |k|, Rank(n, k)
  {
    match n
    case Empty =>
    case Leaf(lk, _) =>
      if lk != k { OpenedCanonical(n, k, v); }
    case Ext(ek, c) =>
      if ek <= k {
        MergeKeepsCanonical(c, k[|ek|..], v);
      } else {
        OpenedCanonical(n, k, v);
      }
    case Branch(cs, bv) =>
      if |k| == 0 {
        SetValue(n, v);
      } else {
        MergeKeepsCanonical(cs[k[0]], k[1..], v);
        SetChild(n, k[0], MergeAt(cs[k[0]], k[1..], v));
      }
  }

  /** Cleaving leaves an extension over a two-item node, which the insertion turns into a branch. */
  lemma OpenedCanonical(n: Node, k: Key, v: Value)
    requires CanonicalNode(n) && v != ""
    requires (n.Leaf? && n.key != k) || (n.Ext? && !(n.key <= k))
    ensures CanonicalNode(MergeAt(Opened(n, k), k, v))
  {
    OpenedRank(n, k);
    if Shared(k, n.key) == 0 {
      FreshBranch(n, k, v);
    } else {
      CleavedBottom(n, k);
      var top, rest := Opened(n, k), k[Shared(k, n.key)..];
      FreshBranch(top.child, rest, v);
      assert MergeAt(top, k, v) == Ext(top.key, MergeAt(top.child, k[|top.key|..], v));
      assert Opened(top.child, rest) == BranchOf(top.child);
    }
  }

  /** After cleaving, key and lower node share nothing. */
  lemma CleavedBottom(n: Node, k: Key)
    requires CanonicalNode(n) && ((n.Leaf? && n.key != k) || (n.Ext? && !(n.key <= k)))
    requires Shared(k, n.key) > 0
    ensures var top, sh := Opened(n, k), Shared(k, n.key);
      top.Ext? && top.key != [] && top.key == k[..sh] && top.key <= k && |top.key| == sh
      && CanonicalNode(top.child) && (top.child.Leaf? || top.child.Ext?) && Shared(k[sh..], top.child.key) == 0
      && (top.child.Leaf? ==> top.child.key != k[sh..]) && (top.child.Ext? ==> !(top.child.key <= k[sh..]))
  {
    var sh := Shared(k, n.key);
    OpenedRank(n, k);
    assert k[..sh] <= k;
    assert k == k[..sh] + k[sh..] && n.key == n.key[..sh] + n.key[sh..];
  }

  // ---- Removal ------------------------------------------------------------------------------

  /** NotFound leaves the trie as it is.  Fault stands for a read outside the key and for following a
      value as if it were a node, which the code does on some tries with keys of different lengths. */
  datatype Removal = NotFound | Fault | Removed(node: Node)

  function IsTwoItem(n: Node): bool { n.Leaf? || n.Ext? }

  /** graft after merge or after a removal below an extension: one two-item node out of two. */
  function Graft(prefix: Key, n: Node): Node
  {
    match n
    case Leaf(k, v) => Leaf(prefix + k, v)
    case Ext(k, c) => Ext(prefix + k, c)
    case _ => Ext(prefix, n)
  }

  /** Number of occupied child slots, and the first of them. */
  function CountUsed(cs: seq<Node>): nat
  {
    if cs == [] then 0 else (if cs[0].Empty? then 0 else 1) + CountUsed(cs[1..])
  }

  function FirstUsed(cs: seq<Node>): (i: nat)
    requires CountUsed(cs) > 0
    ensures i < |cs| && !cs[i].Empty?
    ensures forall j :: 0 <= j < i ==> cs[j].Empty?
  {
    if !cs[0].Empty? then 0 else FirstUsed(cs[1..]) + 1
  }

  /** A branch after a removal: kept, or merged when a single slot is left in use.  The merge looks a
      value up that is left alone, as if it were a node: named(v) holds when v is longer than a hash,
      which the lookup refuses, or when, padded to a hash, it is that of a stored two-item node. */
  function Rejoin(named: Value -> bool, cs: seq<Node>, v: Value): Removal
    requires |cs| == 16
  {
    if CountUsed(cs) == 0 && v != "" then
      if named(v) then Fault else Removed(Leaf([], v))
    else if CountUsed(cs) == 1 && v == "" then
      var i := FirstUsed(cs);
      Removed(Graft([i], cs[i]))
    else Removed(Branch(cs, v))
  }

  function DeleteAt(named: Value -> bool, n: Node, k: Key): Removal
    requires WellFormed(n)
  {
    match n
    case Empty => NotFound
    case Leaf(lk, v) =>
      if lk == k then Removed(Empty)
      else if lk <= k && v != "" then Fault
      else NotFound
    case Ext(ek, c) =>
      if ek <= k then
        match DeleteAt(named, c, k[|ek|..])
        case NotFound => NotFound
        case Fault => Fault
        case Removed(c') => Removed(Graft(ek, c'))
      else NotFound
    case Branch(cs, v) =>
      if |k| == 0 then
        if v == "" then Fault else Rejoin(named, cs, "")
      else
        match DeleteAt(named, cs[k[0]], k[1..])
        case NotFound => NotFound
        case Fault => Fault
        case Removed(c') => Rejoin(named, cs[k[0] := c'], v)
  }

  lemma {:induction false} CountedSlots(cs: seq<Node>)
    ensures CountUsed(cs) == 0 <==> forall i :: 0 <= i < |cs| ==> cs[i].Empty?
    ensures CountUsed(cs) == 1 ==> forall i :: 0 <= i < |cs| && i != FirstUsed(cs) ==> cs[i].Empty?
    ensures CountUsed(cs) >= 2 ==> exists j :: 0 <= j < |cs| && j != FirstUsed(cs) && !cs[j].Empty?
  {
    if cs != [] {
      var rest := cs[1..];
      CountedSlots(rest);
      forall i | 0 < i < |cs| ensures cs[i] == rest[i - 1] { }
      if CountUsed(cs) >= 2 {
        if cs[0].Empty? {
          var j :| 0 <= j < |rest| && j != FirstUsed(rest) && !rest[j].Empty?;
          assert !cs[j + 1].Empty?;
        } else {
          assert !cs[FirstUsed(rest) + 1].Empty?;
        }
      }
    }
  }

  /** Looking below a prefix. */
  function Below(p: Key, n: Node, q: Key): Value
    requires WellFormed(n)
  {
    if p <= q then At(n, q[|p|..]) else ""
  }

  lemma {:induction false} GraftLookup(p: Key, n: Node, q: Key)
    requires CanonicalNode(n) && p != []
    ensures CanonicalNode(Graft(p, n)) && At(Graft(p, n), q) == Below(p, n, q)
  {
    if IsTwoItem(n) {
      assert (p + n.key)[..|p|] == p && (p + n.key)[|p|..] == n.key;
      if p <= q {
        assert q == p + q[|p|..];
        assert p + n.key <= q <==> n.key <= q[|p|..];
        assert q == p + n.key <==> q[|p|..] == n.key;
        if n.Ext? && n.key <= q[|p|..] { assert q[|p + n.key|..] == q[|p|..][|n.key|..]; }
      } else {
        assert !(p + n.key <= q);
      }
    }
  }

  /** A rejoined branch looks up as the branch did and is canonical, also when only a value is left
      that is not taken for a node. */
  lemma {:induction false} RejoinLookup(named: Value -> bool, cs: seq<Node>, v: Value, q: Key)
    requires |cs| == 16 && WellFormed(Branch(cs, v)) && forall x :: 0 <= x < 16 ==> Canonical(cs[x])
    requires CountUsed(cs) > 0 || (v != "" && !named(v))
    ensures Rejoin(named, cs, v).Removed? && CanonicalNode(Rejoin(named, cs, v).node)
    ensures At(Rejoin(named, cs, v).node, q) == At(Branch(cs, v), q)
  {
    CountedSlots(cs);
    if CountUsed(cs) > 0 {
      var i := FirstUsed(cs);
      if CountUsed(cs) == 1 && v == "" {
        GraftLookup([i], cs[i], q);
        if q != [] { assert [i] <= q <==> q[0] == i; }
      } else if CountUsed(cs) == 1 {
        CanonicalBranch(cs, v, i, 16);
      } else {
        var j :| 0 <= j < |cs| && j != i && !cs[j].Empty?;
        CanonicalBranch(cs, v, i, j);
      }
    }
  }

  /** What a removal of k means for the lookup of q. */
  ghost predicate AfterDelete(named: Value -> bool, n: Node, k: Key, q: Key)
    requires WellFormed(n)
  {
    match DeleteAt(named, n, k)
    case NotFound => At(n, k) == ""
    case Fault => true
    case Removed(n') =>
      At(n, k) != "" && Canonical(n') && (n.Branch? ==> !n'.Empty?) &&
      At(n', q) == if q == k then "" else At(n, q)
  }

  /** Removal refines map removal and keeps the canonical form. */
  lemma {:induction false} AtAfterDelete(named: Value -> bool, n: Node, k: Key, q: Key)
    requires Canonical(n)
    ensures AfterDelete(named, n, k, q)
  {
    match n
    case Empty =>
    case Leaf(lk, v) =>
    case Ext(ek, c) =>
      if ek <= k {
        AtAfterDelete(named, c, k[|ek|..], if ek <= q then q[|ek|..] else []);
        ExtAfterDelete(named, ek, c, k, q);
      }
    case Branch(cs, v) =>
      if |k| == 0 {
        if v != "" {
          OtherChildUsed(n, 16);
          RejoinLookup(named, cs, "", q);
        }
      } else {
        AtAfterDelete(named, cs[k[0]], k[1..], if q != [] then q[1..] else []);
        BranchAfterDelete(named, n, k, q);
      }
  }

  lemma {:induction false} ExtAfterDelete(named: Value -> bool, ek: Key, c: Node, k: Key, q: Key)
    requires Canonical(Ext(ek, c)) && ek <= k
    requires AfterDelete(named, c, k[|ek|..], if ek <= q then q[|ek|..] else [])
    ensures AfterDelete(named, Ext(ek, c), k, q)
  {
    if DeleteAt(named, c, k[|ek|..]).Removed? {
      GraftLookup(ek, DeleteAt(named, c, k[|ek|..]).node, q);
      if ek <= q { assert q == ek + q[|ek|..] && k == ek + k[|ek|..]; }
    }
  }

  lemma {:induction false} BranchAfterDelete(named: Value -> bool, n: Node, k: Key, q: Key)
    requires CanonicalNode(n) && n.Branch? && k != []
    requires AfterDelete(named, n.children[k[0]], k[1..], if q != [] then q[1..] else [])
    ensures AfterDelete(named, n, k, q)
  {
    var d := DeleteAt(named, n.children[k[0]], k[1..]);
    if d.Removed? {
      var cs' := n.children[k[0] := d.node];
      LookupReplaced(n, k, q, d.node);
      OtherChildUsed(n, k[0]);
      CountedSlots(cs');
      assert forall j :: 0 <= j < 16 && j != k[0] ==> cs'[j] == n.children[j];
      if CountUsed(cs') > 0 || (n.value != "" && !named(n.value)) {
        RejoinLookup(named, cs', n.value, q);
      } else {
        var j :| 0 <= j <= 16 && j != k[0] && Used(n, j);
      }
    }
  }

  lemma {:induction false} LookupReplaced(n: Node, k: Key, q: Key, c: Node)
    requires WellFormed(n) && WellFormed(c) && n.Branch? && k != []
    requires q != [] && q[0] == k[0] ==> At(c, q[1..]) == if q[1..] == k[1..] then "" else At(n.children[k[0]], q[1..])
    ensures At(Branch(n.children[k[0] := c], n.value), q) == if q == k then "" else At(n, q)
  {
    if q != [] && q[0] == k[0] { assert q == [q[0]] + q[1..] && k == [k[0]] + k[1..]; }
  }

  /** Besides any one slot of a canonical branch another one is in use. */
  lemma {:induction false} OtherChildUsed(n: Node, i: int)
    requires CanonicalNode(n) && n.Branch? && 0 <= i <= 16
    ensures exists j :: 0 <= j <= 16 && j != i && Used(n, j)
    ensures i == 16 ==> CountUsed(n.children) > 0
  {
    var a, b :| 0 <= a < b <= 16 && Used(n, a) && Used(n, b);
    assert Used(n, if a == i then b else a);
    CountedSlots(n.children);
  }

  // ---- The trie is a function of its contents ------------------------------------------------

  ghost predicate Has(n: Node, k: Key)
    requires WellFormed(n)
  {
    At(n, k) != ""
  }

  lemma {:induction false} Inhabited(n: Node) returns (k: Key)
    requires CanonicalNode(n)
    ensures Has(n, k)
  {
    match n
    case Leaf(lk, _) => k := lk;
    case Ext(ek, c) =>
      var rest := Inhabited(c);
      k := ek + rest;
      assert k[|ek|..] == rest;
    case Branch(cs, v) =>
      var i :| 0 <= i <= 16 && Used(n, i);
      k := SlotKey(n, i);
  }

  lemma {:induction false} SlotKey(n: Node, i: int) returns (k: Key)
    requires CanonicalNode(n) && n.Branch? && 0 <= i <= 16 && Used(n, i)
    ensures Has(n, k) && (if i == 16 then k == [] else k != [] && k[0] == i)
    decreases n, 0
  {
    if i == 16 {
      k := [];
    } else {
      var rest := Inhabited(n.children[i]);
      k := [i] + rest;
      assert k[1..] == rest;
    }
  }

  /** Two keys that part at once. */
  ghost predicate Part(a: Key, b: Key)
  {
    (a == [] && b != []) || (a != [] && b == []) || (a != [] && b != [] && a[0] != b[0])
  }

  lemma TwoKeys(n: Node) returns (a: Key, b: Key)
    requires CanonicalNode(n) && n.Branch?
    ensures Has(n, a) && Has(n, b) && Part(a, b)
  {
    var i, j :| 0 <= i < j <= 16 && Used(n, i) && Used(n, j);
    a := SlotKey(n, i);
    b := SlotKey(n, j);
  }

  ghost predicate SameContents(m: Node, n: Node)
    requires WellFormed(m) && WellFormed(n)
  {
    forall k :: At(m, k) == At(n, k)
  }

  /** Two different keys, for every node but a leaf. */
  lemma TwoDistinct(n: Node) returns (a: Key, b: Key)
    requires CanonicalNode(n) && !n.Leaf?
    ensures Has(n, a) && Has(n, b) && a != b
    ensures n.Ext? ==> n.key <= a && n.key <= b && Part(a[|n.key|..], b[|n.key|..])
    ensures n.Branch? ==> Part(a, b)
  {
    if n.Branch? {
      a, b := TwoKeys(n);
    } else {
      var x, y := TwoKeys(n.child);
      a, b := n.key + x, n.key + y;
      assert a[|n.key|..] == x && b[|n.key|..] == y;
    }
  }

  /** An extension's key is the longest common prefix of its keys, so it cannot stretch further. */
  lemma ExtKeyWithin(m: Node, n: Node)
    requires CanonicalNode(m) && CanonicalNode(n) && m.Ext? && SameContents(m, n)
    ensures !n.Leaf? && !n.Branch?
    ensures n.Ext? ==> n.key <= m.key
  {
    var a, b := TwoDistinct(m);
    assert Has(n, a) && Has(n, b);
    if n.Branch? {
      forall x | Has(n, x) ensures x != [] && x[0] == m.key[0] { assert Has(m, x); }
      var x, y := TwoDistinct(n);
    } else if n.Ext? && |n.key| <= |m.key| {
      assert n.key == a[..|n.key|] == m.key[..|n.key|];
    }
  }

  /** Canonical tries with the same contents are the same trie. */
  lemma {:induction false} CanonicalUnique(m: Node, n: Node)
    requires Canonical(m) && Canonical(n) && SameContents(m, n)
    ensures m == n
    decreases m
  {
    if m.Empty? || n.Empty? {
      if !m.Empty? { var k := Inhabited(m); }
      if !n.Empty? { var k := Inhabited(n); }
    } else if m.Leaf? || n.Leaf? {
      LeafUnique(m, n);
    } else if m.Ext? || n.Ext? {
      if m.Ext? { ExtKeyWithin(m, n); }
      if n.Ext? { ExtKeyWithin(n, m); }
      assert m.key == n.key;
      forall k ensures At(m.child, k) == At(n.child, k) {
        assert (m.key + k)[|m.key|..] == k;
        assert At(m, m.key + k) == At(n, m.key + k);
      }
      CanonicalUnique(m.child, n.child);
    } else {
      assert At(m, []) == At(n, []);
      forall i | 0 <= i < 16 ensures m.children[i] == n.children[i] {
        forall k: Key ensures At(m.children[i], k) == At(n.children[i], k) {
          assert ([i as Nibble] + k)[1..] == k;
          assert At(m, [i as Nibble] + k) == At(n, [i as Nibble] + k);
        }
        CanonicalUnique(m.children[i], n.children[i]);
      }
    }
  }

  lemma LeafUnique(m: Node, n: Node)
    requires CanonicalNode(m) && CanonicalNode(n) && SameContents(m, n) && (m.Leaf? || n.Leaf?)
    ensures m == n
  {
    if m.Leaf? && n.Leaf? {
      assert At(m, m.key) == At(n, m.key);
    } else if m.Leaf? {
      var a, b := TwoDistinct(n);
    } else {
      var a, b := TwoDistinct(m);
    }
  }

  // ---- When removal works --------------------------------------------------------------------

  /** p is a key on the way to k and no other key than k continues it; if k is there, the value of p is
      left alone by the removal and taken for a node. */
  ghost predicate DeadEnd(named: Value -> bool, n: Node, k: Key, p: Key)
    requires WellFormed(n)
  {
    Has(n, p) && p < k && (forall q :: Has(n, q) && p < q ==> q == k) && (Has(n, k) ==> named(At(n, p)))
  }

  /** k is no key, yet two keys continue it with different nibbles. */
  ghost predicate Fork(n: Node, k: Key, a: Key, b: Key)
    requires WellFormed(n)
  {
    !Has(n, k) && Has(n, a) && Has(n, b) && k < a && k < b && a[|k|] != b[|k|]
  }

  ghost predicate Blocked(named: Value -> bool, n: Node, k: Key)
    requires WellFormed(n)
  {
    (exists p :: DeadEnd(named, n, k, p)) || (exists a, b :: Fork(n, k, a, b))
  }

  /** c looks up as n does below pre. */
  ghost predicate Hangs(n: Node, pre: Key, c: Node)
    requires WellFormed(n) && WellFormed(c)
  {
    forall q {:trigger At(n, pre + q)} {:trigger At(c, q)} :: At(n, pre + q) == At(c, q)
  }

  lemma PrefixCancels(pre: Key, a: Key, b: Key)
    ensures pre + a < pre + b <==> a < b
    ensures pre + a == pre + b <==> a == b
    ensures a < b ==> (pre + b)[|pre + a|] == b[|a|]
  {
    assert (pre + a)[|pre|..] == a && (pre + b)[|pre|..] == b;
    if pre + a < pre + b { assert a == (pre + b)[|pre|..][..|a|]; }
  }

  lemma {:induction false} DeadEndLifts(named: Value -> bool, n: Node, pre: Key, c: Node, k: Key, p: Key)
    requires WellFormed(n) && WellFormed(c) && Hangs(n, pre, c)
    ensures DeadEnd(named, n, pre + k, pre + p) <==> DeadEnd(named, c, k, p)
  {
    PrefixCancels(pre, p, k);
    if DeadEnd(named, c, k, p) {
      forall q | Has(n, q) && pre + p < q ensures q == pre + k {
        var r := q[|pre|..];
        assert q == pre + r;
        assert Has(c, r);
        PrefixCancels(pre, p, r);
      }
    }
    if DeadEnd(named, n, pre + k, pre + p) {
      forall r | Has(c, r) && p < r ensures r == k {
        assert Has(n, pre + r);
        PrefixCancels(pre, p, r);
        PrefixCancels(pre, r, k);
      }
    }
  }

  lemma {:induction false} ForkLifts(n: Node, pre: Key, c: Node, k: Key, a: Key, b: Key)
    requires WellFormed(n) && WellFormed(c) && Hangs(n, pre, c)
    ensures Fork(n, pre + k, pre + a, pre + b) <==> Fork(c, k, a, b)
  {
    PrefixCancels(pre, k, a);
    PrefixCancels(pre, k, b);
  }

  /** Below an extension or a branch slot, blocking is decided by the child, but for a key that
      ends above the child. */
  lemma {:induction false} BlockedBelow(named: Value -> bool, n: Node, pre: Key, c: Node, k: Key)
    requires WellFormed(n) && WellFormed(c) && Hangs(n, pre, c)
    requires forall p :: p < pre ==> !DeadEnd(named, n, pre + k, p)
    ensures Blocked(named, n, pre + k) <==> Blocked(named, c, k)
  {
    if p :| DeadEnd(named, c, k, p) {
      DeadEndLifts(named, n, pre, c, k, p);
    } else if a, b :| Fork(c, k, a, b) {
      ForkLifts(n, pre, c, k, a, b);
    } else {
      forall p ensures !DeadEnd(named, n, pre + k, p) { NoDeadEndAbove(named, n, pre, c, k, p); }
      forall a, b ensures !Fork(n, pre + k, a, b) { NoForkAbove(n, pre, c, k, a, b); }
    }
  }

  lemma {:induction false} NoDeadEndAbove(named: Value -> bool, n: Node, pre: Key, c: Node, k: Key, p: Key)
    requires WellFormed(n) && WellFormed(c) && Hangs(n, pre, c)
    requires p < pre ==> !DeadEnd(named, n, pre + k, p)
    requires forall r :: !DeadEnd(named, c, k, r)
    ensures !DeadEnd(named, n, pre + k, p)
  {
    if p < pre + k {
      if |pre| <= |p| {
        assert p == pre + p[|pre|..];
        DeadEndLifts(named, n, pre, c, k, p[|pre|..]);
      } else {
        assert p == pre[..|p|];
      }
    }
  }

  lemma {:induction false} NoForkAbove(n: Node, pre: Key, c: Node, k: Key, a: Key, b: Key)
    requires WellFormed(n) && WellFormed(c) && Hangs(n, pre, c)
    requires forall x, y :: !Fork(c, k, x, y)
    ensures !Fork(n, pre + k, a, b)
  {
    if pre + k < a && pre + k < b {
      assert a == pre + a[|pre|..] && b == pre + b[|pre|..];
      ForkLifts(n, pre, c, k, a[|pre|..], b[|pre|..]);
    }
  }

  lemma ExtHangs(n: Node)
    requires WellFormed(n) && n.Ext?
    ensures Hangs(n, n.key, n.child)
  {
    forall q ensures At(n, n.key + q) == At(n.child, q) {
      assert (n.key + q)[|n.key|..] == q;
    }
  }

  lemma BranchHangs(n: Node, i: Nibble)
    requires WellFormed(n) && n.Branch?
    ensures Hangs(n, [i], n.children[i])
  {
    forall q ensures At(n, [i] + q) == At(n.children[i], q) {
      assert ([i] + q)[1..] == q;
    }
  }

  /** Removal misreads the trie exactly when the entries present block it. */
  lemma {:induction false} FaultIffBlocked(named: Value -> bool, n: Node, k: Key)
    requires Canonical(n)
    ensures DeleteAt(named, n, k).Fault? <==> Blocked(named, n, k)
  {
    match n
    case Empty =>
    case Leaf(lk, v) =>
      if lk < k { assert DeadEnd(named, n, k, lk); }
    case Ext(ek, c) =>
      if ek <= k {
        var rest := k[|ek|..];
        assert k == ek + rest;
        FaultIffBlocked(named, c, rest);
        ExtHangs(n);
        BlockedBelow(named, n, ek, c, rest);
      } else {
        ExtPassesBy(named, n, k);
      }
    case Branch(cs, v) =>
      if k == [] {
        BranchEndsHere(named, n);
      } else {
        FaultIffBlocked(named, cs[k[0]], k[1..]);
        BranchFault(named, n, k);
      }
  }

  lemma ExtPassesBy(named: Value -> bool, n: Node, k: Key)
    requires CanonicalNode(n) && n.Ext? && !(n.key <= k)
    ensures !Blocked(named, n, k)
  {
    forall a | Has(n, a) && k < a ensures |k| < |n.key| && a[|k|] == n.key[|k|] {
      ExtLeads(n, k, a);
    }
  }

  lemma ExtLeads(n: Node, k: Key, a: Key)
    requires CanonicalNode(n) && n.Ext? && Has(n, a) && k < a
    ensures !(n.key <= k) ==> |k| < |n.key| && a[|k|] == n.key[|k|]
  {
    if |n.key| <= |k| { assert n.key == a[..|n.key|] == k[..|n.key|]; }
  }

  lemma BranchEndsHere(named: Value -> bool, n: Node)
    requires CanonicalNode(n) && n.Branch?
    ensures Blocked(named, n, []) <==> n.value == ""
    ensures DeleteAt(named, n, []).Fault? <==> n.value == ""
  {
    OtherChildUsed(n, 16);
    if n.value == "" {
      var a, b := TwoKeys(n);
      assert Fork(n, [], a, b);
    }
  }

  /** At a branch with a value taken for a node, the last key below it blocks its own removal. */
  lemma BranchFault(named: Value -> bool, n: Node, k: Key)
    requires CanonicalNode(n) && n.Branch? && k != []
    requires DeleteAt(named, n.children[k[0]], k[1..]).Fault? <==> Blocked(named, n.children[k[0]], k[1..])
    ensures DeleteAt(named, n, k).Fault? <==> Blocked(named, n, k)
  {
    if DeadEnd(named, n, k, []) {
      LastChild(named, n, k);
    } else {
      BranchBlockedBelow(named, n, k);
      if DeleteAt(named, n.children[k[0]], k[1..]).Removed? { NotLastChild(named, n, k); }
    }
  }

  lemma BranchBlockedBelow(named: Value -> bool, n: Node, k: Key)
    requires CanonicalNode(n) && n.Branch? && k != [] && !DeadEnd(named, n, k, [])
    ensures Blocked(named, n, k) <==> Blocked(named, n.children[k[0]], k[1..])
  {
    var pre, rest := [k[0]], k[1..];
    assert k == pre + rest;
    BranchHangs(n, k[0]);
    forall p: Key | p < pre ensures !DeadEnd(named, n, pre + rest, p) {
      assert p == [];
    }
    BlockedBelow(named, n, pre, n.children[k[0]], rest);
  }

  lemma LastChild(named: Value -> bool, n: Node, k: Key)
    requires CanonicalNode(n) && n.Branch? && DeadEnd(named, n, k, [])
    ensures DeleteAt(named, n, k).Fault?
  {
    var c := n.children[k[0]];
    forall i | 0 <= i < 16 && i != k[0] ensures n.children[i].Empty? {
      if !n.children[i].Empty? { var q := SlotKey(n, i); }
    }
    OtherChildUsed(n, 16);
    var x := SlotKey(n, k[0]);
    assert x == k;
    if !c.Leaf? {
      var a, b := TwoDistinct(c);
      BranchHangs(n, k[0]);
      assert Has(n, [k[0]] + a) && Has(n, [k[0]] + b);
      PrefixCancels([k[0]], a, b);
    } else {
      BranchHangs(n, k[0]);
      assert Has(n, [k[0]] + c.key);
      assert k[1..] == c.key;
    }
    assert DeleteAt(named, c, k[1..]) == Removed(Empty);
    CountedSlots(n.children[k[0] := Empty]);
  }

  lemma NotLastChild(named: Value -> bool, n: Node, k: Key)
    requires CanonicalNode(n) && n.Branch? && k != [] && !DeadEnd(named, n, k, [])
    requires DeleteAt(named, n.children[k[0]], k[1..]).Removed?
    ensures !DeleteAt(named, n, k).Fault?
  {
    if n.value != "" && named(n.value) {
      var q: Key :| Has(n, q) && [] < q && q != k;
      var c' := DeleteAt(named, n.children[k[0]], k[1..]).node;
      SlotStaysUsed(named, n, k, q);
      CountedSlots(n.children[k[0] := c']);
    }
  }

  /** A removal empties at most the slot of its key, and not if another key is there. */
  lemma SlotStaysUsed(named: Value -> bool, n: Node, k: Key, q: Key)
    requires CanonicalNode(n) && n.Branch? && k != [] && q != [] && q != k && Has(n, q)
    requires DeleteAt(named, n.children[k[0]], k[1..]).Removed?
    ensures !n.children[k[0] := DeleteAt(named, n.children[k[0]], k[1..]).node][q[0]].Empty?
  {
    if q[0] == k[0] {
      AtAfterDelete(named, n.children[k[0]], k[1..], q[1..]);
      assert q == [q[0]] + q[1..] && k == [k[0]] + k[1..];
      assert At(n.children[k[0]], q[1..]) == At(n, q) != "";
    } else {
      assert At(n.children[q[0]], q[1..]) == At(n, q) != "";
    }
  }

  // ---- Runs ----------------------------------------------------------------------------------

  datatype Op = Insert(key: Key, value: Value) | Remove(key: Key)

  /** One call on the trie; None after a misread. */
  function Apply(named: Value -> bool, n: Node, op: Op): Option<Node>
    requires WellFormed(n)
  {
    match op
    case Insert(k, v) => Some(MergeAt(n, k, v))
    case Remove(k) =>
      match DeleteAt(named, n, k)
      case NotFound => Some(n)
      case Fault => None
      case Removed(n') => Some(n')
  }

  function ApplyMap(m: map<Key, Value>, op: Op): map<Key, Value>
  {
    match op
    case Insert(k, v) => m[k := v]
    case Remove(k) => m - {k}
  }

  function RunMap(ops: seq<Op>): map<Key, Value>
  {
    if ops == [] then map[] else ApplyMap(RunMap(ops[..|ops| - 1]), ops[|ops| - 1])
  }

  /** named(i) tells which values are taken for nodes at call i, as the store changes between calls. */
  function Run(named: nat -> Value -> bool, ops: seq<Op>): Option<Node>
  {
    if ops == [] then Some(Empty)
    else
      var last := |ops| - 1;
      match Run(named, ops[..last])
      case None => None
      case Some(n) => if WellFormed(n) then Apply(named(last), n, ops[last]) else None
  }

  ghost predicate Stores(n: Node, m: map<Key, Value>)
    requires WellFormed(n)
  {
    forall k :: At(n, k) == if k in m then m[k] else ""
  }

  predicate NoEmptyValues(ops: seq<Op>)
  {
    forall i :: 0 <= i < |ops| && ops[i].Insert? ==> ops[i].value != ""
  }

  /** Blocking, told from the map alone. */
  ghost predicate BlockedIn(named: Value -> bool, m: map<Key, Value>, k: Key)
  {
    (exists p :: p in m && p < k && (forall q :: q in m && p < q ==> q == k) && (k in m ==> named(m[p]))) ||
    (exists a, b :: k !in m && a in m && b in m && k < a && k < b && a[|k|] != b[|k|])
  }

  lemma BlockedInContents(named: Value -> bool, n: Node, m: map<Key, Value>, k: Key)
    requires WellFormed(n) && Stores(n, m) && forall q :: Has(n, q) <==> q in m
    ensures Blocked(named, n, k) ==> BlockedIn(named, m, k)
  {
    if p :| DeadEnd(named, n, k, p) { assert p in m; }
    if a, b :| Fork(n, k, a, b) { assert a in m && b in m; }
  }

  lemma BlockedByContents(named: Value -> bool, n: Node, m: map<Key, Value>, k: Key)
    requires Canonical(n) && Stores(n, m) && forall q :: q in m ==> m[q] != ""
    ensures Blocked(named, n, k) <==> BlockedIn(named, m, k)
  {
    forall q ensures Has(n, q) <==> q in m { }
    BlockedInContents(named, n, m, k);
    if p :| p in m && p < k && (forall q :: q in m && p < q ==> q == k) && (k in m ==> named(m[p])) {
      assert DeadEnd(named, n, k, p);
    }
    if a, b :| k !in m && a in m && b in m && k < a && k < b && a[|k|] != b[|k|] {
      assert Fork(n, k, a, b);
    }
  }

  lemma ApplyRefines(named: Value -> bool, n: Node, m: map<Key, Value>, op: Op)
    requires Canonical(n) && Stores(n, m) && (forall q :: q in m ==> m[q] != "") && (op.Insert? ==> op.value != "")
    ensures Apply(named, n, op).Some? <==> (op.Remove? ==> !BlockedIn(named, m, op.key))
    ensures Apply(named, n, op).Some? ==>
      Canonical(Apply(named, n, op).value) && Stores(Apply(named, n, op).value, ApplyMap(m, op))
  {
    match op
    case Insert(k, v) =>
      MergeKeepsCanonical(n, k, v);
      forall q ensures At(MergeAt(n, k, v), q) == if q == k then v else At(n, q) { AtAfterMerge(n, k, v, q); }
    case Remove(k) =>
      FaultIffBlocked(named, n, k);
      BlockedByContents(named, n, m, k);
      if !DeleteAt(named, n, k).Fault? { RemoveRefines(named, n, m, k); }
  }

  lemma RemoveRefines(named: Value -> bool, n: Node, m: map<Key, Value>, k: Key)
    requires Canonical(n) && Stores(n, m) && (forall q :: q in m ==> m[q] != "") && !DeleteAt(named, n, k).Fault?
    ensures Canonical(Apply(named, n, Remove(k)).value) && Stores(Apply(named, n, Remove(k)).value, m - {k})
  {
    AtAfterDelete(named, n, k, k);
    var d := DeleteAt(named, n, k);
    if d.Removed? {
      forall q ensures At(d.node, q) == if q in m - {k} then m[q] else "" { AtAfterDelete(named, n, k, q); }
    } else {
      assert k !in m;
      assert m - {k} == m;
    }
  }

  /** No removal of the run is blocked by what the map holds at that moment. */
  ghost predicate NeverBlocked(named: nat -> Value -> bool, ops: seq<Op>)
  {
    forall i :: 0 <= i < |ops| && ops[i].Remove? ==> !BlockedIn(named(i), RunMap(ops[..i]), ops[i].key)
  }

  lemma NeverBlockedSnoc(named: nat -> Value -> bool, ops: seq<Op>)
    requires ops != []
    ensures var last := |ops| - 1;
      NeverBlocked(named, ops) <==>
        (NeverBlocked(named, ops[..last]) && (ops[last].Remove? ==> !BlockedIn(named(last), RunMap(ops[..last]), ops[last].key)))
  {
    var before := ops[..|ops| - 1];
    forall i | 0 <= i < |ops| ensures before[..i] == ops[..i] { }
    assert forall i :: 0 <= i < |before| ==> before[i] == ops[i];
  }

  /** Over keys of any lengths, a run of insertions of nonempty values and of removals completes exactly
      when no removal is blocked, and then it refines the finite map and leaves a canonical trie. */
  lemma {:induction false} RunRefines(named: nat -> Value -> bool, ops: seq<Op>)
    requires NoEmptyValues(ops)
    ensures forall q :: q in RunMap(ops) ==> RunMap(ops)[q] != ""
    ensures Run(named, ops).Some? <==> NeverBlocked(named, ops)
    ensures Run(named, ops).Some? ==> Canonical(Run(named, ops).value) && Stores(Run(named, ops).value, RunMap(ops))
  {
    if ops != [] {
      var last := |ops| - 1;
      var before := ops[..last];
      RunRefines(named, before);
      NeverBlockedSnoc(named, ops);
      if Run(named, before).Some? {
        ApplyRefines(named(last), Run(named, before).value, RunMap(before), ops[last]);
      }
    }
  }

  predicate Uniform(ops: seq<Op>, len: nat)
  {
    NoEmptyValues(ops) && forall i :: 0 <= i < |ops| ==> |ops[i].key| == len
  }

  lemma {:induction false} UniformKeys(ops: seq<Op>, len: nat)
    requires Uniform(ops, len)
    ensures forall q :: q in RunMap(ops) ==> |q| == len
  {
    if ops != [] { UniformKeys(ops[..|ops| - 1], len); }
  }

  /** Keys of one length never block a removal, so such runs always complete. */
  lemma UniformRunCompletes(named: nat -> Value -> bool, ops: seq<Op>, len: nat)
    requires Uniform(ops, len)
    ensures Run(named, ops).Some?
  {
    forall i | 0 <= i < |ops| ensures !BlockedIn(named(i), RunMap(ops[..i]), ops[i].key) {
      UniformKeys(ops[..i], len);
    }
    RunRefines(named, ops);
  }

  /** A run on keys of whole bytes that ends in a misread: a key is removed that continues the only key
      there. */
  lemma MisreadingRun(named: nat -> Value -> bool)
    ensures Run(named, [Insert([0, 1], "a"), Remove([0, 1, 0, 2])]) == None
  {
    var ops := [Insert([0, 1], "a"), Remove([0, 1, 0, 2])];
    assert ops[..1] == [Insert([0, 1], "a")] && ops[..1][..0] == [];
    assert Run(named, ops[..1]) == Some(Leaf([0, 1], "a"));
  }

  /** The trie, and so its root, depends on the final map only, not on the calls that built it. */
  lemma HistoryIndependent(named: nat -> Value -> bool, xs: seq<Op>, other: nat -> Value -> bool, ys: seq<Op>)
    requires NoEmptyValues(xs) && NoEmptyValues(ys) && Run(named, xs).Some? && Run(other, ys).Some?
    ensures Run(named, xs) == Run(other, ys) <==> RunMap(xs) == RunMap(ys)
  {
    RunRefines(named, xs);
    RunRefines(other, ys);
    var m, n, p, q := Run(named, xs).value, Run(other, ys).value, RunMap(xs), RunMap(ys);
    if p == q {
      CanonicalUnique(m, n);
    }
    if m == n {
      forall k ensures k in p <==> k in q { assert At(m, k) == At(n, k); }
      forall k | k in p ensures p[k] == q[k] { assert At(m, k) == At(n, k); }
    }
  }
}
