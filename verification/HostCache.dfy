/** The storage cache between the interpreter's host and the process that owns the state: reads and
    writes are cached, and the cache is flushed and seeded again around sub-calls. */
module HostCache {

  import OpenMap

  type Address = nat
  type Key = nat
  type Value = nat
  datatype Slot = Slot(addr: Address, key: Key)

  type Tree = map<Key, Value>
  type Accounts = map<Address, Tree>
  type Writes = seq<OpenMap.Entry<Slot, Value>>

  // ---- The peer -------------------------------------------------------------------------------

  function TreeOf(p: Accounts, a: Address): Tree
  {
    if a in p then p[a] else map[]
  }

  /** The answer to a storage read: zero when the tree has no such key. */
  function Stored(p: Accounts, s: Slot): Value
  {
    var t := TreeOf(p, s.addr);
    if s.key in t then t[s.key] else 0
  }

  /** parse_map: the updates grouped by account, later ones winning. */
  function Parse(ws: Writes): map<Address, Tree>
  {
    if ws == [] then map[]
    else
      var m, w := Parse(ws[..|ws| - 1]), ws[|ws| - 1];
      m[w.key.addr := (if w.key.addr in m then m[w.key.addr] else map[])[w.key.key := w.value]]
  }

  /** insert_items: zero deletes. */
  function InsertItems(t: Tree, kvs: Tree): Tree
  {
    map k | k in t.Keys + kvs.Keys && (k in kvs ==> kvs[k] != 0) :: if k in kvs then kvs[k] else t[k]
  }

  function ProcessUpdates(p: Accounts, ws: Writes): Accounts
  {
    var updates := Parse(ws);
    map a | a in p.Keys + updates.Keys :: if a in updates then InsertItems(TreeOf(p, a), updates[a]) else p[a]
  }

  lemma {:induction false} ParseHolds(ws: Writes, s: Slot)
    ensures s in OpenMap.MapOf(ws) <==> s.addr in Parse(ws) && s.key in Parse(ws)[s.addr]
    ensures s in OpenMap.MapOf(ws) ==> Parse(ws)[s.addr][s.key] == OpenMap.MapOf(ws)[s]
  {
    if ws != [] { ParseHolds(ws[..|ws| - 1], s); }
  }

  /** After an update a slot holds the value written, or what it held. */
  lemma UpdatedSlot(p: Accounts, ws: Writes, s: Slot)
    ensures Stored(ProcessUpdates(p, ws), s) ==
      if s in OpenMap.MapOf(ws) then OpenMap.MapOf(ws)[s] else Stored(p, s)
  {
    ParseHolds(ws, s);
  }

  /** Sending the same writes again changes nothing. */
  lemma ResendIsIdempotent(p: Accounts, ws: Writes)
    ensures ProcessUpdates(ProcessUpdates(p, ws), ws) == ProcessUpdates(p, ws)
  {
    var q, m := ProcessUpdates(p, ws), Parse(ws);
    forall a | a in m ensures ProcessUpdates(q, ws)[a] == q[a] {
      InsertTwice(TreeOf(p, a), m[a]);
    }
  }

  lemma InsertTwice(t: Tree, kvs: Tree)
    ensures InsertItems(InsertItems(t, kvs), kvs) == InsertItems(t, kvs)
  {
  }

  /** Trees hold no zeros, so that equal storage means equal trees and roots. */
  ghost predicate NoZeros(p: Accounts)
  {
    forall a, k :: a in p && k in p[a] ==> p[a][k] != 0
  }

  lemma SameStorageSameTrees(p: Accounts, q: Accounts, a: Address)
    requires NoZeros(p) && NoZeros(q) && forall s :: Stored(p, s) == Stored(q, s)
    ensures TreeOf(p, a) == TreeOf(q, a)
  {
    forall k ensures k in TreeOf(p, a) <==> k in TreeOf(q, a) { assert Stored(p, Slot(a, k)) == Stored(q, Slot(a, k)); }
    forall k | k in TreeOf(p, a) ensures TreeOf(p, a)[k] == TreeOf(q, a)[k] {
      assert Stored(p, Slot(a, k)) == Stored(q, Slot(a, k));
    }
  }

  // ---- Uncached storage -------------------------------------------------------------------------

  type Store = map<Slot, Value>

  function Look(ref: Store, s: Slot): Value
  {
    if s in ref then ref[s] else 0
  }

  /** What the peer stores is the reference store. */
  ghost predicate Holds(p: Accounts, ref: Store)
  {
    forall s :: Stored(p, s) == Look(ref, s)
  }

  /** A script of one execution: storage operations and sub-calls with their own account, script and
      outcome. */
  datatype Op =
    | Read(slot: Slot)
    | Write(slot: Slot, value: Value)
    | Call(to: Address, callee: seq<Op>, success: bool)

  datatype Event = Got(value: Value) | Status(modified: bool)

  datatype Outcome = Outcome(events: seq<Event>, store: Store)

  /** Execution on uncached storage: a failed sub-call leaves no writes. */
  function Uncached(ops: seq<Op>, ref: Store): Outcome
  {
    if ops == [] then Outcome([], ref)
    else
      var before := Uncached(ops[..|ops| - 1], ref);
      Step(ops[|ops| - 1], before)
  }

  function Step(op: Op, before: Outcome): Outcome
  {
    match op
    case Read(s) => Outcome(before.events + [Got(Look(before.store, s))], before.store)
    case Write(s, v) => Outcome(before.events + [Status(Look(before.store, s) != v)], before.store[s := v])
    case Call(_, callee, success) =>
      var o := Uncached(callee, before.store);
      Outcome(before.events + o.events, if success then o.store else before.store)
  }

  // ---- What survives ----------------------------------------------------------------------------------

  ghost predicate LastAt(ws: Writes, s: Slot, i: int)
  {
    0 <= i < |ws| && ws[i].key == s && forall j :: i < j < |ws| ==> ws[j].key != s
  }

  /** v is what the last of these writes to s wrote, or what s held before when there is none. */
  ghost predicate LastWrite(ws: Writes, s: Slot, before: Value, v: Value)
  {
    (exists i :: LastAt(ws, s, i) && v == ws[i].value) || ((forall j :: 0 <= j < |ws| ==> ws[j].key != s) && v == before)
  }

  /** Every slot ends with the last of these writes to it, or with what it held. */
  ghost predicate KeepsLast(ws: Writes, p: Accounts, p': Accounts)
  {
    forall s :: LastWrite(ws, s, Stored(p, s), Stored(p', s))
  }

  lemma {:induction false} MapOfLast(ws: Writes, s: Slot, before: Value)
    ensures LastWrite(ws, s, before, if s in OpenMap.MapOf(ws) then OpenMap.MapOf(ws)[s] else before)
  {
    if ws != [] {
      var n := |ws| - 1;
      if ws[n].key == s {
        assert LastAt(ws, s, n);
      } else {
        MapOfLast(ws[..n], s, before);
        LastStays(ws, s, before, if s in OpenMap.MapOf(ws) then OpenMap.MapOf(ws)[s] else before);
      }
    }
  }

  lemma LastStays(ws: Writes, s: Slot, before: Value, v: Value)
    requires ws != [] && ws[|ws| - 1].key != s && LastWrite(ws[..|ws| - 1], s, before, v)
    ensures LastWrite(ws, s, before, v)
  {
    var init := ws[..|ws| - 1];
    if i :| LastAt(init, s, i) && v == init[i].value {
      assert LastAt(ws, s, i) && v == ws[i].value;
    } else {
      assert forall j :: 0 <= j < |init| ==> init[j].key == ws[j].key;
    }
  }

  lemma {:induction false} MapOfConcat(a: Writes, b: Writes)
    ensures OpenMap.MapOf(a + b) == OpenMap.MapOf(a) + OpenMap.MapOf(b)
  {
    if b == [] {
      assert a + b == a;
    } else {
      MapOfConcat(a, b[..|b| - 1]);
      assert (a + b)[..|a + b| - 1] == a + b[..|b| - 1];
    }
  }

  lemma MapOfSnoc(ws: Writes, s: Slot, v: Value)
    ensures OpenMap.MapOf(ws + [OpenMap.Entry(s, v)]) == OpenMap.MapOf(ws)[s := v]
  {
    assert (ws + [OpenMap.Entry(s, v)])[..|ws|] == ws;
  }

  /** The writes of a script and of its successful sub-calls, in order; none of a sub-call that fails. */
  function Surviving(ops: seq<Op>): Writes
  {
    if ops == [] then []
    else
      var ws := Surviving(ops[..|ops| - 1]);
      match ops[|ops| - 1]
      case Read(_) => ws
      case Write(s, v) => ws + [OpenMap.Entry(s, v)]
      case Call(_, callee, success) => if success then ws + Surviving(callee) else ws
  }

  lemma AddLater(a: Store, b: Store, s: Slot, v: Value)
    ensures a + b[s := v] == (a + b)[s := v]
  {
  }

  lemma AddTwice(a: Store, b: Store)
    ensures a + b + b == a + b
  {
  }

  lemma AddNone(a: Store)
    ensures a + map[] == a
  {
  }

  lemma AddAll(a: Store, b: Store, c: Store)
    ensures a + b + c == a + (b + c)
  {
  }

  lemma {:induction false} UncachedStore(ops: seq<Op>, ref: Store)
    ensures Uncached(ops, ref).store == ref + OpenMap.MapOf(Surviving(ops))
  {
    if ops != [] {
      var init, last := ops[..|ops| - 1], ops[|ops| - 1];
      UncachedStore(init, ref);
      match last
      case Read(_) =>
      case Write(s, v) =>
        MapOfSnoc(Surviving(init), s, v);
        AddLater(ref, OpenMap.MapOf(Surviving(init)), s, v);
      case Call(_, callee, success) =>
        UncachedStore(callee, Uncached(init, ref).store);
        MapOfConcat(Surviving(init), Surviving(callee));
        AddAll(ref, OpenMap.MapOf(Surviving(init)), OpenMap.MapOf(Surviving(callee)));
    }
  }

  /** A read or write with the writes that it sees. */
  datatype Asked = Asked(op: Op, seen: Writes)

  /** The reads and writes of a script and its sub-calls, failed ones too, as they come. */
  function Log(ops: seq<Op>, seen: Writes): seq<Asked>
  {
    if ops == [] then []
    else
      var init, last := ops[..|ops| - 1], ops[|ops| - 1];
      var now := seen + Surviving(init);
      Log(init, seen) + if last.Call? then Log(last.callee, now) else [Asked(last, now)]
  }

  /** A read got the value of the last write it sees, and a write was told whether it changes that. */
  ghost predicate Answers(a: Asked, p: Accounts, e: Event)
  {
    match a.op
    case Read(s) => e.Got? && LastWrite(a.seen, s, Stored(p, s), e.value)
    case Write(s, v) => e.Status? && exists u :: LastWrite(a.seen, s, Stored(p, s), u) && e.modified == (u != v)
    case Call(_, _, _) => false
  }

  ghost predicate AllAnswer(log: seq<Asked>, p: Accounts, events: seq<Event>)
  {
    |events| == |log| && forall i :: 0 <= i < |log| ==> Answers(log[i], p, events[i])
  }

  lemma LookLast(ref: Store, seen: Writes, p: Accounts, s: Slot)
    requires Holds(p, ref)
    ensures LastWrite(seen, s, Stored(p, s), Look(ref + OpenMap.MapOf(seen), s))
  {
    MapOfLast(seen, s, Stored(p, s));
  }

  /** On uncached storage every read answers the last surviving write it sees, or what the peer held. */
  lemma {:induction false} UncachedAnswers(ops: seq<Op>, ref: Store, seen: Writes, p: Accounts)
    requires Holds(p, ref)
    ensures AllAnswer(Log(ops, seen), p, Uncached(ops, ref + OpenMap.MapOf(seen)).events)
    decreases ops
  {
    if ops != [] {
      var init, last := ops[..|ops| - 1], ops[|ops| - 1];
      var start, now := ref + OpenMap.MapOf(seen), seen + Surviving(init);
      UncachedAnswers(init, ref, seen, p);
      UncachedStore(init, start);
      MapOfConcat(seen, Surviving(init));
      AddAll(ref, OpenMap.MapOf(seen), OpenMap.MapOf(Surviving(init)));
      match last
      case Read(s) => LookLast(ref, now, p, s);
      case Write(s, v) => LookLast(ref, now, p, s);
      case Call(_, callee, _) => UncachedAnswers(callee, ref, now, p);
      var o := Uncached(init, start);
      var tail := if last.Call? then Log(last.callee, now) else [Asked(last, now)];
      var more := match last
        case Read(s) => [Got(Look(o.store, s))]
        case Write(s, v) => [Status(Look(o.store, s) != v)]
        case Call(_, callee, _) => Uncached(callee, o.store).events;
      AnswersJoin(Log(init, seen), tail, p, o.events, more);
    }
  }

  lemma AnswersJoin(a: seq<Asked>, b: seq<Asked>, p: Accounts, x: seq<Event>, y: seq<Event>)
    requires AllAnswer(a, p, x) && AllAnswer(b, p, y)
    ensures AllAnswer(a + b, p, x + y)
  {
  }

  /** Every slot ends with the last surviving write to it, or with what the peer held. */
  lemma UncachedKeepsLast(ops: seq<Op>, ref: Store, p: Accounts, p': Accounts, s: Slot)
    requires Holds(p, ref) && Holds(p', Uncached(ops, ref).store)
    ensures LastWrite(Surviving(ops), s, Stored(p, s), Stored(p', s))
  {
    UncachedStore(ops, ref);
    LookLast(ref, Surviving(ops), p, s);
  }

  lemma UncachedKeepsAll(ops: seq<Op>, ref: Store, p: Accounts, p': Accounts)
    requires Holds(p, ref) && Holds(p', Uncached(ops, ref).store)
    ensures AllAnswer(Log(ops, []), p, Uncached(ops, ref).events)
    ensures KeepsLast(Surviving(ops), p, p')
  {
    assert ref + OpenMap.MapOf<Slot, Value>([]) == ref;
    UncachedAnswers(ops, ref, [], p);
    forall s ensures LastWrite(Surviving(ops), s, Stored(p, s), Stored(p', s)) { UncachedKeepsLast(ops, ref, p, p', s); }
  }

  lemma {:induction false} UncachedConcat(xs: seq<Op>, ys: seq<Op>, ref: Store)
    ensures var o, r := Uncached(xs, ref), Uncached(ys, Uncached(xs, ref).store);
      Uncached(xs + ys, ref) == Outcome(o.events + r.events, r.store)
    decreases |ys|
  {
    if ys == [] {
      assert xs + ys == xs;
    } else {
      var n := |ys| - 1;
      UncachedConcat(xs, ys[..n], ref);
      assert (xs + ys)[..|xs + ys| - 1] == xs + ys[..n];
      StepAppends(ys[n], Uncached(xs, ref).events, Uncached(ys[..n], Uncached(xs, ref).store));
    }
  }

  /** An operation adds its events and depends on the store only. */
  lemma StepAppends(op: Op, events: seq<Event>, o: Outcome)
    ensures Step(op, Outcome(events + o.events, o.store)) == Outcome(events + Step(op, o).events, Step(op, o).store)
  {
    if op.Call? {
      var inner := Uncached(op.callee, o.store).events;
      assert events + o.events + inner == events + (o.events + inner);
    }
  }

  /** A failed sub-call may as well not have been made, as far as the storage goes. */
  lemma FailedCallVanishes(xs: seq<Op>, a: Address, callee: seq<Op>, ys: seq<Op>, ref: Store)
    ensures Uncached(xs + [Call(a, callee, false)] + ys, ref).store == Uncached(xs + ys, ref).store
  {
    var call := [Call(a, callee, false)];
    assert call[..0] == [];
    UncachedConcat(xs, ys, ref);
    UncachedConcat(xs, call, ref);
    UncachedConcat(xs + call, ys, ref);
  }

  /** A successful sub-call does what its script would do in its place. */
  lemma SucceededCallInlines(xs: seq<Op>, a: Address, callee: seq<Op>, ys: seq<Op>, ref: Store)
    ensures Uncached(xs + [Call(a, callee, true)] + ys, ref) == Uncached(xs + callee + ys, ref)
  {
    var call := [Call(a, callee, true)];
    assert call[..0] == [];
    UncachedConcat(xs, call, ref);
    UncachedConcat(xs, callee, ref);
    UncachedConcat(xs + call, ys, ref);
    UncachedConcat(xs + callee, ys, ref);
  }

  // ---- The host -----------------------------------------------------------------------------------

  /** Set on the dense entry list: the key's entry is overwritten, a new key comes last. */
  function Overwrite(ws: Writes, s: Slot, v: Value): Writes
  {
    if ws == [] then [OpenMap.Entry(s, v)]
    else
      var n := |ws| - 1;
      if ws[n].key == s then ws[..n] + [OpenMap.Entry(s, v)] else Overwrite(ws[..n], s, v) + [ws[n]]
  }

  lemma {:induction false} OverwriteIsUpdate(ws: Writes, s: Slot, v: Value)
    ensures OpenMap.MapOf(Overwrite(ws, s, v)) == OpenMap.MapOf(ws)[s := v]
  {
    if ws != [] {
      var n := |ws| - 1;
      var r := Overwrite(ws, s, v);
      if ws[n].key != s {
        OverwriteIsUpdate(ws[..n], s, v);
        assert r[..|r| - 1] == Overwrite(ws[..n], s, v);
      } else {
        assert r[..n] == ws[..n];
      }
    } else {
      assert [OpenMap.Entry(s, v)][..0] == ws;
    }
  }

  /** The seed the peer sends: all entries of a small account, or a marker that the account is large. */
  datatype Seed = Entries(addr: Address, items: seq<OpenMap.Entry<Key, Value>>) | TooLarge(addr: Address)

  predicate Lists(items: seq<OpenMap.Entry<Key, Value>>, k: Key)
  {
    exists i :: 0 <= i < |items| && items[i].key == k
  }

  ghost predicate SeedOf(seed: Seed, p: Accounts)
  {
    seed.Entries? ==>
      (forall i :: 0 <= i < |seed.items| ==>
        seed.items[i].key in TreeOf(p, seed.addr) && TreeOf(p, seed.addr)[seed.items[i].key] == seed.items[i].value) &&
      (forall k :: k in TreeOf(p, seed.addr) ==> Lists(seed.items, k))
  }

  const SEED_LIMIT := 100

  /** cache_account, with the entries in any order. */
  method CacheAccount(p: Accounts, a: Address) returns (seed: Seed)
    ensures seed.addr == a && SeedOf(seed, p)
    ensures seed.Entries? <==> |TreeOf(p, a)| < 100
  {
    var t := TreeOf(p, a);
    if |t| >= SEED_LIMIT { return TooLarge(a); }
    var items: seq<OpenMap.Entry<Key, Value>>, rest := [], t.Keys;
    while rest != {}
      invariant rest <= t.Keys
      invariant forall i :: 0 <= i < |items| ==> items[i].key in t && t[items[i].key] == items[i].value
      invariant forall k :: k in t.Keys && k !in rest ==> Lists(items, k)
      decreases rest
    {
      var k :| k in rest;
      ghost var before := items;
      items := items + [OpenMap.Entry(k, t[k])];
      rest := rest - {k};
      assert items[|before|].key == k;
      forall x | x in t.Keys && x !in rest ensures Lists(items, x) {
        if x != k {
          assert Lists(before, x);
          var i :| 0 <= i < |before| && before[i].key == x;
          assert items[i].key == x;
        }
      }
    }
    seed := Entries(a, items);
  }

  ghost predicate Truthful(complete: map<Address, bool>, cache: Store, unsent: Store, p: Accounts, ref: Store)
  {
    (forall s :: Look(ref, s) == if s in unsent then unsent[s] else Stored(p, s)) &&
    (forall s :: s in unsent ==> s in cache) &&
    (forall s :: s in cache ==> cache[s] == Look(ref, s)) &&
    (forall s: Slot :: s !in cache && s.addr in complete && complete[s.addr] ==> Look(ref, s) == 0)
  }

  lemma WriteStaysTruthful(complete: map<Address, bool>, cache: Store, unsent: Store, p: Accounts, ref: Store, s: Slot, v: Value)
    requires Truthful(complete, cache, unsent, p, ref)
    ensures Truthful(complete, cache[s := v], unsent[s := v], p, ref[s := v])
  {
  }

  class Host {
    var complete: map<Address, bool>
    var cache: map<Slot, Value>
    var writes: Writes

    constructor ()
      ensures cache == map[] && complete == map[] && writes == []
    {
      cache, complete, writes := map[], map[], [];
    }

    /** The peer's state under the unsent writes is the reference store, and the cache tells the truth
        about it, also about keys a complete account does not have. */
    ghost predicate Coherent(p: Accounts, ref: Store)
      reads this
    {
      Truthful(complete, cache, OpenMap.MapOf(writes), p, ref)
    }

    predicate CompleteAccount(a: Address)
      reads this
    {
      a in complete && complete[a]
    }

    method Reset()
      modifies this
      ensures cache == map[] && complete == map[] && writes == []
    {
      complete, cache, writes := map[], map[], [];
    }

    method GetCache(s: Slot, ghost p: Accounts, ghost ref: Store) returns (hit: bool, v: Value)
      requires Coherent(p, ref)
      ensures hit ==> v == Look(ref, s)
      ensures !hit ==> s !in cache && !CompleteAccount(s.addr)
    {
      if s in cache { return true, cache[s]; }
      if CompleteAccount(s.addr) { return true, 0; }
      hit, v := false, 0;
    }

    /** A read returns what uncached storage would. */
    method GetStorage(p: Accounts, s: Slot, ghost ref: Store) returns (v: Value)
      requires Coherent(p, ref)
      modifies this
      ensures v == Look(ref, s) && Coherent(p, ref) && writes == old(writes)
      ensures forall t :: t in cache ==> t == s || t in old(cache)
    {
      var hit;
      hit, v := GetCache(s, p, ref);
      if hit { return v; }
      v := Stored(p, s);
      cache := cache[s := v];
    }

    /** A write is kept back; its status compares with what uncached storage holds. */
    method SetStorage(p: Accounts, s: Slot, v: Value, ghost ref: Store) returns (modified: bool)
      requires Coherent(p, ref)
      modifies this
      ensures Coherent(p, ref[s := v]) && modified == (Look(ref, s) != v)
      ensures OpenMap.MapOf(writes) == OpenMap.MapOf(old(writes))[s := v]
    {
      var prev := GetStorage(p, s, ref);
      OverwriteIsUpdate(writes, s, v);
      WriteStaysTruthful(complete, cache, OpenMap.MapOf(writes), p, ref, s, v);
      cache := cache[s := v];
      writes := Overwrite(writes, s, v);
      modified := prev != v;
    }

    /** Sending the writes makes the peer's state the reference store. */
    method SendUpdates(p: Accounts, ghost ref: Store) returns (p': Accounts)
      requires Coherent(p, ref)
      ensures Holds(p', ref) && Coherent(p', ref)
      ensures p' == ProcessUpdates(p, writes) && (NoZeros(p) ==> NoZeros(p'))
    {
      p' := ProcessUpdates(p, writes);
      forall s ensures Stored(p', s) == Look(ref, s) { UpdatedSlot(p, writes, s); }
    }

    method ReadUpdates(seed: Seed, ghost p: Accounts, ghost ref: Store)
      requires SeedOf(seed, p) && Holds(p, ref)
      modifies this
      ensures Coherent(p, ref) && writes == []
    {
      Reset();
      if seed.Entries? {
        var i := 0;
        while i < |seed.items|
          invariant 0 <= i <= |seed.items| && writes == [] && complete == map[]
          invariant forall s :: s in cache ==> cache[s] == Stored(p, s)
          invariant forall j :: 0 <= j < i ==> Slot(seed.addr, seed.items[j].key) in cache
        {
          cache := cache[Slot(seed.addr, seed.items[i].key) := seed.items[i].value];
          i := i + 1;
        }
        forall k | k in TreeOf(p, seed.addr) ensures Slot(seed.addr, k) in cache {
          assert Lists(seed.items, k);
          var j :| 0 <= j < |seed.items| && seed.items[j].key == k;
          assert Slot(seed.addr, seed.items[j].key) in cache;
        }
        forall s: Slot | s.addr == seed.addr && s !in cache ensures Look(ref, s) == 0 {
          assert s == Slot(seed.addr, s.key);
          assert Stored(p, s) == 0;
        }
        complete := complete[seed.addr := true];
      }
    }
  }

  // ---- Runs -----------------------------------------------------------------------------------------

  /** What a static execution leaves in the peer's state: settled writes, and those not yet sent. */
  datatype Effect = Effect(settled: Store, pending: Store)

  function StaticEffect(ops: seq<Op>): Effect
  {
    if ops == [] then Effect(map[], map[]) else StaticStep(ops[|ops| - 1], StaticEffect(ops[..|ops| - 1]))
  }

  function StaticStep(op: Op, e: Effect): Effect
  {
    match op
    case Read(_) => e
    case Write(s, v) => Effect(e.settled, e.pending[s := v])
    case Call(_, callee, success) =>
      if success then Effect(e.settled + e.pending + StaticEffect(callee).settled, map[])
      else Effect(e.settled + e.pending, e.pending)
  }

  /** The peer's state is the first one overlaid with these writes. */
  ghost predicate Overlaid(p: Accounts, writes: Store, p': Accounts)
  {
    forall s :: Stored(p', s) == if s in writes then writes[s] else Stored(p, s)
  }

  /** The writes that reach the peer's state by the last sub-call of a static execution: those made before
      it, and those that reach the state from sub-calls that succeed. */
  function Settling(ops: seq<Op>): Writes
    decreases ops, 1
  {
    if ops == [] then []
    else if ops[|ops| - 1].Call? then InView(ops)
    else Settling(ops[..|ops| - 1])
  }

  /** These and the writes made since. */
  function InView(ops: seq<Op>): Writes
    decreases ops, 0
  {
    if ops == [] then []
    else
      var ws := InView(ops[..|ops| - 1]);
      match ops[|ops| - 1]
      case Read(_) => ws
      case Write(s, v) => ws + [OpenMap.Entry(s, v)]
      case Call(_, callee, success) => if success then ws + Settling(callee) else ws
  }

  lemma {:induction false} EffectIsSettling(ops: seq<Op>)
    ensures StaticEffect(ops).settled == OpenMap.MapOf(Settling(ops))
    ensures StaticEffect(ops).settled + StaticEffect(ops).pending == OpenMap.MapOf(InView(ops))
  {
    if ops != [] {
      var init, last := ops[..|ops| - 1], ops[|ops| - 1];
      EffectIsSettling(init);
      match last
      case Read(_) =>
      case Write(s, v) =>
        MapOfSnoc(InView(init), s, v);
        AddLater(StaticEffect(init).settled, StaticEffect(init).pending, s, v);
      case Call(_, callee, success) =>
        EffectIsSettling(callee);
        MapOfConcat(InView(init), Settling(callee));
        AddTwice(StaticEffect(init).settled, StaticEffect(init).pending);
        AddNone(StaticEffect(ops).settled);
    }
  }

  lemma SettlesLast(ops: seq<Op>, p: Accounts, p': Accounts)
    requires Overlaid(p, StaticEffect(ops).settled, p')
    ensures KeepsLast(Settling(ops), p, p')
  {
    EffectIsSettling(ops);
    forall s ensures LastWrite(Settling(ops), s, Stored(p, s), Stored(p', s)) { MapOfLast(Settling(ops), s, Stored(p, s)); }
  }

  /** The reference store of a peer: what it stores, whatever it is. */
  function StoreOf(p: Accounts): Store
  {
    map a, k | a in p && k in p[a] :: Slot(a, k) := p[a][k]
  }

  lemma StoreOfHolds(p: Accounts)
    ensures Holds(p, StoreOf(p))
  {
    forall s ensures Stored(p, s) == Look(StoreOf(p), s) {
      if s.addr in p && s.key in p[s.addr] {
        assert Slot(s.addr, s.key) in StoreOf(p);
      }
    }
  }

  lemma OverlayTwice(p: Accounts, a: Store, q: Accounts, b: Store, r: Accounts)
    requires Overlaid(p, a, q) && Overlaid(q, b, r)
    ensures Overlaid(p, a + b, r)
  {
  }

  /** One execution.  On a non-static run every answer is that of uncached storage, the last surviving
      write that it sees, and the peer ends with the reference store, the last surviving writes; on a
      static run the last writes are dropped and those that settle stay. */
  method Execute(to: Address, ops: seq<Op>, p: Accounts, isStatic: bool, ghost ref: Store)
      returns (events: seq<Event>, p': Accounts)
    requires Holds(p, ref)
    ensures !isStatic ==> events == Uncached(ops, ref).events && Holds(p', Uncached(ops, ref).store)
    ensures !isStatic ==> AllAnswer(Log(ops, []), p, events)
    ensures !isStatic ==> KeepsLast(Surviving(ops), p, p')
    ensures isStatic ==> Overlaid(p, StaticEffect(ops).settled, p')
    ensures isStatic ==> KeepsLast(Settling(ops), p, p')
    ensures NoZeros(p) ==> NoZeros(p')
  {
    events, p' := RunScript(to, ops, p, isStatic, ref);
    if isStatic { SettlesLast(ops, p, p'); } else { UncachedKeepsAll(ops, ref, p, p'); }
  }

  /** The run of a script on a fresh host, seeded with its own account. */
  method RunScript(to: Address, ops: seq<Op>, p: Accounts, isStatic: bool, ghost ref: Store)
      returns (events: seq<Event>, p': Accounts)
    requires Holds(p, ref)
    ensures !isStatic ==> events == Uncached(ops, ref).events && Holds(p', Uncached(ops, ref).store)
    ensures isStatic ==> Overlaid(p, StaticEffect(ops).settled, p')
    ensures NoZeros(p) ==> NoZeros(p')
    decreases ops
  {
    var host := new Host();
    var seed := CacheAccount(p, to);
    host.ReadUpdates(seed, p, ref);
    events, p' := [], p;
    ghost var now := ref;
    var i := 0;
    while i < |ops|
      invariant 0 <= i <= |ops|
      invariant host.Coherent(p', now) && (NoZeros(p) ==> NoZeros(p'))
      invariant !isStatic ==> Outcome(events, now) == Uncached(ops[..i], ref)
      invariant isStatic ==> Overlaid(p, StaticEffect(ops[..i]).settled, p')
      invariant isStatic ==> OpenMap.MapOf(host.writes) == StaticEffect(ops[..i]).pending
    {
      assert ops[..i + 1][..i] == ops[..i];
      events, p', now := Perform(host, to, ops[i], p', isStatic, events, now, p, StaticEffect(ops[..i]));
      i := i + 1;
    }
    assert ops[..|ops|] == ops;
    if !isStatic { p' := host.SendUpdates(p', now); }
  }

  /** One operation of an execution. */
  method Perform(host: Host, to: Address, op: Op, p: Accounts, isStatic: bool, before: seq<Event>, ghost now: Store,
                 ghost start: Accounts, ghost e: Effect)
      returns (events: seq<Event>, p': Accounts, ghost then': Store)
    requires host.Coherent(p, now)
    requires isStatic ==> Overlaid(start, e.settled, p) && OpenMap.MapOf(host.writes) == e.pending
    modifies host
    ensures host.Coherent(p', then') && (NoZeros(p) ==> NoZeros(p'))
    ensures !isStatic ==> Outcome(events, then') == Step(op, Outcome(before, now))
    ensures isStatic ==> Overlaid(start, StaticStep(op, e).settled, p') && OpenMap.MapOf(host.writes) == StaticStep(op, e).pending
    decreases op
  {
    p', then' := p, now;
    match op
    case Read(s) =>
      var v := host.GetStorage(p, s, now);
      events := before + [Got(v)];
    case Write(s, v) =>
      var modified := host.SetStorage(p, s, v, now);
      events := before + [Status(modified)];
      then' := now[s := v];
    case Call(a, callee, success) =>
      var merged := host.SendUpdates(p, now);
      forall s ensures Stored(merged, s) == if s in OpenMap.MapOf(host.writes) then OpenMap.MapOf(host.writes)[s] else Stored(p, s) {
        UpdatedSlot(p, host.writes, s);
      }
      if isStatic { OverlayTwice(start, e.settled, p, OpenMap.MapOf(host.writes), merged); }
      var inner, after := RunScript(a, callee, merged, isStatic, now);
      events := before + inner;
      if success {
        if isStatic {
          OverlayTwice(start, e.settled + e.pending, merged, StaticEffect(callee).settled, after);
          then' := StoreOf(after);
          StoreOfHolds(after);
        } else {
          then' := Uncached(callee, now).store;
        }
        p' := after;
        var seed := CacheAccount(p', to);
        host.ReadUpdates(seed, p', then');
      } else {
        p' := merged;
      }
  }

  // ---- Static executions -------------------------------------------------------------------------------

  /** A write is followed by a sub-call, here or in a sub-call that succeeds. */
  predicate WritesThenCalls(ops: seq<Op>)
  {
    ops != [] &&
    var init, last := ops[..|ops| - 1], ops[|ops| - 1];
    WritesThenCalls(init) ||
    (last.Call? && (HasWrite(init) || (last.success && WritesThenCalls(last.callee))))
  }

  /** There is a write in this script itself. */
  predicate HasWrite(ops: seq<Op>)
  {
    ops != [] && (HasWrite(ops[..|ops| - 1]) || ops[|ops| - 1].Write?)
  }

  lemma {:induction false} SettledIffWritesThenCalls(ops: seq<Op>)
    ensures StaticEffect(ops).settled != map[] <==> WritesThenCalls(ops)
    ensures StaticEffect(ops).pending != map[] ==> HasWrite(ops)
    ensures HasWrite(ops) ==> StaticEffect(ops).pending != map[] || StaticEffect(ops).settled != map[]
  {
    if ops != [] {
      var init, last := ops[..|ops| - 1], ops[|ops| - 1];
      SettledIffWritesThenCalls(init);
      var e := StaticEffect(init);
      match last
      case Read(_) =>
      case Write(s, v) => assert s in e.pending[s := v];
      case Call(_, callee, success) =>
        SettledIffWritesThenCalls(callee);
        EmptyUnion(e.settled, e.pending);
        EmptyUnion(e.settled + e.pending, StaticEffect(callee).settled);
    }
  }

  lemma EmptyUnion(a: Store, b: Store)
    ensures a + b == map[] <==> a == map[] && b == map[]
  {
    if a + b == map[] {
      assert forall s :: s in a ==> s in a + b;
      assert forall s :: s in b ==> s in a + b;
    }
  }

  ghost predicate Unchanged(p: Accounts, p': Accounts)
  {
    forall s :: Stored(p, s) == Stored(p', s)
  }

  /** A static script leaves every state as it was exactly when no write in it is followed by a
      sub-call: the updates sent with a sub-call are merged, only the final ones are dropped. */
  lemma StaticChangesNothingIff(ops: seq<Op>)
    ensures !WritesThenCalls(ops) <==>
      forall p, p' :: Overlaid(p, StaticEffect(ops).settled, p') ==> Unchanged(p, p')
  {
    SettledIffWritesThenCalls(ops);
    var w := StaticEffect(ops).settled;
    if w != map[] {
      var s :| s in w;
      var p: Accounts := map[s.addr := map[s.key := w[s] + 1]];
      var p' := AccountsOf(p, w);
      AccountsOfOverlay(p, w);
      assert Stored(p, s) == w[s] + 1 && Stored(p', s) == w[s];
    }
  }

  /** One write and then a call of an account without code change the state of a static execution. */
  lemma StaticLeakExample(s: Slot, a: Address)
    ensures WritesThenCalls([Write(s, 1), Call(a, [], true)])
    ensures StaticEffect([Write(s, 1), Call(a, [], true)]).settled == map[s := 1]
  {
    var ops := [Write(s, 1), Call(a, [], true)];
    assert ops[..1] == [Write(s, 1)] && ops[..1][..0] == [];
    assert StaticEffect(ops[..1]) == StaticStep(Write(s, 1), StaticEffect([])) == Effect(map[], map[s := 1]);
    assert StaticEffect(ops) == StaticStep(ops[1], StaticEffect(ops[..1]));
    assert map[] + map[s := 1] + map[] == map[s := 1];
  }

  /** A state that is another one overlaid with these writes. */
  function AccountsOf(p: Accounts, w: Store): Accounts
  {
    var addrs := p.Keys + (set s | s in w :: s.addr);
    map a | a in addrs ::
      map k | k in TreeOf(p, a).Keys + (set s | s in w && s.addr == a :: s.key) ::
        if Slot(a, k) in w then w[Slot(a, k)] else TreeOf(p, a)[k]
  }

  lemma AccountsOfOverlay(p: Accounts, w: Store)
    ensures Overlaid(p, w, AccountsOf(p, w))
  {
    forall s ensures Stored(AccountsOf(p, w), s) == if s in w then w[s] else Stored(p, s) {
      assert s == Slot(s.addr, s.key);
    }
  }
}
