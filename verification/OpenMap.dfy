/** The open-addressing Map of host.hpp: a vector of indexes into a dense vector of entries, probed
    with a fixed stride. */
module OpenMap {

  import opened Arithmetic
  import opened Collections

  const STRIDE := 1051

  datatype Entry<K, V> = Entry(key: K, value: V)

  // ---- The table on values ------------------------------------------------------------------

  /** The slot looked at after j steps. */
  function Slot(cap: nat, h: nat, j: nat): (s: nat)
    requires cap > 0
    ensures s < cap
  {
    if j == 0 then h % cap else (Slot(cap, h, j - 1) + STRIDE) % cap
  }

  /** The probe goes on: the slot holds another key. */
  predicate Passes<K(==), V>(ix: seq<nat>, data: seq<Entry<K, V>>, key: K, s: nat)
    requires s < |ix| && ix[s] <= |data|
  {
    ix[s] > 0 && data[ix[s] - 1].key != key
  }

  predicate InRange<K, V>(ix: seq<nat>, data: seq<Entry<K, V>>)
  {
    forall s :: 0 <= s < |ix| ==> ix[s] <= |data|
  }

  predicate PassesAt<K(==), V>(ix: seq<nat>, data: seq<Entry<K, V>>, key: K, h: nat, t: nat)
    requires |ix| > 0 && InRange(ix, data)
  {
    Passes(ix, data, key, Slot(|ix|, h, t))
  }

  /** Only slots with other keys come before the j-th on the way of this key. */
  ghost predicate PassesUntil<K, V>(ix: seq<nat>, data: seq<Entry<K, V>>, key: K, h: nat, j: nat)
    requires |ix| > 0 && InRange(ix, data)
  {
    forall t: nat :: t < j ==> PassesAt(ix, data, key, h, t)
  }

  lemma PassesNext<K, V>(ix: seq<nat>, data: seq<Entry<K, V>>, key: K, h: nat, j: nat)
    requires |ix| > 0 && InRange(ix, data) && PassesUntil(ix, data, key, h, j) && PassesAt(ix, data, key, h, j)
    ensures PassesUntil(ix, data, key, h, j + 1)
    ensures Slot(|ix|, h, j + 1) == (Slot(|ix|, h, j) + STRIDE) % |ix|
  {
  }

  /** The probe ends after j steps at the slot of entry p. */
  ghost predicate EndsAt<K, V>(ix: seq<nat>, data: seq<Entry<K, V>>, key: K, h: nat, j: nat, p: nat)
    requires |ix| > 0 && InRange(ix, data)
  {
    ix[Slot(|ix|, h, j)] == p + 1 && PassesUntil(ix, data, key, h, j)
  }

  /** The probe for the key of entry p ends at its slot. */
  ghost predicate Found<K, V>(hash: K -> nat, ix: seq<nat>, data: seq<Entry<K, V>>, p: nat)
    requires |ix| > 0 && InRange(ix, data) && p < |data|
  {
    exists j: nat :: EndsAt(ix, data, data[p].key, hash(data[p].key), j, p)
  }

  ghost predicate DistinctIndexes(ix: seq<nat>)
  {
    forall s, t :: 0 <= s < |ix| && 0 <= t < |ix| && ix[s] == ix[t] > 0 ==> s == t
  }

  ghost predicate DistinctKeys<K, V>(data: seq<Entry<K, V>>)
  {
    forall p, q :: 0 <= p < q < |data| ==> data[p].key != data[q].key
  }

  /** Load at most a quarter, no entry in two slots, no key in two entries, and every entry on the
      probe path of its key. */
  ghost predicate ValidTable<K, V>(hash: K -> nat, ix: seq<nat>, data: seq<Entry<K, V>>)
  {
    4 * |data| <= |ix| && InRange(ix, data) &&
    DistinctIndexes(ix) && DistinctKeys(data) &&
    (forall p :: 0 <= p < |data| ==> Found(hash, ix, data, p))
  }

  /** The map an entry list stands for. */
  function MapOf<K, V>(data: seq<Entry<K, V>>): map<K, V>
  {
    if data == [] then map[]
    else MapOf(data[..|data| - 1])[data[|data| - 1].key := data[|data| - 1].value]
  }

  lemma {:induction false} MapOfEntries<K, V>(data: seq<Entry<K, V>>)
    requires DistinctKeys(data)
    ensures forall p :: 0 <= p < |data| ==> data[p].key in MapOf(data) && MapOf(data)[data[p].key] == data[p].value
    ensures forall k :: k in MapOf(data) ==> exists p :: 0 <= p < |data| && data[p].key == k
    ensures |MapOf(data)| == |data|
  {
    if data != [] {
      var init := data[..|data| - 1];
      MapOfEntries(init);
      forall k | k in MapOf(data) ensures exists p :: 0 <= p < |data| && data[p].key == k {
        if k in MapOf(init) {
          var p :| 0 <= p < |init| && init[p].key == k;
          assert data[p].key == k;
        }
      }
      assert data[|data| - 1].key !in MapOf(init);
      forall p | 0 <= p < |data| ensures data[p].key in MapOf(data) && MapOf(data)[data[p].key] == data[p].value {
        if p < |init| { assert data[p] == init[p]; }
      }
    }
  }

  lemma StopsAreOne<K, V>(ix: seq<nat>, data: seq<Entry<K, V>>, key: K, h: nat, i: nat, j: nat)
    requires |ix| > 0 && InRange(ix, data) && PassesUntil(ix, data, key, h, i) && PassesUntil(ix, data, key, h, j)
    requires !PassesAt(ix, data, key, h, i) && !PassesAt(ix, data, key, h, j)
    ensures i == j
  {
  }

  /** A probe that reaches an empty slot proves the key absent. */
  lemma EmptySlotMeansAbsent<K, V>(hash: K -> nat, ix: seq<nat>, data: seq<Entry<K, V>>, key: K, j: nat)
    requires ValidTable(hash, ix, data) && |ix| > 0
    requires PassesUntil(ix, data, key, hash(key), j) && ix[Slot(|ix|, hash(key), j)] == 0
    ensures forall p :: 0 <= p < |data| ==> data[p].key != key
    ensures key !in MapOf(data)
  {
    assert !PassesAt(ix, data, key, hash(key), j);
    forall p | 0 <= p < |data| ensures data[p].key != key {
      if data[p].key == key {
        assert Found(hash, ix, data, p);
        var i: nat :| EndsAt(ix, data, key, hash(key), i, p);
        StopsAreOne(ix, data, key, hash(key), i, j);
      }
    }
    MapOfEntries(data);
  }

  /** Writing a new key into the empty slot its probe ended at keeps the table valid. */
  lemma PushKeepsValid<K, V>(hash: K -> nat, ix: seq<nat>, data: seq<Entry<K, V>>, key: K, value: V, j: nat)
    requires ValidTable(hash, ix, data) && 4 * (|data| + 1) <= |ix|
    requires PassesUntil(ix, data, key, hash(key), j) && ix[Slot(|ix|, hash(key), j)] == 0
    ensures ValidTable(hash, ix[Slot(|ix|, hash(key), j) := |data| + 1], data + [Entry(key, value)])
    ensures MapOf(data + [Entry(key, value)]) == MapOf(data)[key := value]
  {
    var s := Slot(|ix|, hash(key), j);
    var ix', data' := ix[s := |data| + 1], data + [Entry(key, value)];
    AppendIsUpdate(data, key, value);
    EmptySlotMeansAbsent(hash, ix, data, key, j);
    PushKeepsDistinct(ix, data, s, key, value);
    PushIsFound(hash, ix, data, key, value, j);
    forall p | 0 <= p < |data'| ensures Found(hash, ix', data', p) {
      if p < |data| { PushKeepsFound(hash, ix, data, s, key, value, p); }
    }
  }

  lemma AppendIsUpdate<K, V>(data: seq<Entry<K, V>>, key: K, value: V)
    ensures MapOf(data + [Entry(key, value)]) == MapOf(data)[key := value]
  {
    assert (data + [Entry(key, value)])[..|data|] == data;
  }

  lemma PushIsFound<K, V>(hash: K -> nat, ix: seq<nat>, data: seq<Entry<K, V>>, key: K, value: V, j: nat)
    requires |ix| > 0 && InRange(ix, data) && PassesUntil(ix, data, key, hash(key), j) && ix[Slot(|ix|, hash(key), j)] == 0
    ensures InRange(ix[Slot(|ix|, hash(key), j) := |data| + 1], data + [Entry(key, value)])
    ensures Found(hash, ix[Slot(|ix|, hash(key), j) := |data| + 1], data + [Entry(key, value)], |data|)
  {
    var s := Slot(|ix|, hash(key), j);
    var ix', data' := ix[s := |data| + 1], data + [Entry(key, value)];
    PassesStay(ix, data, s, key, value, key, hash(key), j);
    assert |ix'| == |ix| && data'[|data|].key == key;
    assert EndsAt(ix', data', data'[|data|].key, hash(data'[|data|].key), j, |data|);
  }

  lemma PushKeepsDistinct<K, V>(ix: seq<nat>, data: seq<Entry<K, V>>, s: nat, key: K, value: V)
    requires s < |ix| && ix[s] == 0 && InRange(ix, data) && DistinctIndexes(ix) && DistinctKeys(data)
    requires forall p :: 0 <= p < |data| ==> data[p].key != key
    ensures DistinctIndexes(ix[s := |data| + 1]) && DistinctKeys(data + [Entry(key, value)])
  {
  }

  lemma PassesStay<K, V>(ix: seq<nat>, data: seq<Entry<K, V>>, s: nat, key: K, value: V, k: K, h: nat, j: nat)
    requires s < |ix| && ix[s] == 0 && InRange(ix, data) && PassesUntil(ix, data, k, h, j)
    ensures InRange(ix[s := |data| + 1], data + [Entry(key, value)])
    ensures PassesUntil(ix[s := |data| + 1], data + [Entry(key, value)], k, h, j)
  {
    var ix', data' := ix[s := |data| + 1], data + [Entry(key, value)];
    forall t: nat | t < j ensures PassesAt(ix', data', k, h, t) {
      assert PassesAt(ix, data, k, h, t);
    }
  }

  lemma PushKeepsFound<K, V>(hash: K -> nat, ix: seq<nat>, data: seq<Entry<K, V>>, s: nat, key: K, value: V, p: nat)
    requires s < |ix| && ix[s] == 0 && InRange(ix, data) && p < |data| && Found(hash, ix, data, p)
    ensures InRange(ix[s := |data| + 1], data + [Entry(key, value)])
    ensures Found(hash, ix[s := |data| + 1], data + [Entry(key, value)], p)
  {
    var k := data[p].key;
    var i: nat :| EndsAt(ix, data, k, hash(k), i, p);
    PassesStay(ix, data, s, key, value, k, hash(k), i);
    var ix', data' := ix[s := |data| + 1], data + [Entry(key, value)];
    assert Slot(|ix|, hash(k), i) != s;
    assert data'[p].key == k && EndsAt(ix', data', k, hash(k), i, p);
  }

  /** Overwriting a value keeps the table valid. */
  lemma WriteKeepsValid<K, V>(hash: K -> nat, ix: seq<nat>, data: seq<Entry<K, V>>, p: nat, value: V)
    requires ValidTable(hash, ix, data) && p < |data|
    ensures ValidTable(hash, ix, data[p := Entry(data[p].key, value)])
    ensures MapOf(data[p := Entry(data[p].key, value)]) == MapOf(data)[data[p].key := value]
  {
    var data' := data[p := Entry(data[p].key, value)];
    assert forall q :: 0 <= q < |data| ==> data'[q].key == data[q].key;
    forall q | 0 <= q < |data'| ensures Found(hash, ix, data', q) {
      var k, h := data[q].key, hash(data[q].key);
      assert Found(hash, ix, data, q);
      var i: nat :| EndsAt(ix, data, k, h, i, q);
      forall t: nat | t < i ensures PassesAt(ix, data', k, h, t) {
        assert PassesAt(ix, data, k, h, t);
      }
      assert EndsAt(ix, data', k, h, i, q);
    }
    WriteIsUpdate(data, p, value);
  }

  lemma WriteIsUpdate<K, V>(data: seq<Entry<K, V>>, p: nat, value: V)
    requires p < |data| && DistinctKeys(data)
    ensures MapOf(data[p := Entry(data[p].key, value)]) == MapOf(data)[data[p].key := value]
  {
    var data' := data[p := Entry(data[p].key, value)];
    assert forall q :: 0 <= q < |data| ==> data'[q].key == data[q].key;
    MapOfEntries(data);
    MapOfEntries(data');
  }

  // ---- When a probe ends --------------------------------------------------------------------

  /** Some step of the probe finds the key or an empty slot. */
  ghost predicate ProbeEnds<K, V>(hash: K -> nat, ix: seq<nat>, data: seq<Entry<K, V>>, key: K)
    requires |ix| > 0 && InRange(ix, data)
  {
    exists j: nat :: !PassesAt(ix, data, key, hash(key), j)
  }

  /** The key of an entry is always found, whatever the capacity. */
  lemma PresentKeysAreFound<K, V>(hash: K -> nat, ix: seq<nat>, data: seq<Entry<K, V>>, key: K)
    requires ValidTable(hash, ix, data) && |ix| > 0 && key in MapOf(data)
    ensures ProbeEnds(hash, ix, data, key)
  {
    MapOfEntries(data);
    var p :| 0 <= p < |data| && data[p].key == key;
    assert Found(hash, ix, data, p);
    var j: nat :| EndsAt(ix, data, key, hash(key), j, p);
    assert !PassesAt(ix, data, key, hash(key), j);
  }

  /** The slot in closed form. */
  lemma {:induction false} SlotIs(cap: nat, h: nat, j: nat)
    requires cap > 0
    ensures Slot(cap, h, j) == (h + STRIDE * j) % cap
    decreases j
  {
    if j > 0 {
      SlotIs(cap, h, j - 1);
      var x, y := h + STRIDE * (j - 1), h + STRIDE * j;
      assert y == x + STRIDE;
      ModStep(x, STRIDE, cap);
      assert Slot(cap, h, j - 1) == x % cap;
      assert Slot(cap, h, j) == (x % cap + STRIDE) % cap == y % cap;
    }
  }

  /** Probes repeat after as many steps as there are slots. */
  lemma SlotRepeats(cap: nat, h: nat, j: nat)
    requires cap > 0
    ensures Slot(cap, h, j + cap) == Slot(cap, h, j)
  {
    SlotIs(cap, h, j);
    SlotIs(cap, h, j + cap);
    ModAdds(h + STRIDE * j, STRIDE, cap);
    assert h + STRIDE * (j + cap) == (h + STRIDE * j) + STRIDE * cap;
  }

  lemma ModAdds(x: int, k: int, cap: int)
    requires cap > 0
    ensures (x + k * cap) % cap == x % cap
  {
    var r, q := x % cap, x / cap;
    DivisionUnique(x + k * cap, q + k, cap, r);
  }

  lemma ModStep(x: int, y: int, cap: int)
    requires cap > 0
    ensures (x % cap + y) % cap == (x + y) % cap
  {
    ModAdds(x % cap + y, x / cap, cap);
  }

  /** Greatest common divisor and its coefficients. */
  function Gcd(a: nat, b: nat): (g: nat)
    requires a > 0
    ensures g > 0
    decreases b
  {
    if b == 0 then a else Gcd(b, a % b)
  }

  lemma {:induction false} Bezout(a: nat, b: nat) returns (x: int, y: int)
    requires a > 0
    ensures x * a + y * b == Gcd(a, b)
    decreases b
  {
    if b == 0 {
      x, y := 1, 0;
    } else {
      var u, v := Bezout(b, a % b);
      x, y := v, u - v * (a / b);
      BezoutStep(a, b, u, v, a / b, a % b);
    }
  }

  lemma BezoutStep(a: int, b: int, u: int, v: int, q: int, r: int)
    requires a == q * b + r
    ensures v * a + (u - v * q) * b == u * b + v * r
  {
    assert v * a == v * (q * b) + v * r;
    assert (u - v * q) * b == u * b - (v * q) * b;
    assert v * (q * b) == (v * q) * b;
  }

  lemma {:induction false} GcdDivides(a: nat, b: nat) returns (m: nat, n: nat)
    requires a > 0
    ensures a == m * Gcd(a, b) && b == n * Gcd(a, b)
    decreases b
  {
    if b == 0 {
      m, n := 1, 0;
    } else {
      var s, t := GcdDivides(b, a % b);
      var q: nat := a / b;
      m, n := q * s + t, s;
      GcdStep(a, b, a / b, a % b, s, t, Gcd(b, a % b));
    }
  }

  lemma GcdStep(a: int, b: int, q: int, r: int, s: int, t: int, g: int)
    requires a == q * b + r && b == s * g && r == t * g
    ensures a == (q * s + t) * g
  {
    assert q * (s * g) == (q * s) * g;
    assert (q * s + t) * g == (q * s) * g + t * g;
  }

  predicate NoDivisorFrom(n: nat, d: nat)
    requires d > 0
    decreases n - d
  {
    d * d > n || d > n || (n % d != 0 && NoDivisorFrom(n, d + 1))
  }

  lemma {:induction false} NoDivisor(n: nat, d: nat, x: nat, y: nat)
    requires d > 0 && NoDivisorFrom(n, d) && d <= x <= y && x * y == n
    ensures false
    decreases n - d
  {
    MulMono(d, x, x);
    MulMono(x, y, x);
    MulMono(d, x, d);
    if x == d {
      DivisionUnique(n, y, d, 0);
    } else {
      MulMono(1, y, x);
      NoDivisor(n, d + 1, x, y);
    }
  }

  lemma StrideIsPrime(x: nat, y: nat)
    requires x * y == STRIDE
    ensures x == 1 || x == STRIDE
  {
    assert NoDivisorFrom(1051, 31) && NoDivisorFrom(1051, 29) && NoDivisorFrom(1051, 27);
    assert NoDivisorFrom(1051, 25) && NoDivisorFrom(1051, 23) && NoDivisorFrom(1051, 21);
    assert NoDivisorFrom(1051, 19) && NoDivisorFrom(1051, 17) && NoDivisorFrom(1051, 15);
    assert NoDivisorFrom(1051, 13) && NoDivisorFrom(1051, 11) && NoDivisorFrom(1051, 9);
    assert NoDivisorFrom(1051, 7) && NoDivisorFrom(1051, 5) && NoDivisorFrom(1051, 3) && NoDivisorFrom(1051, 2);
    if x == 0 || y == 0 {
    } else if y == 1 {
    } else if 2 <= x {
      if x <= y { NoDivisor(STRIDE, 2, x, y); } else { NoDivisor(STRIDE, 2, y, x); }
    }
  }

  /** With a capacity the stride does not divide, the probe visits every slot. */
  lemma EverySlotVisited(cap: nat, h: nat, s: nat) returns (j: nat)
    requires cap > 0 && cap % STRIDE != 0 && s < cap
    ensures Slot(cap, h, j) == s
  {
    var g := Gcd(cap, STRIDE);
    var m, n := GcdDivides(cap, STRIDE);
    StrideIsPrime(n, g);
    if g == STRIDE { DivisionUnique(cap, m, STRIDE, 0); }
    var x, y := Bezout(cap, STRIDE);
    var w := y * (s - h);
    j := w % cap;
    SlotIs(cap, h, j);
    Solves(cap, h, s, x, y, j, w / cap);
    DivisionUnique(h + STRIDE * j, x * (h - s) - STRIDE * (w / cap), cap, s);
  }

  lemma Solves(cap: int, h: int, s: int, x: int, y: int, j: int, q: int)
    requires x * cap + y * STRIDE == 1 && y * (s - h) == q * cap + j
    ensures h + STRIDE * j == (x * (h - s) - STRIDE * q) * cap + s
  {
    var d := s - h;
    assert STRIDE * j == STRIDE * (y * d) - STRIDE * (q * cap);
    assert (x * cap + y * STRIDE) * d == d;
    assert STRIDE * (y * d) == d - (x * cap) * d;
    assert (x * cap) * d == (x * d) * cap;
    assert (x * (h - s) - STRIDE * q) * cap == (x * (h - s)) * cap - (STRIDE * q) * cap;
    assert x * (h - s) == -(x * d);
  }

  function UpTo(n: nat): (s: set<int>)
    ensures |s| == n && forall x :: x in s <==> 1 <= x <= n
  {
    if n == 0 then {} else UpTo(n - 1) + {n}
  }

  function Values(ix: seq<nat>): (s: set<int>)
    ensures forall i :: 0 <= i < |ix| ==> ix[i] in s
    ensures forall x :: x in s ==> x in ix
  {
    if ix == [] then {} else Values(ix[..|ix| - 1]) + {ix[|ix| - 1]}
  }

  lemma {:induction false} ValuesCount(ix: seq<nat>)
    requires forall s, t :: 0 <= s < t < |ix| ==> ix[s] != ix[t]
    ensures |Values(ix)| == |ix|
  {
    if ix != [] {
      ValuesCount(ix[..|ix| - 1]);
      assert ix[|ix| - 1] !in Values(ix[..|ix| - 1]);
    }
  }

  /** A valid table has an empty slot. */
  lemma EmptySlot<K, V>(hash: K -> nat, ix: seq<nat>, data: seq<Entry<K, V>>) returns (s: nat)
    requires ValidTable(hash, ix, data) && |ix| > 0
    ensures s < |ix| && ix[s] == 0
  {
    if forall i :: 0 <= i < |ix| ==> ix[i] > 0 {
      ValuesCount(ix);
      SubsetCount(Values(ix), UpTo(|data|));
      assert false;
    }
    s :| 0 <= s < |ix| && ix[s] == 0;
  }

  lemma ProbesEndUnless<K, V>(hash: K -> nat, ix: seq<nat>, data: seq<Entry<K, V>>, key: K)
    requires ValidTable(hash, ix, data) && |ix| > 0 && |ix| % STRIDE != 0
    ensures ProbeEnds(hash, ix, data, key)
  {
    var s := EmptySlot(hash, ix, data);
    var j := EverySlotVisited(|ix|, hash(key), s);
    assert !PassesAt(ix, data, key, hash(key), j);
  }

  /** No content of a table with this capacity makes a probe run for ever. */
  ghost predicate AlwaysEnds(cap: nat)
    requires cap > 0
  {
    forall hash: nat -> nat, ix: seq<nat>, data: seq<Entry<nat, nat>>, key: nat ::
      |ix| == cap && ValidTable(hash, ix, data) ==> ProbeEnds(hash, ix, data, key)
  }

  /** Keys 0, 1, 2, ... with one hash fill every slot their probes visit. */
  function Orbit(cap: nat, s: nat): (ix: seq<nat>)
    requires s <= cap
    ensures |ix| == s
    ensures forall i :: 0 <= i < s ==> ix[i] == if i % STRIDE == 0 then i / STRIDE + 1 else 0
  {
    if s == 0 then [] else Orbit(cap, s - 1) + [if (s - 1) % STRIDE == 0 then (s - 1) / STRIDE + 1 else 0]
  }

  function Numbered(n: nat): (d: seq<Entry<nat, nat>>)
    ensures |d| == n && forall i :: 0 <= i < n ==> d[i].key == i
  {
    if n == 0 then [] else Numbered(n - 1) + [Entry(n - 1, 0)]
  }

  lemma OrbitSlot(n: nat, j: nat)
    requires n > 0
    ensures Slot(STRIDE * n, 0, j) == STRIDE * (j % n)
  {
    SlotIs(STRIDE * n, 0, j);
    DivisionUnique(STRIDE * j, j / n, STRIDE * n, STRIDE * (j % n));
  }

  /** When the stride divides the capacity, a valid table can make a lookup run for ever. */
  lemma HangWitness(n: nat)
    requires n > 0
    ensures var hash: nat -> nat := _ => 0;
      ValidTable(hash, Orbit(STRIDE * n, STRIDE * n), Numbered(n)) &&
      !ProbeEnds(hash, Orbit(STRIDE * n, STRIDE * n), Numbered(n), n)
  {
    var hash: nat -> nat := _ => 0;
    var cap := STRIDE * n;
    var ix, data := Orbit(cap, cap), Numbered(n);
    forall j: nat ensures Slot(cap, 0, j) == STRIDE * (j % n) && ix[Slot(cap, 0, j)] == j % n + 1 {
      OrbitSlot(n, j);
      DivisionUnique(STRIDE * (j % n), j % n, STRIDE, 0);
    }
    forall p | 0 <= p < n ensures Found(hash, ix, data, p) {
      DivisionUnique(p, 0, n, p);
      forall t: nat | t < p ensures PassesAt(ix, data, p, 0, t) { DivisionUnique(t, 0, n, t); }
      assert Slot(cap, 0, p) == STRIDE * (p % n);
      assert data[p].key == p && EndsAt(ix, data, data[p].key, hash(data[p].key), p, p);
    }
    forall j: nat ensures PassesAt(ix, data, n, 0, j) {
    }
  }

  /** Probing ends for every content exactly when the stride does not divide the capacity. */
  lemma EndsIffStrideCoprime(cap: nat)
    requires cap > 0
    ensures AlwaysEnds(cap) <==> cap % STRIDE != 0
  {
    if cap % STRIDE != 0 {
      forall hash: nat -> nat, ix: seq<nat>, data: seq<Entry<nat, nat>>, key: nat | |ix| == cap && ValidTable(hash, ix, data)
        ensures ProbeEnds(hash, ix, data, key)
      {
        ProbesEndUnless(hash, ix, data, key);
      }
    } else {
      HangWitness(cap / STRIDE);
    }
  }

  /** The capacity after the next growth. */
  function Grown(cap: nat): nat { 6 * (cap / 4 + 100) }

  /** The slots that the probes of one hash visit. */
  function OrbitOf(ix: seq<nat>, n: nat): (o: seq<nat>)
    requires STRIDE * n <= |ix|
    ensures |o| == n && forall i :: 0 <= i < n ==> o[i] == ix[STRIDE * i]
  {
    if n == 0 then [] else OrbitOf(ix, n - 1) + [ix[STRIDE * (n - 1)]]
  }

  lemma {:induction false} ValuesAtMost(ix: seq<nat>)
    ensures |Values(ix)| <= |ix|
  {
    if ix != [] { ValuesAtMost(ix[..|ix| - 1]); }
  }

  /** Keys of one hash find no more places than their probes visit. */
  lemma CrowdedTable<K, V>(hash: K -> nat, ix: seq<nat>, data: seq<Entry<K, V>>, n: nat)
    requires ValidTable(hash, ix, data) && n > 0 && |ix| == STRIDE * n && forall k :: hash(k) == 0
    ensures |data| <= n
  {
    var o := OrbitOf(ix, n);
    forall x | x in UpTo(|data|) ensures x in Values(o) {
      var p := x - 1;
      assert Found(hash, ix, data, p);
      var j: nat :| EndsAt(ix, data, data[p].key, hash(data[p].key), j, p);
      OrbitSlot(n, j);
      assert o[j % n] == x;
    }
    SubsetCount(UpTo(|data|), Values(o));
    ValuesAtMost(o);
  }

  /** The capacity after this many growths. */
  function Growths(cap: nat, n: nat): nat
  {
    if n == 0 then cap else Grown(Growths(cap, n - 1))
  }

  /** The cache is resized for the number of entries the peer seeds it with, fewer than a hundred.
      After 24 entries the ninth growth gives a capacity the stride divides, and none before it. */
  lemma SeededTableMeetsTheStride(n: nat)
    requires n <= 9
    ensures Growths(6 * 24, n) % STRIDE == 0 <==> n == 9
    ensures n < 8 ==> Growths(6 * 24, n) < 33232
    ensures n == 8 ==> Growths(6 * 24, n) == 33234
    ensures n == 9 ==> Growths(6 * 24, n) == 50448
  {
    assert Growths(144, 0) == 144 && Growths(144, 1) == 816 && Growths(144, 2) == 1824;
    assert Growths(144, 3) == 3336 && Growths(144, 4) == 5604 && Growths(144, 5) == 9006;
    assert Growths(144, 6) == 14106 && Growths(144, 7) == 21756 && Growths(144, 8) == 33234;
    assert Growths(144, 9) == 50448;
  }

  /** A probe that only passes for as many steps as there are slots passes for ever. */
  lemma PassesForever<K, V>(ix: seq<nat>, data: seq<Entry<K, V>>, key: K, h: nat, t: nat)
    requires |ix| > 0 && InRange(ix, data) && PassesUntil(ix, data, key, h, |ix|)
    ensures PassesAt(ix, data, key, h, t)
    decreases t
  {
    if t >= |ix| {
      PassesForever(ix, data, key, h, t - |ix|);
      SlotRepeats(|ix|, h, t - |ix|);
    }
  }

  lemma NeverEnds<K, V>(hash: K -> nat, ix: seq<nat>, data: seq<Entry<K, V>>, key: K)
    requires |ix| > 0 && InRange(ix, data) && PassesUntil(ix, data, key, hash(key), |ix|)
    ensures !ProbeEnds(hash, ix, data, key)
  {
    forall t: nat ensures PassesAt(ix, data, key, hash(key), t) {
      PassesForever(ix, data, key, hash(key), t);
    }
  }

  /** Where a probe stops, the slot is empty and the key absent, or the slot holds the key. */
  lemma StopDecides<K, V>(hash: K -> nat, ix: seq<nat>, data: seq<Entry<K, V>>, key: K, j: nat)
    requires ValidTable(hash, ix, data) && |ix| > 0
    requires PassesUntil(ix, data, key, hash(key), j) && !PassesAt(ix, data, key, hash(key), j)
    ensures ProbeEnds(hash, ix, data, key)
    ensures ix[Slot(|ix|, hash(key), j)] == 0 <==> key !in MapOf(data)
    ensures key in MapOf(data) ==> data[ix[Slot(|ix|, hash(key), j)] - 1].key == key
  {
    if ix[Slot(|ix|, hash(key), j)] == 0 { EmptySlotMeansAbsent(hash, ix, data, key, j); } else { MapOfEntries(data); }
  }

  function Zeros(n: nat): (z: seq<nat>)
    ensures |z| == n && forall i :: 0 <= i < n ==> z[i] == 0
  {
    if n == 0 then [] else Zeros(n - 1) + [0]
  }

  // ---- The class ----------------------------------------------------------------------------------

  /** What a lookup returns: the pointer to a value, no pointer, or never. */
  datatype Lookup = At(pos: nat) | Missing | Hangs

  datatype Answer<V> = Value(value: V) | Absent | NoAnswer

  class Map<K(==), V> {
    const hash: K -> nat
    const initial: V
    var indexes: seq<nat>
    var data: seq<Entry<K, V>>

    constructor (hash: K -> nat, initial: V)
      ensures Valid() && Contents() == map[] && Capacity() == 0
      ensures this.hash == hash && this.initial == initial
    {
      this.hash, this.initial := hash, initial;
      indexes, data := [], [];
    }

    ghost predicate Valid()
      reads this
    {
      ValidTable(hash, indexes, data)
    }

    function Contents(): map<K, V>
      reads this
    {
      MapOf(data)
    }

    function Capacity(): nat
      reads this
    {
      |indexes|
    }

    predicate Full()
      reads this
    {
      |data| + 1 > Capacity() / 4
    }

    /** The capacity a lookup probes with. */
    function Probed(): nat
      reads this
    {
      if Full() then 6 * (|data| + 100) else Capacity()
    }

    /** The probe loop, stopped after as many steps as there are slots: from then on it only repeats. */
    method Probe(key: K) returns (r: Lookup, index: nat, j: nat)
      requires Valid() && Capacity() > 0
      ensures r.Hangs? <==> !ProbeEnds(hash, indexes, data, key)
      ensures !r.Hangs? ==> index == Slot(Capacity(), hash(key), j) && PassesUntil(indexes, data, key, hash(key), j)
      ensures r.Missing? ==> indexes[index] == 0 && key !in Contents()
      ensures r.At? ==> key in Contents() && r.pos < |data| && data[r.pos].key == key
    {
      var cap := |indexes|;
      index := hash(key) % cap;
      j := 0;
      while j < cap && Passes(indexes, data, key, index)
        invariant 0 <= j <= cap
        invariant index == Slot(cap, hash(key), j) && PassesUntil(indexes, data, key, hash(key), j)
      {
        PassesNext(indexes, data, key, hash(key), j);
        index := (index + STRIDE) % cap;
        j := j + 1;
      }
      if j == cap {
        NeverEnds(hash, indexes, data, key);
        r := Hangs;
      } else {
        StopDecides(hash, indexes, data, key, j);
        r := if indexes[index] == 0 then Missing else At(indexes[index] - 1);
      }
    }

    /** get: grows when a quarter is filled, probes, and on demand adds the key with the initial value. */
    method Find(key: K, ensured: bool) returns (r: Lookup)
      requires Valid()
      modifies this
      ensures Valid()
      ensures r.Hangs? ==> data == old(data) && old(Probed()) % STRIDE == 0
      ensures r.Missing? ==> data == old(data) && !ensured && key !in Contents()
      ensures r.At? ==> r.pos < |data| && data[r.pos].key == key
      ensures r.At? && key in old(Contents()) ==> data == old(data)
      ensures r.At? && key !in old(Contents()) ==> ensured && data == old(data) + [Entry(key, initial)]
      ensures !r.Hangs? ==> Capacity() == old(Probed())
      decreases if Full() then 1 else 0, 2
    {
      if Full() {
        var ok := Resize(|data| + 100);
        if !ok { return Hangs; }
      }
      if |data| == 0 && !ensured { return Missing; }
      var index, j;
      r, index, j := Probe(key);
      if r.Hangs? { ProbesEndUnlessStride(key); }
      if r.Missing? && ensured {
        PushKeepsValid(hash, indexes, data, key, initial, j);
        data := data + [Entry(key, initial)];
        indexes := indexes[index := |data|];
        r := At(|data| - 1);
      }
    }

    lemma ProbesEndUnlessStride(key: K)
      requires Valid() && Capacity() > 0 && !ProbeEnds(hash, indexes, data, key)
      ensures Capacity() % STRIDE == 0
    {
      if Capacity() % STRIDE != 0 { ProbesEndUnless(hash, indexes, data, key); }
    }

    /** Rehashes into a larger index vector; false when that never ends. */
    method Resize(target: nat) returns (ok: bool)
      requires Valid()
      modifies this
      ensures Valid() && data == old(data)
      ensures ok ==> Capacity() == if old(Capacity()) < 6 * target then 6 * target else old(Capacity())
      ensures !ok ==> Capacity() == old(Capacity()) < 6 * target && (6 * target) % STRIDE == 0
      decreases 1, 1
    {
      if Capacity() < 6 * target {
        var instance := new Map<K, V>(hash, initial);
        instance.indexes := Zeros(6 * target);
        var i := 0;
        while i < |data|
          invariant 0 <= i <= |data|
          invariant instance.Valid() && instance.Capacity() == 6 * target && instance.data == data[..i]
          invariant unchanged(this)
        {
          MapOfEntries(data[..i]);
          assert data[..i + 1] == data[..i] + [data[i]];
          ok := instance.Set(data[i].key, data[i].value);
          if !ok { return false; }
          i := i + 1;
        }
        indexes, data := instance.indexes, instance.data;
      }
      ok := true;
    }

    /** set: false when the probe never ends. */
    method Set(key: K, value: V) returns (ok: bool)
      requires Valid()
      modifies this
      ensures Valid()
      ensures ok ==> Contents() == old(Contents())[key := value] && Capacity() == old(Probed())
      ensures ok && key !in old(Contents()) ==> data == old(data) + [Entry(key, value)]
      ensures !ok ==> Contents() == old(Contents()) && old(Probed()) % STRIDE == 0
      decreases if Full() then 1 else 0, 3
    {
      var r := Find(key, true);
      ok := r.At?;
      if ok {
        SetResult(old(data), data, key, r.pos, value);
        WriteKeepsValid(hash, indexes, data, r.pos, value);
        data := data[r.pos := Entry(key, value)];
      }
    }

    /** The entry written is the key's own, or a new last one. */
    lemma SetResult(before: seq<Entry<K, V>>, after: seq<Entry<K, V>>, key: K, p: nat, value: V)
      requires DistinctKeys(before) && DistinctKeys(after) && p < |after| && after[p].key == key
      requires key in MapOf(before) ==> after == before
      requires key !in MapOf(before) ==> after == before + [Entry(key, initial)]
      ensures MapOf(after)[key := value] == MapOf(before)[key := value]
      ensures key !in MapOf(before) ==> after[p := Entry(key, value)] == before + [Entry(key, value)]
    {
      if key !in MapOf(before) {
        var n := |before|;
        AppendIsUpdate(before, key, initial);
        assert after[n].key == key;
        assert p == n;
        assert after[n := Entry(key, value)] == before + [Entry(key, value)];
      }
    }

    /** get without adding: the value of the key, or none. */
    method Get(key: K) returns (r: Answer<V>)
      requires Valid()
      modifies this
      ensures Valid() && Contents() == old(Contents())
      ensures r.Value? ==> key in Contents() && Contents()[key] == r.value
      ensures r.Absent? ==> key !in Contents()
      ensures r.NoAnswer? ==> old(Probed()) % STRIDE == 0
    {
      var l := Find(key, false);
      MapOfEntries(data);
      match l
      case At(p) => r := Value(data[p].value);
      case Missing => r := Absent;
      case Hangs => r := NoAnswer;
    }

    method Size() returns (n: nat)
      requires Valid()
      ensures n == |Contents()|
    {
      MapOfEntries(data);
      n := |data|;
    }

    method Clear()
      modifies this
      ensures Valid() && Contents() == map[] && Capacity() == 0
    {
      indexes, data := [], [];
    }
  }

  /** A map seeded with 24 entries that has grown n times and holds the keys below k, all of one hash. */
  ghost predicate Filling(m: Map<nat, nat>, k: nat, n: nat)
    reads m
  {
    m.Valid() && |m.data| == k && n <= 8 && (forall x :: m.hash(x) == 0) &&
    m.Capacity() == Growths(6 * 24, n) && k <= m.Capacity() / 4 &&
    forall p :: 0 <= p < k ==> m.data[p].key == p
  }

  lemma NewKey(m: Map<nat, nat>, k: nat, n: nat)
    requires Filling(m, k, n)
    ensures k !in m.Contents()
  {
    MapOfEntries(m.data);
  }

  /** One more key; the capacity never meets the stride. */
  method FillOne(m: Map<nat, nat>, k: nat, ghost n: nat) returns (ghost n': nat)
    requires Filling(m, k, n) && k < 8308
    modifies m
    ensures Filling(m, k + 1, n')
  {
    NewKey(m, k, n);
    SeededTableMeetsTheStride(n);
    n' := if m.Full() then n + 1 else n;
    SeededTableMeetsTheStride(n');
    assert m.Probed() == Growths(6 * 24, n');
    var ok := m.Set(k, 0);
    assert ok;
  }

  /** All goes well up to the 8308th entry; then the growth that the next lookup asks for never ends. */
  method FillSeeded() returns (m: Map<nat, nat>, ok: bool)
    ensures fresh(m) && m.Valid() && m.Full() && |m.data| == 8308
    ensures !ok
  {
    m := new Map<nat, nat>(_ => 0, 0);
    ok := m.Resize(24);
    ghost var n := 0;
    SeededTableMeetsTheStride(0);
    var k := 0;
    while k < 8308
      invariant fresh(m) && k <= 8308 && Filling(m, k, n)
    {
      n := FillOne(m, k, n);
      k := k + 1;
    }
    SeededTableMeetsTheStride(n);
    ok := m.Resize(|m.data| + 100);
    if ok { CrowdedTable(m.hash, m.indexes, m.data, 48); }
  }
}
