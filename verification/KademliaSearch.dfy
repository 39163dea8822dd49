/** The search master: three workers query nodes for the ones nearest to a key, and the caller is
    answered once. */
module KademliaSearch {

  import KBuckets
  import opened Collections

  type Key = KBuckets.Key
  type Worker = w: int | 0 <= w < 3

  const ALPHA := 3
  const MAX_OID := KBuckets.RING

  /** The key searched for, the nodes to start from, and the number of candidates kept. */
  datatype Config = Config(key: Key, nearest: seq<Key>, k: nat)
  {
    function Distance(x: Key): nat { KBuckets.Distance(key, x) }
  }

  /** The master's state and what each worker is busy with: a node, or at first none. */
  datatype State = State(
    minDistance: nat, queryable: seq<Key>, visited: set<Key>, waiting: seq<Worker>, queried: seq<Key>,
    inFlight: map<Worker, Option<Key>>)

  datatype Search = Open(s: State) | Answered(value: Option<int>, last: State)

  /** What a worker sends back. */
  datatype Reply = Nodes(nodes: set<Key>) | Value(value: int)

  function Init(c: Config): State
  {
    State(MAX_OID, c.nearest, {}, [], [], map[0 := None, 1 := None, 2 := None])
  }

  function ToSet(q: seq<Key>): set<Key> { set x | x in q }

  /** member?: exact, but that a queried node at an end of the ring may be missed while the other end
      is queried too. */
  ghost predicate Member(queried: seq<Key>, x: Key, answer: bool)
  {
    (answer ==> x in queried) &&
    (!answer ==> x !in queried || exists y :: y in queried && y != x && KBuckets.Ends(x, y))
  }

  /** The candidates left by the filter. */
  ghost predicate Candidates(c: Config, s: State, nodes: set<Key>, min: nat, left: set<Key>)
  {
    forall x :: (x in left ==> (x in s.queryable || x in nodes) && c.Distance(x) < min && Member(s.queried, x, false)) &&
      ((x in s.queryable || x in nodes) && c.Distance(x) < min && x !in left ==> Member(s.queried, x, true))
  }

  /** nearest_n: the k nearest, nearest first. */
  ghost predicate NearestN(c: Config, left: set<Key>, k: nat, q: seq<Key>)
  {
    (forall x :: x in q ==> x in left) &&
    (forall i, j :: 0 <= i < j < |q| ==> q[i] != q[j] && c.Distance(q[i]) <= c.Distance(q[j])) &&
    (|q| <= k) &&
    (forall x, y :: x in left && x !in q && y in q ==> c.Distance(y) <= c.Distance(x)) &&
    (forall x :: x in left && x !in q ==> |q| == k)
  }

  function Min(a: nat, b: nat): nat { if a < b then a else b }

  function MinAfter(c: Config, s: State, node: Option<Key>): nat
  {
    match node
    case None => Min(MAX_OID, s.minDistance)
    case Some(x) => Min(c.Distance(x), s.minDistance)
  }

  /** The workers that get the next nodes. */
  function Send(inFlight: map<Worker, Option<Key>>, pids: seq<Worker>, nexts: seq<Key>): map<Worker, Option<Key>>
    requires |pids| == |nexts|
    decreases |pids|
  {
    if pids == [] then inFlight else Send(inFlight[pids[0] := Some(nexts[0])], pids[1..], nexts[1..])
  }

  /** The state after an answer of nodes from a worker, given the sorted candidates. */
  function After(c: Config, s: State, task: Worker, nodes: set<Key>, q: seq<Key>): State
    requires task in s.inFlight
  {
    var waiting := [task] + s.waiting;
    var sends := Min(|q|, |waiting|);
    State(MinAfter(c, s, s.inFlight[task]), q[sends..], s.visited + nodes, waiting[sends..], s.queried + q[..sends],
          Send(s.inFlight - {task}, waiting[..sends], q[..sends]))
  }

  /** What sorting and filtering can give after this answer. */
  ghost predicate Picked(c: Config, s: State, task: Worker, nodes: set<Key>, left: set<Key>, q: seq<Key>)
    requires task in s.inFlight
  {
    Candidates(c, s, nodes, MinAfter(c, s, s.inFlight[task]), left) && NearestN(c, left, c.k, q)
  }

  /** The search ends when there is nothing to ask and no one being asked. */
  function Continue(after: State): Search
  {
    if after.queryable == [] && |after.waiting| == ALPHA then Answered(None, after) else Open(after)
  }

  /** The handler of a worker's answer. */
  ghost predicate Next(c: Config, s: State, task: Worker, reply: Reply, t: Search)
  {
    task in s.inFlight &&
    match reply
    case Value(v) => t == Answered(Some(v), s)
    case Nodes(nodes) =>
      exists left, q :: Picked(c, s, task, nodes, left, q) && t == Continue(After(c, s, task, nodes, q))
  }

  // ---- Invariant --------------------------------------------------------------------------------

  ghost predicate Asked(s: State, x: Key)
  {
    exists w :: w in s.inFlight && s.inFlight[w] == Some(x)
  }

  /** Each of the three workers is either waiting or busy. */
  ghost predicate Staffed(s: State)
  {
    Distinct(s.waiting) && forall w: Worker :: w in s.waiting <==> w !in s.inFlight
  }

  /** A queried node has answered, and counts in the least distance, or is still asked. */
  ghost predicate Settled(c: Config, s: State)
  {
    (forall x :: Asked(s, x) ==> x in s.queried) &&
    (forall x :: x in s.queried ==> s.minDistance <= c.Distance(x) || Asked(s, x))
  }

  /** A node that can stand for x: still to be asked or being asked, and no farther. */
  ghost predicate StandsIn(c: Config, s: State, x: Key, y: Key)
  {
    (y in s.queryable || Asked(s, y)) && c.Distance(y) <= c.Distance(x)
  }

  ghost predicate Heard(c: Config, s: State, x: Key)
  {
    x in s.visited || x in c.nearest
  }

  /** Every node heard of is no nearer than the nearest answer, or has a stand-in. */
  ghost predicate Covered(c: Config, s: State)
  {
    forall x :: Heard(c, s, x) ==> s.minDistance <= c.Distance(x) || exists y :: StandsIn(c, s, x, y)
  }

  ghost predicate Inv(c: Config, s: State)
  {
    Staffed(s) && Settled(c, s) && Covered(c, s) && s.minDistance <= MAX_OID
  }

  lemma InitInv(c: Config)
    ensures Inv(c, Init(c))
  {
    var s := Init(c);
    forall x | Heard(c, s, x) ensures exists y :: StandsIn(c, s, x, y) {
      assert StandsIn(c, s, x, x);
    }
  }

  // ---- Sending -----------------------------------------------------------------------------------

  lemma {:induction false} SendIs(inFlight: map<Worker, Option<Key>>, pids: seq<Worker>, nexts: seq<Key>)
    requires |pids| == |nexts| && Distinct(pids)
    ensures forall w :: w in Send(inFlight, pids, nexts) <==> w in inFlight || w in pids
    ensures forall i :: 0 <= i < |pids| ==> Send(inFlight, pids, nexts)[pids[i]] == Some(nexts[i])
    ensures forall w :: w in inFlight && w !in pids ==> Send(inFlight, pids, nexts)[w] == inFlight[w]
    decreases |pids|
  {
    if pids != [] {
      SendIs(inFlight[pids[0] := Some(nexts[0])], pids[1..], nexts[1..]);
      assert pids == [pids[0]] + pids[1..];
    }
  }

  /** Facts about one answer: who is asked afterwards. */
  lemma AskedAfter(c: Config, s: State, task: Worker, nodes: set<Key>, q: seq<Key>, x: Key)
    requires Staffed(s) && task in s.inFlight
    ensures var sends := Min(|q|, |s.waiting| + 1);
      Asked(After(c, s, task, nodes, q), x) <==>
        x in q[..sends] || exists w :: w in s.inFlight && w != task && s.inFlight[w] == Some(x)
  {
    var waiting := [task] + s.waiting;
    var sends := Min(|q|, |waiting|);
    var rest, pids, nexts := s.inFlight - {task}, waiting[..sends], q[..sends];
    assert Distinct(waiting);
    SendIs(rest, pids, nexts);
    var t := After(c, s, task, nodes, q);
    if x in nexts {
      var i :| 0 <= i < |nexts| && nexts[i] == x;
      assert t.inFlight[pids[i]] == Some(x);
    }
    if w :| w in s.inFlight && w != task && s.inFlight[w] == Some(x) {
      assert w !in waiting;
      assert t.inFlight[w] == Some(x);
    }
    if w :| w in t.inFlight && t.inFlight[w] == Some(x) {
      if w in pids {
        var i :| 0 <= i < |pids| && pids[i] == w;
        assert nexts[i] == x;
      }
    }
  }

  lemma StaffedAfter(c: Config, s: State, task: Worker, nodes: set<Key>, q: seq<Key>)
    requires Staffed(s) && task in s.inFlight
    ensures Staffed(After(c, s, task, nodes, q))
  {
    var waiting := [task] + s.waiting;
    var sends := Min(|q|, |waiting|);
    var pids := waiting[..sends];
    assert Distinct(waiting);
    SendIs(s.inFlight - {task}, pids, q[..sends]);
    assert waiting == pids + waiting[sends..];
    forall w: Worker ensures w in waiting[sends..] <==> w !in After(c, s, task, nodes, q).inFlight {
      assert w in waiting <==> w in pids || w in waiting[sends..];
    }
  }

  lemma SettledAfter(c: Config, s: State, task: Worker, nodes: set<Key>, q: seq<Key>)
    requires Staffed(s) && Settled(c, s) && task in s.inFlight
    ensures Settled(c, After(c, s, task, nodes, q))
  {
    var t := After(c, s, task, nodes, q);
    forall x | Asked(t, x) ensures x in t.queried {
      AskedAfter(c, s, task, nodes, q, x);
      if w :| w in s.inFlight && w != task && s.inFlight[w] == Some(x) { assert Asked(s, x); }
    }
    forall x | x in t.queried ensures t.minDistance <= c.Distance(x) || Asked(t, x) {
      AskedAfter(c, s, task, nodes, q, x);
    }
  }

  /** A candidate is kept or a kept one is no farther. */
  lemma KeptStandsIn(c: Config, s: State, task: Worker, nodes: set<Key>, left: set<Key>, q: seq<Key>, x: Key, z: Key)
    requires Staffed(s) && task in s.inFlight && NearestN(c, left, c.k, q) && c.k >= 1
    requires z in left && c.Distance(z) <= c.Distance(x)
    ensures exists y :: StandsIn(c, After(c, s, task, nodes, q), x, y)
  {
    var y := if z in q then z else q[0];
    var sends := Min(|q|, |s.waiting| + 1);
    assert q == q[..sends] + q[sends..];
    AskedAfter(c, s, task, nodes, q, y);
    assert StandsIn(c, After(c, s, task, nodes, q), x, y);
  }

  /** A node known so far and nearer than every answer is kept, being asked, or has a stand-in. */
  lemma KnownIsCovered(c: Config, s: State, task: Worker, nodes: set<Key>, left: set<Key>, q: seq<Key>, x: Key, z: Key)
    requires Staffed(s) && Settled(c, s) && task in s.inFlight && c.k >= 1
    requires Picked(c, s, task, nodes, left, q)
    requires z in s.queryable || z in nodes || Asked(s, z)
    requires c.Distance(z) <= c.Distance(x) < MinAfter(c, s, s.inFlight[task])
    ensures exists y :: StandsIn(c, After(c, s, task, nodes, q), x, y)
  {
    if z in left {
      KeptStandsIn(c, s, task, nodes, left, q, x, z);
    } else {
      assert Asked(s, z);
      AskedAfter(c, s, task, nodes, q, z);
      assert StandsIn(c, After(c, s, task, nodes, q), x, z);
    }
  }

  lemma CoveredAfter(c: Config, s: State, task: Worker, nodes: set<Key>, left: set<Key>, q: seq<Key>)
    requires Inv(c, s) && task in s.inFlight && c.k >= 1
    requires Picked(c, s, task, nodes, left, q)
    ensures Covered(c, After(c, s, task, nodes, q))
  {
    var t := After(c, s, task, nodes, q);
    forall x | Heard(c, t, x) && c.Distance(x) < t.minDistance ensures exists y :: StandsIn(c, t, x, y) {
      if Heard(c, s, x) {
        var z :| StandsIn(c, s, x, z);
        KnownIsCovered(c, s, task, nodes, left, q, x, z);
      } else {
        KnownIsCovered(c, s, task, nodes, left, q, x, x);
      }
    }
  }

  // ---- Steps --------------------------------------------------------------------------------------

  /** Waiting and busy workers are always three. */
  lemma WorkersAddUp(s: State)
    requires Staffed(s)
    ensures |s.waiting| + |s.inFlight| == ALPHA
  {
    var all: set<Worker> := {0, 1, 2};
    var idle := all - s.inFlight.Keys;
    assert forall w: Worker :: w in all;
    assert forall w :: w in s.waiting <==> w in idle;
    DistinctCount(s.waiting, idle);
    assert idle + s.inFlight.Keys == all;
    assert |s.inFlight.Keys| == |s.inFlight|;
  }

  /** Every answer keeps the invariant, never raises the least distance, and leaves someone being asked
      unless the search ends; it ends without a value only when no node heard of is nearer than the
      nearest that answered. */
  lemma NextKeepsInv(c: Config, s: State, task: Worker, reply: Reply, t: Search)
    requires Inv(c, s) && c.k >= 1 && Next(c, s, task, reply, t)
    ensures t.Open? ==> Inv(c, t.s) && t.s.inFlight != map[] && t.s.minDistance <= s.minDistance
    ensures t.Answered? && t.value == None ==> forall x :: Heard(c, t.last, x) ==> t.last.minDistance <= c.Distance(x)
    ensures t.Answered? && t.value != None ==> reply.Value? && t.value == Some(reply.value)
  {
    if reply.Nodes? {
      var left, q := NextPicks(c, s, task, reply.nodes, t);
      AfterKeepsInv(c, s, task, reply.nodes, left, q);
    }
  }

  lemma FirstAreNearest(c: Config, left: set<Key>, q: seq<Key>, n: nat)
    requires NearestN(c, left, c.k, q) && n <= |q|
    ensures forall x, y :: x in q[..n] && y in left && y !in q[..n] ==> c.Distance(x) <= c.Distance(y)
  {
    forall x, y | x in q[..n] && y in left && y !in q[..n] ensures c.Distance(x) <= c.Distance(y) {
      if y in q {
        forall j | 0 <= j < n ensures q[j] in q[..n] { assert q[..n][j] == q[j]; }
        var i, j :| 0 <= i < n && q[..n][i] == x && 0 <= j < |q| && q[j] == y;
        assert j >= n;
      }
    }
  }

  /** The free workers get the nearest candidates, all nearer than every node that has answered, and as
      many as there are of both. */
  lemma AsksNearest(c: Config, s: State, task: Worker, nodes: set<Key>, left: set<Key>, q: seq<Key>) returns (asked: seq<Key>)
    requires Staffed(s) && task in s.inFlight && Picked(c, s, task, nodes, left, q)
    ensures After(c, s, task, nodes, q).queried == s.queried + asked
    ensures |asked| == |s.waiting| + 1 || (|asked| < |s.waiting| + 1 && After(c, s, task, nodes, q).queryable == [])
    ensures forall x, y :: x in asked && y in left && y !in asked ==> c.Distance(x) <= c.Distance(y)
    ensures forall x :: x in asked ==>
      x in left && Asked(After(c, s, task, nodes, q), x) && c.Distance(x) < After(c, s, task, nodes, q).minDistance
  {
    asked := q[..Min(|q|, |s.waiting| + 1)];
    FirstAreNearest(c, left, q, |asked|);
    forall x | x in asked
      ensures x in left && Asked(After(c, s, task, nodes, q), x) && c.Distance(x) < After(c, s, task, nodes, q).minDistance
    {
      assert x in q;
      AskedAfter(c, s, task, nodes, q, x);
    }
  }

  lemma NextPicks(c: Config, s: State, task: Worker, nodes: set<Key>, t: Search) returns (left: set<Key>, q: seq<Key>)
    requires Next(c, s, task, Nodes(nodes), t)
    ensures Picked(c, s, task, nodes, left, q) && t == Continue(After(c, s, task, nodes, q))
  {
    left, q :| Picked(c, s, task, nodes, left, q) && t == Continue(After(c, s, task, nodes, q));
  }

  lemma AfterKeepsInv(c: Config, s: State, task: Worker, nodes: set<Key>, left: set<Key>, q: seq<Key>)
    requires Inv(c, s) && c.k >= 1 && task in s.inFlight && Picked(c, s, task, nodes, left, q)
    ensures var after := After(c, s, task, nodes, q);
      Inv(c, after) && |after.waiting| + |after.inFlight| == ALPHA &&
      (|after.waiting| == ALPHA ==> after.queryable == []) &&
      (|after.waiting| == ALPHA ==> forall x :: Heard(c, after, x) ==> after.minDistance <= c.Distance(x))
  {
    var after := After(c, s, task, nodes, q);
    StaffedAfter(c, s, task, nodes, q);
    SettledAfter(c, s, task, nodes, q);
    CoveredAfter(c, s, task, nodes, left, q);
    WorkersAddUp(after);
    WorkersAddUp(s);
    if |after.waiting| == ALPHA { NobodyLeft(c, after); }
  }

  lemma NobodyLeft(c: Config, s: State)
    requires Covered(c, s) && s.queryable == [] && |s.inFlight| == 0
    ensures forall x :: Heard(c, s, x) ==> s.minDistance <= c.Distance(x)
  {
    assert s.inFlight == map[];
    assert forall x, y :: !StandsIn(c, s, x, y);
  }

  // ---- Runs ---------------------------------------------------------------------------------------

  /** A worker's first answer, before it was given a node, names none. */
  ghost predicate Answers(u: set<Key>, s: State, task: Worker, nodes: set<Key>)
  {
    nodes <= u && (task in s.inFlight && s.inFlight[task] == None ==> nodes == {})
  }

  /** One answer with nodes from u after which the search goes on. */
  ghost predicate Goes(c: Config, u: set<Key>, s: State, t: State)
  {
    exists task, nodes :: Answers(u, s, task, nodes) && Next(c, s, task, Nodes(nodes), Open(t))
  }

  /** The states of a search, when every node that is ever named belongs to u. */
  ghost predicate IsRun(c: Config, u: set<Key>, run: seq<State>)
  {
    run != [] && run[0] == Init(c) && forall i :: 0 < i < |run| ==> Goes(c, u, run[i - 1], run[i])
  }

  lemma Going(c: Config, u: set<Key>, s: State, t: State)
      returns (task: Worker, nodes: set<Key>, left: set<Key>, q: seq<Key>)
    requires Goes(c, u, s, t)
    ensures Answers(u, s, task, nodes) && task in s.inFlight && Picked(c, s, task, nodes, left, q)
    ensures Continue(After(c, s, task, nodes, q)).Open? && t == After(c, s, task, nodes, q)
  {
    task, nodes :| Answers(u, s, task, nodes) && Next(c, s, task, Nodes(nodes), Open(t));
    left, q := NextPicks(c, s, task, nodes, Open(t));
  }

  /** The least distance is that of a node that was queried. */
  ghost predicate Attained(c: Config, s: State)
  {
    s.minDistance == MAX_OID || exists x :: x in s.queried && c.Distance(x) == s.minDistance
  }

  lemma AttainedAfter(c: Config, s: State, task: Worker, nodes: set<Key>, q: seq<Key>)
    requires Settled(c, s) && Attained(c, s) && task in s.inFlight && s.minDistance <= MAX_OID
    ensures Attained(c, After(c, s, task, nodes, q))
  {
    var t := After(c, s, task, nodes, q);
    if s.inFlight[task].Some? && c.Distance(s.inFlight[task].value) < s.minDistance {
      assert Asked(s, s.inFlight[task].value);
    } else if x :| x in s.queried && c.Distance(x) == s.minDistance {
      assert x in t.queried;
    }
  }

  lemma DistanceBelowMax(c: Config, x: Key)
    ensures c.Distance(x) < MAX_OID
  {
    KBuckets.NumberBelowRing(c.key);
    KBuckets.NumberBelowRing(x);
  }

  /** Every reached state is sound, and answers are counted by queries: the three first ones and one for
      each node that was queried and is not being asked. */
  lemma {:induction false} RunIsSound(c: Config, u: set<Key>, run: seq<State>, n: nat)
    requires IsRun(c, u, run) && c.k >= 1 && n < |run|
    ensures Sound(c, n, run[n])
    ensures n > 0 ==> run[n].minDistance <= run[n - 1].minDistance
    decreases n
  {
    if n == 0 {
      InitIsSound(c);
    } else {
      RunIsSound(c, u, run, n - 1);
      var task, nodes, left, q := Going(c, u, run[n - 1], run[n]);
      SoundAfter(c, n - 1, run[n - 1], task, nodes, left, q);
    }
  }

  lemma InitIsSound(c: Config)
    ensures Sound(c, 0, Init(c))
  {
    InitInv(c);
    WorkersAddUp(Init(c));
    assert 0 in Init(c).inFlight;
  }

  ghost predicate Sound(c: Config, n: nat, s: State)
  {
    Inv(c, s) && Attained(c, s) && |s.inFlight| > 0 && |s.waiting| + |s.inFlight| == ALPHA &&
    n + |s.inFlight| == ALPHA + |s.queried|
  }

  lemma SoundAfter(c: Config, n: nat, s: State, task: Worker, nodes: set<Key>, left: set<Key>, q: seq<Key>)
    requires Sound(c, n, s) && c.k >= 1 && task in s.inFlight && Picked(c, s, task, nodes, left, q)
    requires Continue(After(c, s, task, nodes, q)).Open?
    ensures Sound(c, n + 1, After(c, s, task, nodes, q)) && After(c, s, task, nodes, q).minDistance <= s.minDistance
  {
    AfterKeepsInv(c, s, task, nodes, left, q);
    AttainedAfter(c, s, task, nodes, q);
  }

  // ---- The search ends --------------------------------------------------------------------------------

  /** Only nodes of u are known. */
  ghost predicate Within(s: State, u: set<Key>)
  {
    forall x :: x in s.queried || x in s.queryable ==> x in u
  }

  lemma WithinAfter(c: Config, s: State, task: Worker, nodes: set<Key>, left: set<Key>, q: seq<Key>, u: set<Key>)
    requires task in s.inFlight && Within(s, u) && nodes <= u && Picked(c, s, task, nodes, left, q)
    ensures Within(After(c, s, task, nodes, q), u)
  {
    var sends := Min(|q|, |s.waiting| + 1);
    assert q == q[..sends] + q[sends..];
    forall x | x in q ensures x in u { assert x in left; }
  }

  /** The workers that are asking a node. */
  ghost function Askers(inFlight: map<Worker, Option<Key>>, x: Key): set<Worker>
  {
    set w: Worker | w in inFlight && inFlight[w] == Some(x)
  }

  lemma AskersBound(inFlight: map<Worker, Option<Key>>, x: Key)
    ensures |Askers(inFlight, x)| <= ALPHA
  {
    var all: set<Worker> := {0, 1, 2};
    assert forall w: Worker :: w in all;
    SubsetCount(Askers(inFlight, x), all);
  }

  /** As long as a node is nearer than every answer, each of its queries is still being asked; so it is
      queried at most three times. */
  ghost predicate Metered(c: Config, s: State)
  {
    forall x :: multiset(s.queried)[x] <= ALPHA &&
      (c.Distance(x) < s.minDistance ==> multiset(s.queried)[x] <= |Askers(s.inFlight, x)|)
  }

  lemma {:induction false} CountInDistinct(q: seq<Key>, x: Key)
    requires Distinct(q)
    ensures multiset(q)[x] == if x in q then 1 else 0
    decreases |q|
  {
    if q != [] {
      var n := |q| - 1;
      assert q == q[..n] + [q[n]];
      CountInDistinct(q[..n], x);
    }
  }

  /** Who is busy after an answer: the others as before, and the workers that got the next nodes. */
  ghost predicate Sends(before: map<Worker, Option<Key>>, task: Worker, pids: seq<Worker>, nexts: seq<Key>, after: map<Worker, Option<Key>>)
    requires |pids| == |nexts|
  {
    Distinct(pids) &&
    (forall i :: 0 <= i < |pids| ==> pids[i] in after && after[pids[i]] == Some(nexts[i])) &&
    (forall w :: w in before && w != task ==> w !in pids && w in after && after[w] == before[w]) &&
    (forall w :: w in after && w !in pids ==> w in before && w != task)
  }

  lemma AfterSends(c: Config, s: State, task: Worker, nodes: set<Key>, q: seq<Key>) returns (pids: seq<Worker>, nexts: seq<Key>)
    requires Staffed(s) && task in s.inFlight
    ensures nexts == q[..Min(|q|, |s.waiting| + 1)] && |pids| == |nexts|
    ensures Sends(s.inFlight, task, pids, nexts, After(c, s, task, nodes, q).inFlight)
    ensures After(c, s, task, nodes, q).queried == s.queried + nexts
  {
    var waiting := [task] + s.waiting;
    var sends := Min(|q|, |waiting|);
    pids, nexts := waiting[..sends], q[..sends];
    assert Distinct(waiting);
    SendIs(s.inFlight - {task}, pids, nexts);
    forall w | w in s.inFlight && w != task ensures w !in pids { assert w !in waiting; }
  }

  /** The askers of a node, but for the worker that answered: those before, and the one it is sent to. */
  lemma AskersAfter(before: map<Worker, Option<Key>>, task: Worker, pids: seq<Worker>, nexts: seq<Key>,
                    after: map<Worker, Option<Key>>, x: Key)
    requires |pids| == |nexts| && Sends(before, task, pids, nexts, after) && Distinct(nexts)
    requires task in before && before[task] != Some(x)
    ensures |Askers(after, x)| == |Askers(before, x)| + if x in nexts then 1 else 0
  {
    forall w | w in pids && w in Askers(after, x) ensures exists i :: 0 <= i < |pids| && pids[i] == w && nexts[i] == x {
      var i :| 0 <= i < |pids| && pids[i] == w;
    }
    if x in nexts {
      var i :| 0 <= i < |nexts| && nexts[i] == x;
      assert Askers(after, x) == Askers(before, x) + {pids[i]};
    } else {
      assert Askers(after, x) == Askers(before, x);
    }
  }

  lemma MeteredAfter(c: Config, s: State, task: Worker, nodes: set<Key>, left: set<Key>, q: seq<Key>)
    requires Staffed(s) && Metered(c, s) && task in s.inFlight && Picked(c, s, task, nodes, left, q)
    ensures Metered(c, After(c, s, task, nodes, q))
  {
    var t := After(c, s, task, nodes, q);
    forall x ensures multiset(t.queried)[x] <= ALPHA
      ensures c.Distance(x) < t.minDistance ==> multiset(t.queried)[x] <= |Askers(t.inFlight, x)|
    {
      MeteredAt(c, s, task, nodes, left, q, x);
    }
  }

  lemma MeteredAt(c: Config, s: State, task: Worker, nodes: set<Key>, left: set<Key>, q: seq<Key>, x: Key)
    requires Staffed(s) && Metered(c, s) && task in s.inFlight && Picked(c, s, task, nodes, left, q)
    ensures var t := After(c, s, task, nodes, q);
      multiset(t.queried)[x] <= ALPHA &&
      (c.Distance(x) < t.minDistance ==> multiset(t.queried)[x] <= |Askers(t.inFlight, x)|)
  {
    var t := After(c, s, task, nodes, q);
    var pids: seq<Worker>, nexts: seq<Key> := AfterSends(c, s, task, nodes, q);
    CountInDistinct(nexts, x);
    assert multiset(t.queried)[x] == multiset(s.queried)[x] + multiset(nexts)[x];
    if c.Distance(x) < t.minDistance {
      AskersAfter(s.inFlight, task, pids, nexts, t.inFlight, x);
      AskersBound(t.inFlight, x);
    } else {
      NotSent(c, s, task, nodes, left, q, x);
    }
  }

  lemma NotSent(c: Config, s: State, task: Worker, nodes: set<Key>, left: set<Key>, q: seq<Key>, x: Key)
    requires task in s.inFlight && Picked(c, s, task, nodes, left, q)
    requires c.Distance(x) >= MinAfter(c, s, s.inFlight[task])
    ensures x !in q
  {
    assert x in q ==> x in left;
  }

  lemma MeteredGoes(c: Config, u: set<Key>, s: State, t: State)
    requires Staffed(s) && Metered(c, s) && Within(s, u) && Goes(c, u, s, t)
    ensures Metered(c, t) && Within(t, u)
  {
    var task, nodes, left, q := Going(c, u, s, t);
    MeteredAfter(c, s, task, nodes, left, q);
    WithinAfter(c, s, task, nodes, left, q, u);
  }

  lemma InitIsMetered(c: Config, u: set<Key>)
    requires forall x :: x in c.nearest ==> x in u
    ensures Metered(c, Init(c)) && Within(Init(c), u)
  {
  }

  lemma RunIsStaffed(c: Config, u: set<Key>, run: seq<State>, n: nat)
    requires IsRun(c, u, run) && c.k >= 1 && n < |run|
    ensures Staffed(run[n])
  {
    RunIsSound(c, u, run, n);
  }

  lemma {:induction false} RunIsMetered(c: Config, u: set<Key>, run: seq<State>, n: nat)
    requires IsRun(c, u, run) && c.k >= 1 && n < |run| && forall x :: x in c.nearest ==> x in u
    ensures Metered(c, run[n]) && Within(run[n], u)
    decreases n
  {
    if n == 0 {
      InitIsMetered(c, u);
    } else {
      RunIsMetered(c, u, run, n - 1);
      RunIsStaffed(c, u, run, n - 1);
      MeteredGoes(c, u, run[n - 1], run[n]);
    }
  }

  lemma {:induction false} MultisetBound(m: multiset<Key>, u: set<Key>)
    requires forall x :: m[x] <= ALPHA && (x in m ==> x in u)
    ensures |m| <= ALPHA * |u|
    decreases |u|
  {
    if u == {} {
      assert m == multiset{};
    } else {
      var x :| x in u;
      MultisetBound(m[x := 0], u - {x});
    }
  }

  /** On every finite set of nodes the search ends: no run has more than three states for each node and
      three besides, and in every unfinished state another answer is due. */
  lemma SearchEnds(c: Config, u: set<Key>, run: seq<State>)
    requires IsRun(c, u, run) && c.k >= 1 && forall x :: x in c.nearest ==> x in u
    ensures |run| <= ALPHA + ALPHA * |u| && |run[|run| - 1].inFlight| > 0
  {
    var n := |run| - 1;
    RunIsSound(c, u, run, n);
    RunIsMetered(c, u, run, n);
    MultisetBound(multiset(run[n].queried), u);
  }

  lemma DistinctWithin(q: seq<Key>, u: set<Key>)
    requires Distinct(q) && forall x :: x in q ==> x in u
    ensures |q| <= |u|
  {
    DistinctCount(q, ToSet(q));
    SubsetCount(ToSet(q), u);
  }

  /** Where no node is queried twice one state for each node will do. */
  lemma SearchEndsSooner(c: Config, u: set<Key>, run: seq<State>)
    requires IsRun(c, u, run) && c.k >= 1 && Distinct(run[|run| - 1].queried) && forall x :: x in c.nearest ==> x in u
    ensures |run| <= ALPHA + |u|
  {
    var n := |run| - 1;
    RunIsSound(c, u, run, n);
    RunIsMetered(c, u, run, n);
    DistinctWithin(run[n].queried, u);
  }

  /** When the caller is answered without a value, some queried node is as near as any node heard of. */
  lemma AnswerIsNearest(c: Config, u: set<Key>, run: seq<State>, task: Worker, nodes: set<Key>, last: State, x: Key)
    requires IsRun(c, u, run) && c.k >= 1
    requires Next(c, run[|run| - 1], task, Nodes(nodes), Answered(None, last))
    requires Heard(c, last, x)
    ensures exists z :: z in last.queried && c.Distance(z) <= c.Distance(x)
  {
    var s := run[|run| - 1];
    RunIsSound(c, u, run, |run| - 1);
    var left, q := NextPicks(c, s, task, nodes, Answered(None, last));
    AfterKeepsInv(c, s, task, nodes, left, q);
    AttainedAfter(c, s, task, nodes, q);
    DistanceBelowMax(c, x);
  }

  // ---- Every answer is handled -----------------------------------------------------------------------

  lemma {:induction false} NearestOne(c: Config, left: set<Key>) returns (x: Key)
    requires left != {}
    ensures x in left && forall y :: y in left ==> c.Distance(x) <= c.Distance(y)
    decreases |left|
  {
    x :| x in left;
    if left != {x} {
      assert left == (left - {x}) + {x};
      var y := NearestOne(c, left - {x});
      if c.Distance(y) < c.Distance(x) { x := y; }
    }
  }

  /** Any finite set can be sorted and cut. */
  lemma {:induction false} NearestExists(c: Config, left: set<Key>, k: nat) returns (q: seq<Key>)
    ensures NearestN(c, left, k, q)
    decreases |left|
  {
    if left == {} || k == 0 {
      q := [];
    } else {
      var x := NearestOne(c, left);
      var rest := NearestExists(c, left - {x}, k - 1);
      q := [x] + rest;
      NearestFirst(c, left, k, x, rest);
    }
  }

  lemma NearestFirst(c: Config, left: set<Key>, k: nat, x: Key, rest: seq<Key>)
    requires k > 0 && x in left && (forall y :: y in left ==> c.Distance(x) <= c.Distance(y))
    requires NearestN(c, left - {x}, k - 1, rest)
    ensures NearestN(c, left, k, [x] + rest)
  {
    var q := [x] + rest;
    forall i | 0 < i < |q| ensures q[i] == rest[i - 1] && q[i] in left - {x} {
      assert rest[i - 1] in rest;
    }
    forall i, j | 0 <= i < j < |q| ensures q[i] != q[j] && c.Distance(q[i]) <= c.Distance(q[j]) {
      assert q[j] == rest[j - 1];
      if i > 0 { assert q[i] == rest[i - 1]; }
    }
  }

  /** Whatever a worker that is being asked answers, the master has a next state. */
  lemma AnswerIsHandled(c: Config, s: State, task: Worker, reply: Reply)
    requires task in s.inFlight
    ensures exists t :: Next(c, s, task, reply, t)
  {
    match reply
    case Value(v) => assert Next(c, s, task, reply, Answered(Some(v), s));
    case Nodes(nodes) =>
      var min := MinAfter(c, s, s.inFlight[task]);
      var left := set x | x in ToSet(s.queryable) + nodes && c.Distance(x) < min && x !in s.queried;
      var q := NearestExists(c, left, c.k);
      assert Picked(c, s, task, nodes, left, q);
      assert Next(c, s, task, reply, Continue(After(c, s, task, nodes, q)));
  }

  // ---- When a node is queried twice -------------------------------------------------------------------

  /** Still to be asked, or being asked. */
  ghost predicate Alive(s: State, x: Key)
  {
    x in s.queryable || Asked(s, x)
  }

  ghost predicate SingleAsk(s: State)
  {
    forall v, w :: v in s.inFlight && w in s.inFlight && v != w && s.inFlight[v].Some? ==> s.inFlight[v] != s.inFlight[w]
  }

  /** No node has been queried twice, no queried one is a candidate, and no two workers ask one node. */
  ghost predicate NoRepeat(s: State, u: set<Key>)
  {
    Distinct(s.queried) && Within(s, u) && (forall x :: x in s.queryable ==> x !in s.queried) && SingleAsk(s)
  }

  /** Both ends of the ring and a node farther away, none of them answered for. */
  ghost predicate Crowd(c: Config, s: State, a: Key, b: Key, x: Key)
  {
    Alive(s, a) && Alive(s, b) && Alive(s, x) && a != b && KBuckets.Ends(a, b) &&
    c.Distance(a) < c.Distance(x) && c.Distance(a) < s.minDistance
  }

  /** Nodes that can bring about a second query: both ends of the ring and a node farther away than they
      are; with only two candidates kept, two such nodes. */
  ghost predicate Crossed(c: Config, u: set<Key>)
  {
    exists a, b, x :: a in u && b in u && x in u && a != b && KBuckets.Ends(a, b) && c.Distance(a) < c.Distance(x) &&
      (c.k >= 3 || (c.k == 2 && exists y :: y in u && y != x && c.Distance(a) < c.Distance(y)))
  }

  /** With at most one candidate kept only one node is alive; otherwise there is no crowd. */
  ghost predicate Uncrowded(c: Config, s: State)
  {
    (c.k <= 1 ==> forall x, y :: Alive(s, x) && Alive(s, y) ==> x == y) &&
    (forall a, b, x :: !Crowd(c, s, a, b, x))
  }

  ghost predicate Quiet(c: Config, u: set<Key>, s: State)
  {
    Staffed(s) && Settled(c, s) && NoRepeat(s, u)
  }

  /** A candidate has not been queried before: only an end of the ring could be missed among the queried
      nodes, and then both ends and the farther node that just answered would have been asked at once. */
  lemma FreshCandidate(c: Config, u: set<Key>, s: State, task: Worker, nodes: set<Key>, left: set<Key>, q: seq<Key>, x: Key)
    requires Quiet(c, u, s) && (forall a, b, z :: !Crowd(c, s, a, b, z))
    requires task in s.inFlight && Answers(u, s, task, nodes) && Picked(c, s, task, nodes, left, q)
    requires x in q
    ensures x !in s.queried
  {
    assert x in left;
    if x in s.queried {
      assert Member(s.queried, x, false);
      var y :| y in s.queried && y != x && KBuckets.Ends(x, y);
      KBuckets.EndsEquallyFar(c.key, x, y);
      assert Asked(s, x) && Asked(s, y);
      var node := s.inFlight[task];
      if node.Some? {
        assert Asked(s, node.value);
        assert Crowd(c, s, x, y, node.value);
      }
    }
  }

  lemma SplitStaysApart(a: seq<Key>, q: seq<Key>, n: nat)
    requires n <= |q| && Distinct(a) && Distinct(q) && forall x :: x in q ==> x !in a
    ensures Distinct(a + q[..n]) && forall x :: x in q[n..] ==> x !in a + q[..n]
    ensures forall x :: x in q[n..] || x in q[..n] ==> x in q
  {
    assert forall i :: 0 <= i < |q| ==> q[i] in q;
    assert q == q[..n] + q[n..];
    forall i | n <= i < |q| ensures q[i] !in q[..n] {
    }
  }

  /** A worker that is busy afterwards got a next node, or asks a node queried before. */
  lemma BusyWith(before: map<Worker, Option<Key>>, task: Worker, pids: seq<Worker>, nexts: seq<Key>,
                 after: map<Worker, Option<Key>>, w: Worker) returns (i: int)
    requires |pids| == |nexts| && Sends(before, task, pids, nexts, after) && w in after
    ensures 0 <= i < |pids| ==> pids[i] == w && after[w] == Some(nexts[i])
    ensures !(0 <= i < |pids|) ==> w in before && w != task && after[w] == before[w]
  {
    i := -1;
    if w in pids { i :| 0 <= i < |pids| && pids[i] == w; }
  }

  lemma SingleAskAfter(c: Config, s: State, task: Worker, nodes: set<Key>, q: seq<Key>)
    requires Staffed(s) && Settled(c, s) && SingleAsk(s) && task in s.inFlight && Distinct(q)
    requires forall x :: x in q ==> x !in s.queried
    ensures SingleAsk(After(c, s, task, nodes, q))
  {
    var pids, nexts := AfterSends(c, s, task, nodes, q);
    assert forall i :: 0 <= i < |nexts| ==> nexts[i] in q;
    forall w | w in s.inFlight && s.inFlight[w].Some? ensures s.inFlight[w].value in s.queried {
      assert Asked(s, s.inFlight[w].value);
    }
    SingleAskSends(s, task, pids, nexts, After(c, s, task, nodes, q));
  }

  lemma SingleAskSends(s: State, task: Worker, pids: seq<Worker>, nexts: seq<Key>, t: State)
    requires |pids| == |nexts| && Sends(s.inFlight, task, pids, nexts, t.inFlight) && SingleAsk(s) && Distinct(nexts)
    requires forall i :: 0 <= i < |nexts| ==> nexts[i] !in s.queried
    requires forall w :: w in s.inFlight && s.inFlight[w].Some? ==> s.inFlight[w].value in s.queried
    ensures SingleAsk(t)
  {
    forall v, w | v in t.inFlight && w in t.inFlight && v != w && t.inFlight[v].Some? ensures t.inFlight[v] != t.inFlight[w] {
      var i := BusyWith(s.inFlight, task, pids, nexts, t.inFlight, v);
      var j := BusyWith(s.inFlight, task, pids, nexts, t.inFlight, w);
    }
  }

  lemma QuietAfter(c: Config, u: set<Key>, s: State, task: Worker, nodes: set<Key>, left: set<Key>, q: seq<Key>)
    requires Quiet(c, u, s) && (forall a, b, z :: !Crowd(c, s, a, b, z))
    requires task in s.inFlight && Answers(u, s, task, nodes) && Picked(c, s, task, nodes, left, q)
    ensures Quiet(c, u, After(c, s, task, nodes, q))
  {
    forall x | x in q ensures x !in s.queried { FreshCandidate(c, u, s, task, nodes, left, q, x); }
    StaffedAfter(c, s, task, nodes, q);
    SettledAfter(c, s, task, nodes, q);
    WithinAfter(c, s, task, nodes, left, q, u);
    SplitStaysApart(s.queried, q, Min(|q|, |s.waiting| + 1));
    SingleAskAfter(c, s, task, nodes, q);
  }

  /** Who is alive after an answer was kept as a candidate, or is asked by another worker. */
  lemma AliveAfter(c: Config, s: State, task: Worker, nodes: set<Key>, q: seq<Key>, x: Key)
    requires Staffed(s) && task in s.inFlight && Alive(After(c, s, task, nodes, q), x)
    ensures x in q || exists w :: w in s.inFlight && w != task && s.inFlight[w] == Some(x)
  {
    var sends := Min(|q|, |s.waiting| + 1);
    assert q == q[..sends] + q[sends..];
    AskedAfter(c, s, task, nodes, q, x);
  }

  /** After a first answer, which names no node, nobody is alive who was not before. */
  lemma FirstAnswerAddsNone(c: Config, u: set<Key>, s: State, task: Worker, nodes: set<Key>, left: set<Key>, q: seq<Key>, x: Key)
    requires Staffed(s) && task in s.inFlight && s.inFlight[task] == None
    requires Answers(u, s, task, nodes) && Picked(c, s, task, nodes, left, q)
    requires Alive(After(c, s, task, nodes, q), x)
    ensures Alive(s, x)
  {
    AliveAfter(c, s, task, nodes, q, x);
    assert x in q ==> x in left;
  }

  lemma AskedAlone(s: State, z: Key, task: Worker, w: Worker)
    requires SingleAsk(s) && (forall p, r :: Alive(s, p) && Alive(s, r) ==> p == r)
    requires task in s.inFlight && w in s.inFlight && w != task && s.inFlight[task] == Some(z) && Alive(s, z)
    ensures s.inFlight[w] == None
  {
    BusyIsAlive(s, w);
  }

  lemma BusyIsAlive(s: State, w: Worker)
    requires w in s.inFlight
    ensures s.inFlight[w].Some? ==> Alive(s, s.inFlight[w].value)
  {
    if s.inFlight[w].Some? { assert Asked(s, s.inFlight[w].value); }
  }

  /** With one candidate kept at most, a node that answers was the only one alive. */
  lemma OneStaysAlone(c: Config, u: set<Key>, s: State, task: Worker, nodes: set<Key>, left: set<Key>, q: seq<Key>, x: Key, y: Key)
    requires c.k <= 1 && Staffed(s) && SingleAsk(s) && (forall p, r :: Alive(s, p) && Alive(s, r) ==> p == r)
    requires task in s.inFlight && Answers(u, s, task, nodes) && Picked(c, s, task, nodes, left, q)
    requires Alive(After(c, s, task, nodes, q), x) && Alive(After(c, s, task, nodes, q), y)
    ensures x == y
  {
    if s.inFlight[task] == None {
      FirstAnswerAddsNone(c, u, s, task, nodes, left, q, x);
      FirstAnswerAddsNone(c, u, s, task, nodes, left, q, y);
    } else {
      var z := s.inFlight[task].value;
      assert Asked(s, z) && Alive(s, z);
      AliveAfter(c, s, task, nodes, q, x);
      AliveAfter(c, s, task, nodes, q, y);
      forall w | w in s.inFlight && w != task ensures s.inFlight[w] == None {
        AskedAlone(s, z, task, w);
      }
    }
  }

  /** With two candidates kept and a single node beyond the ends, that node has answered before both
      ends are alive with it. */
  lemma NoNewCrowd(c: Config, u: set<Key>, s: State, task: Worker, nodes: set<Key>, left: set<Key>, q: seq<Key>, a: Key, b: Key, x: Key)
    requires Quiet(c, u, s) && !Crowd(c, s, a, b, x) && c.k == 2 && !Crossed(c, u)
    requires task in s.inFlight && Answers(u, s, task, nodes) && Picked(c, s, task, nodes, left, q)
    requires Quiet(c, u, After(c, s, task, nodes, q))
    ensures !Crowd(c, After(c, s, task, nodes, q), a, b, x)
  {
    var t := After(c, s, task, nodes, q);
    if Crowd(c, t, a, b, x) {
      AliveIsWithin(c, u, t, a);
      AliveIsWithin(c, u, t, b);
      AliveIsWithin(c, u, t, x);
      if s.inFlight[task] == None {
        FirstAnswerAddsNone(c, u, s, task, nodes, left, q, a);
        FirstAnswerAddsNone(c, u, s, task, nodes, left, q, b);
        FirstAnswerAddsNone(c, u, s, task, nodes, left, q, x);
      } else {
        var z := s.inFlight[task].value;
        assert Asked(s, z);
        OneFarther(c, u, a, b, x, z);
        AnsweredIsGone(c, s, task, nodes, left, q, x);
      }
    }
  }

  lemma OneFarther(c: Config, u: set<Key>, a: Key, b: Key, x: Key, z: Key)
    requires c.k == 2 && !Crossed(c, u) && a in u && b in u && x in u && z in u
    requires a != b && KBuckets.Ends(a, b) && c.Distance(a) < c.Distance(x) && c.Distance(a) < c.Distance(z)
    ensures x == z
  {
  }

  lemma AnsweredIsGone(c: Config, s: State, task: Worker, nodes: set<Key>, left: set<Key>, q: seq<Key>, x: Key)
    requires Staffed(s) && SingleAsk(s) && task in s.inFlight && s.inFlight[task] == Some(x)
    requires Picked(c, s, task, nodes, left, q)
    ensures !Alive(After(c, s, task, nodes, q), x)
  {
    if Alive(After(c, s, task, nodes, q), x) {
      AliveAfter(c, s, task, nodes, q, x);
      NotSent(c, s, task, nodes, left, q, x);
    }
  }

  lemma AliveIsWithin(c: Config, u: set<Key>, s: State, x: Key)
    requires Settled(c, s) && Within(s, u) && Alive(s, x)
    ensures x in u
  {
  }

  lemma UncrowdedAfter(c: Config, u: set<Key>, s: State, task: Worker, nodes: set<Key>, left: set<Key>, q: seq<Key>)
    requires Quiet(c, u, s) && Uncrowded(c, s) && !Crossed(c, u)
    requires task in s.inFlight && Answers(u, s, task, nodes) && Picked(c, s, task, nodes, left, q)
    ensures Quiet(c, u, After(c, s, task, nodes, q)) && Uncrowded(c, After(c, s, task, nodes, q))
  {
    var t := After(c, s, task, nodes, q);
    QuietAfter(c, u, s, task, nodes, left, q);
    if c.k <= 1 {
      forall x, y | Alive(t, x) && Alive(t, y) ensures x == y { OneStaysAlone(c, u, s, task, nodes, left, q, x, y); }
    } else if c.k == 2 {
      forall a, b, x ensures !Crowd(c, t, a, b, x) { NoNewCrowd(c, u, s, task, nodes, left, q, a, b, x); }
    } else {
      forall a, b, x ensures !Crowd(c, t, a, b, x) { NeverCrowd(c, u, t, a, b, x); }
    }
  }

  lemma NeverCrowd(c: Config, u: set<Key>, t: State, a: Key, b: Key, x: Key)
    requires Quiet(c, u, t) && c.k >= 3 && !Crossed(c, u)
    ensures !Crowd(c, t, a, b, x)
  {
    if Crowd(c, t, a, b, x) {
      AliveIsWithin(c, u, t, a);
      AliveIsWithin(c, u, t, b);
      AliveIsWithin(c, u, t, x);
    }
  }

  lemma InitIsQuiet(c: Config, u: set<Key>)
    requires forall x :: x in c.nearest ==> x in u
    ensures Quiet(c, u, Init(c)) && forall x :: !Asked(Init(c), x)
  {
    InitInv(c);
  }

  /** The first answer of all cuts the candidates, so that no crowd is left. */
  lemma FirstIsUncrowded(c: Config, u: set<Key>, task: Worker, nodes: set<Key>, left: set<Key>, q: seq<Key>)
    requires (forall x :: x in c.nearest ==> x in u) && !Crossed(c, u)
    requires task in Init(c).inFlight && Answers(u, Init(c), task, nodes) && Picked(c, Init(c), task, nodes, left, q)
    ensures Quiet(c, u, After(c, Init(c), task, nodes, q)) && Uncrowded(c, After(c, Init(c), task, nodes, q))
  {
    var s, t := Init(c), After(c, Init(c), task, nodes, q);
    InitIsQuiet(c, u);
    forall x | x in q ensures x !in s.queried { }
    QuietFromStart(c, u, task, nodes, left, q);
    forall x | Alive(t, x) ensures x in q { AliveAfter(c, s, task, nodes, q, x); }
    if c.k >= 3 {
      forall a, b, x ensures !Crowd(c, t, a, b, x) { NeverCrowd(c, u, t, a, b, x); }
    } else {
      forall a, b, x ensures !Crowd(c, t, a, b, x) {
        if Crowd(c, t, a, b, x) {
          KBuckets.EndsEquallyFar(c.key, a, b);
          ThreeInTwo(q, a, b, x);
        }
      }
    }
  }

  lemma ThreeInTwo(q: seq<Key>, a: Key, b: Key, x: Key)
    requires |q| <= 2 && a in q && b in q && x in q
    ensures a == b || a == x || b == x
  {
  }

  lemma QuietFromStart(c: Config, u: set<Key>, task: Worker, nodes: set<Key>, left: set<Key>, q: seq<Key>)
    requires forall x :: x in c.nearest ==> x in u
    requires task in Init(c).inFlight && Answers(u, Init(c), task, nodes) && Picked(c, Init(c), task, nodes, left, q)
    ensures Quiet(c, u, After(c, Init(c), task, nodes, q))
  {
    var s := Init(c);
    InitIsQuiet(c, u);
    StaffedAfter(c, s, task, nodes, q);
    SettledAfter(c, s, task, nodes, q);
    WithinAfter(c, s, task, nodes, left, q, u);
    SplitStaysApart(s.queried, q, Min(|q|, |s.waiting| + 1));
    SingleAskAfter(c, s, task, nodes, q);
  }

  lemma {:induction false} RunIsQuiet(c: Config, u: set<Key>, run: seq<State>, n: nat)
    requires IsRun(c, u, run) && n < |run| && !Crossed(c, u) && forall x :: x in c.nearest ==> x in u
    ensures Quiet(c, u, run[n]) && (n > 0 ==> Uncrowded(c, run[n]))
    decreases n
  {
    if n == 0 {
      InitIsQuiet(c, u);
    } else {
      RunIsQuiet(c, u, run, n - 1);
      QuietGoes(c, u, run[n - 1], run[n], n);
    }
  }

  lemma QuietGoes(c: Config, u: set<Key>, s: State, t: State, n: nat)
    requires n > 0 && Goes(c, u, s, t) && !Crossed(c, u) && forall x :: x in c.nearest ==> x in u
    requires Quiet(c, u, s) && (if n == 1 then s == Init(c) else Uncrowded(c, s))
    ensures Quiet(c, u, t) && Uncrowded(c, t)
  {
    var task, nodes, left, q := Going(c, u, s, t);
    if n == 1 {
      FirstIsUncrowded(c, u, task, nodes, left, q);
    } else {
      UncrowdedAfter(c, u, s, task, nodes, left, q);
    }
  }

  // ---- Runs with a second query --------------------------------------------------------------------------

  function Busy(q: seq<Key>, w: Worker, j: nat): Option<Key>
    requires j <= |q| && j <= 3
  {
    if w < j then Some(q[w]) else None
  }

  /** After j first answers, each sending out one of the candidates. */
  function Started(q: seq<Key>, j: nat): State
    requires j <= |q| && j <= 3
  {
    State(MAX_OID, q[j..], {}, [], q[..j], map[0 := Busy(q, 0, j), 1 := Busy(q, 1, j), 2 := Busy(q, 2, j)])
  }

  ghost predicate Ascending(c: Config, q: seq<Key>)
  {
    forall i, j :: 0 <= i < j < |q| ==> q[i] != q[j] && c.Distance(q[i]) <= c.Distance(q[j])
  }

  /** A worker's first answer names no node; with candidates left it gets the nearest. */
  lemma FirstAnswer(c: Config, u: set<Key>, q: seq<Key>, j: nat)
    requires Ascending(c, q) && j < |q| <= c.k && j < 3
    ensures Goes(c, u, Started(q, j), Started(q, j + 1))
  {
    var s, task, rest := Started(q, j), j as Worker, q[j..];
    StartedPicks(c, q, j);
    StartedAfter(c, q, j);
    assert Next(c, s, task, Nodes({}), Open(Started(q, j + 1)));
    assert Answers(u, s, task, {});
  }

  lemma StartedPicks(c: Config, q: seq<Key>, j: nat)
    requires Ascending(c, q) && j < |q| <= c.k && j < 3
    ensures Picked(c, Started(q, j), j as Worker, {}, ToSet(q[j..]), q[j..])
  {
    var rest := q[j..];
    forall x ensures c.Distance(x) < MAX_OID { DistanceBelowMax(c, x); }
    forall x | x in rest ensures x !in q[..j] {
      var i :| 0 <= i < |rest| && rest[i] == x;
      assert q[j + i] == x;
    }
  }

  lemma StartedAfter(c: Config, q: seq<Key>, j: nat)
    requires j < |q| && j < 3
    ensures After(c, Started(q, j), j as Worker, {}, q[j..]) == Started(q, j + 1)
  {
    var s, t, task, rest := Started(q, j), Started(q, j + 1), j as Worker, q[j..];
    assert [task][..1] == [task] && rest[..1] == [q[j]] && rest[1..] == q[j + 1..] && q[..j] + [q[j]] == q[..j + 1];
    SendOne(s.inFlight - {task}, task, q[j]);
    assert (s.inFlight - {task})[task := Some(q[j])] == t.inFlight;
  }

  lemma SendOne(inFlight: map<Worker, Option<Key>>, w: Worker, x: Key)
    ensures Send(inFlight, [w], [x]) == inFlight[w := Some(x)]
  {
  }

  lemma StartIs(c: Config, q: seq<Key>)
    requires c.nearest == q
    ensures Started(q, 0) == Init(c)
  {
  }

  /** A node named again while it and the other end of the ring are asked is sent out again. */
  lemma AskedAgain(c: Config, u: set<Key>, s: State, task: Worker, a: Key, b: Key) returns (t: State)
    requires task in s.inFlight && s.inFlight[task].Some? && s.queryable == [] && c.k >= 1 && a in u
    requires a in s.queried && b in s.queried && a != b && KBuckets.Ends(a, b)
    requires c.Distance(a) < MinAfter(c, s, s.inFlight[task]) && |s.waiting| < ALPHA
    ensures Goes(c, u, s, t) && !Distinct(t.queried)
  {
    t := After(c, s, task, {a}, [a]);
    assert Member(s.queried, a, false);
    assert Candidates(c, s, {a}, MinAfter(c, s, s.inFlight[task]), {a});
    assert Picked(c, s, task, {a}, {a}, [a]);
    assert [a][..1] == [a];
    assert t.queried == s.queried + [a];
    assert |t.waiting| == |s.waiting|;
    var i :| 0 <= i < |s.queried| && s.queried[i] == a;
    assert t.queried[i] == t.queried[|s.queried|];
    assert Next(c, s, task, Nodes({a}), Open(t));
    assert Answers(u, s, task, {a});
  }

  ghost predicate Repeats(c: Config, u: set<Key>)
  {
    exists nearest: seq<Key>, run: seq<State> :: (forall x :: x in nearest ==> x in u) &&
      IsRun(Config(c.key, nearest, c.k), u, run) && !Distinct(run[|run| - 1].queried)
  }

  lemma ExtendRun(c: Config, u: set<Key>, run: seq<State>, t: State)
    requires IsRun(c, u, run) && Goes(c, u, run[|run| - 1], t)
    ensures IsRun(c, u, run + [t])
  {
  }

  /** All candidates sent out, each by a first answer. */
  lemma {:induction false} StartingRun(c: Config, u: set<Key>, j: nat) returns (run: seq<State>)
    requires Ascending(c, c.nearest) && j <= |c.nearest| <= c.k && j <= 3
    ensures IsRun(c, u, run) && run[|run| - 1] == Started(c.nearest, j)
  {
    if j == 0 {
      StartIs(c, c.nearest);
      run := [Init(c)];
    } else {
      run := StartingRun(c, u, j - 1);
      FirstAnswer(c, u, c.nearest, j - 1);
      ExtendRun(c, u, run, Started(c.nearest, j));
      run := run + [Started(c.nearest, j)];
    }
  }

  lemma RepeatsBy(c: Config, u: set<Key>, nearest: seq<Key>, run: seq<State>, t: State)
    requires (forall x :: x in nearest ==> x in u) && IsRun(Config(c.key, nearest, c.k), u, run)
    requires Goes(Config(c.key, nearest, c.k), u, run[|run| - 1], t) && !Distinct(t.queried)
    ensures Repeats(c, u)
  {
    ExtendRun(Config(c.key, nearest, c.k), u, run, t);
    assert (run + [t])[|run + [t]| - 1] == t;
  }

  /** With three candidates kept: both ends and the farther node are asked, and it names an end again. */
  lemma TripleRepeats(c: Config, u: set<Key>, a: Key, b: Key, x: Key)
    requires c.k >= 3 && a in u && b in u && x in u && a != b && KBuckets.Ends(a, b) && c.Distance(a) < c.Distance(x)
    ensures Repeats(c, u)
  {
    KBuckets.EndsEquallyFar(c.key, a, b);
    var q := [a, b, x];
    var c' := Config(c.key, q, c.k);
    DistanceBelowMax(c', x);
    var run := StartingRun(c', u, 3);
    assert Started(q, 3).queried == [a, b, x] && Started(q, 3).queryable == [];
    var t := AskedAgain(c', u, Started(q, 3), 2, a, b);
    RepeatsBy(c, u, q, run, t);
  }

  /** With two candidates kept: two farther nodes are asked, one names both ends, the other one again. */
  lemma QuadRepeats(c: Config, u: set<Key>, a: Key, b: Key, x: Key, y: Key)
    requires c.k == 2 && a in u && b in u && x in u && y in u && a != b && KBuckets.Ends(a, b) && x != y
    requires c.Distance(a) < c.Distance(x) <= c.Distance(y)
    ensures Repeats(c, u)
  {
    KBuckets.EndsEquallyFar(c.key, a, b);
    var c' := Config(c.key, [x, y], c.k);
    var s := Named(c', a, b, x, y);
    var run := QuadRun(c', u, a, b, x, y);
    var t := AskedAgain(c', u, s, 1, a, b);
    RepeatsBy(c, u, [x, y], run, t);
  }

  lemma QuadRun(c: Config, u: set<Key>, a: Key, b: Key, x: Key, y: Key) returns (run: seq<State>)
    requires c.nearest == [x, y] && c.k == 2 && a in u && b in u && a != b && x != y
    requires c.Distance(a) == c.Distance(b) < c.Distance(x) <= c.Distance(y)
    ensures IsRun(c, u, run) && run[|run| - 1] == Named(c, a, b, x, y)
  {
    run := StartingRun(c, u, 2);
    LastFirstAnswer(c, u, x, y);
    ExtendRun(c, u, run, Idle(x, y));
    run := run + [Idle(x, y)];
    BothEndsNamed(c, u, a, b, x, y);
    ExtendRun(c, u, run, Named(c, a, b, x, y));
    run := run + [Named(c, a, b, x, y)];
  }

  /** Two nodes asked, the third worker waiting. */
  function Idle(x: Key, y: Key): State
  {
    State(MAX_OID, [], {}, [2], [x, y], map[0 := Some(x), 1 := Some(y)])
  }

  /** The third worker's first answer, with nothing left to ask. */
  lemma LastFirstAnswer(c: Config, u: set<Key>, x: Key, y: Key)
    ensures Goes(c, u, Started([x, y], 2), Idle(x, y))
  {
    var s := Started([x, y], 2);
    LastAfter(c, x, y);
    assert NearestN(c, {}, c.k, []);
    assert Picked(c, s, 2, {}, {}, []);
    assert Next(c, s, 2, Nodes({}), Open(Idle(x, y)));
    assert Answers(u, s, 2, {});
  }

  lemma LastAfter(c: Config, x: Key, y: Key)
    ensures After(c, Started([x, y], 2), 2, {}, []) == Idle(x, y)
  {
    var s := Started([x, y], 2);
    assert [x, y][..2] == [x, y] && [x, y][2..] == [];
    assert s.inFlight - {2} == Idle(x, y).inFlight;
  }

  /** Both ends asked besides the farther of the two nodes. */
  function Named(c: Config, a: Key, b: Key, x: Key, y: Key): State
  {
    State(c.Distance(x), [], {a, b}, [], [x, y, a, b], map[0 := Some(a), 1 := Some(y), 2 := Some(b)])
  }

  /** The nearer of the two farther nodes names both ends, which are sent out. */
  lemma BothEndsNamed(c: Config, u: set<Key>, a: Key, b: Key, x: Key, y: Key)
    requires c.k == 2 && a in u && b in u && a != b && c.Distance(a) == c.Distance(b) < c.Distance(x) <= c.Distance(y)
    ensures Goes(c, u, Idle(x, y), Named(c, a, b, x, y))
  {
    var s := Idle(x, y);
    BothPicked(c, a, b, x, y);
    NamedAfter(c, a, b, x, y);
    assert Next(c, s, 0, Nodes({a, b}), Open(Named(c, a, b, x, y)));
    assert Answers(u, s, 0, {a, b});
  }

  lemma NamedAfter(c: Config, a: Key, b: Key, x: Key, y: Key)
    requires MinAfter(c, Idle(x, y), Some(x)) == c.Distance(x)
    ensures After(c, Idle(x, y), 0, {a, b}, [a, b]) == Named(c, a, b, x, y)
  {
    var s := Idle(x, y);
    var waiting: seq<Worker>, q := [0] + [2], [a, b];
    assert waiting[..2] == [0, 2] && waiting[2..] == [] && q[..2] == [a, b] && q[2..] == [];
    SendTwo(s.inFlight - {0}, 0, 2, a, b);
    assert s.inFlight - {0} == map[1 := Some(y)];
  }

  lemma SendTwo(inFlight: map<Worker, Option<Key>>, v: Worker, w: Worker, x: Key, y: Key)
    ensures Send(inFlight, [v, w], [x, y]) == inFlight[v := Some(x)][w := Some(y)]
  {
    SendOne(inFlight[v := Some(x)], w, y);
    assert [v, w][1..] == [w] && [x, y][1..] == [y];
  }

  lemma BothPicked(c: Config, a: Key, b: Key, x: Key, y: Key)
    requires c.k == 2 && a != b && c.Distance(a) == c.Distance(b) < c.Distance(x) <= c.Distance(y)
    ensures MinAfter(c, Idle(x, y), Some(x)) == c.Distance(x)
    ensures Picked(c, Idle(x, y), 0, {a, b}, {a, b}, [a, b])
  {
    DistanceBelowMax(c, x);
    assert a != x && a != y && b != x && b != y;
  }

  /** No node is queried twice in any search over these nodes, from whatever start, exactly when they do
      not include both ends of the ring and a farther node, two such nodes when two candidates are kept;
      a search that keeps one candidate never repeats. */
  lemma RepeatsIff(c: Config, u: set<Key>)
    ensures Repeats(c, u) <==> Crossed(c, u)
  {
    if Crossed(c, u) {
      CrossedRepeats(c, u);
    } else {
      forall nearest: seq<Key>, run: seq<State> | (forall x :: x in nearest ==> x in u) && IsRun(Config(c.key, nearest, c.k), u, run)
        ensures Distinct(run[|run| - 1].queried)
      {
        SameCrossing(c, u, nearest);
        RunIsQuiet(Config(c.key, nearest, c.k), u, run, |run| - 1);
      }
    }
  }

  lemma SameCrossing(c: Config, u: set<Key>, nearest: seq<Key>)
    ensures Crossed(Config(c.key, nearest, c.k), u) ==> Crossed(c, u)
  {
    var c' := Config(c.key, nearest, c.k);
    assert forall x :: c'.Distance(x) == c.Distance(x);
  }

  lemma CrossedRepeats(c: Config, u: set<Key>)
    requires Crossed(c, u)
    ensures Repeats(c, u)
  {
    var a, b, x :| a in u && b in u && x in u && a != b && KBuckets.Ends(a, b) && c.Distance(a) < c.Distance(x) &&
      (c.k >= 3 || (c.k == 2 && exists y :: y in u && y != x && c.Distance(a) < c.Distance(y)));
    if c.k >= 3 {
      TripleRepeats(c, u, a, b, x);
    } else {
      var y :| y in u && y != x && c.Distance(a) < c.Distance(y);
      if c.Distance(x) <= c.Distance(y) { QuadRepeats(c, u, a, b, x, y); } else { QuadRepeats(c, u, a, b, y, x); }
    }
  }
}
