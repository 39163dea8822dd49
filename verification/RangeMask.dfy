/** RangeMask: a set of unsigned integers of a ground range, kept as sorted separate ranges. */
module RangeMask {

  import opened Collections

  type Unsigned = x: int | 0 <= x < 0x1_0000_0000

  datatype Range = Range(first: Unsigned, second: Unsigned)

  // ---- Ranges on values -----------------------------------------------------------------------

  predicate Covers(r: Range, x: int)
  {
    r.first <= x < r.second
  }

  ghost predicate In(rs: seq<Range>, x: int)
  {
    exists k :: 0 <= k < |rs| && Covers(rs[k], x)
  }

  /** The ranges of a std::map in key order: not empty, inside the ground range, and separated by at
      least one missing element. */
  ghost predicate Canonical(all: Range, rs: seq<Range>)
  {
    (forall k :: 0 <= k < |rs| ==> all.first <= rs[k].first < rs[k].second <= all.second) &&
    (forall j, k :: 0 <= j < k < |rs| ==> rs[j].second < rs[k].first)
  }

  function Interval(r: Range): (s: set<int>)
    ensures forall x :: x in s <==> Covers(r, x)
  {
    set x | r.first <= x < r.second && Covers(r, x)
  }

  function Elements(rs: seq<Range>): (s: set<int>)
    ensures forall x :: x in s <==> In(rs, x)
  {
    if rs == [] then {}
    else
      var init := rs[..|rs| - 1];
      assert forall x :: In(init, x) || Covers(rs[|rs| - 1], x) <==> In(rs, x) by { InSnoc(rs); }
      Elements(init) + Interval(rs[|rs| - 1])
  }

  lemma InSnoc(rs: seq<Range>)
    requires rs != []
    ensures forall x :: In(rs, x) <==> In(rs[..|rs| - 1], x) || Covers(rs[|rs| - 1], x)
  {
    forall x ensures In(rs, x) <==> In(rs[..|rs| - 1], x) || Covers(rs[|rs| - 1], x) {
      if In(rs, x) {
        var k :| 0 <= k < |rs| && Covers(rs[k], x);
        if k < |rs| - 1 { assert Covers(rs[..|rs| - 1][k], x); }
      }
      if In(rs[..|rs| - 1], x) {
        var k :| 0 <= k < |rs| - 1 && Covers(rs[..|rs| - 1][k], x);
        assert Covers(rs[k], x);
      }
    }
  }

  /** upper_bound: the position of the first range that begins after x. */
  function UpperBound(rs: seq<Range>, x: int): (u: nat)
    ensures u <= |rs|
    ensures u > 0 ==> rs[u - 1].first <= x
    ensures u < |rs| ==> rs[u].first > x
  {
    if rs == [] then 0
    else if rs[|rs| - 1].first <= x then |rs|
    else UpperBound(rs[..|rs| - 1], x)
  }

  lemma BoundSplits(all: Range, rs: seq<Range>, x: int)
    requires Canonical(all, rs)
    ensures forall k :: 0 <= k < UpperBound(rs, x) ==> rs[k].first <= x
    ensures forall k :: UpperBound(rs, x) <= k < |rs| ==> rs[k].first > x
  {
  }

  /** Membership is decided by the range before the upper bound. */
  lemma InAtBound(all: Range, rs: seq<Range>, x: int)
    requires Canonical(all, rs)
    ensures In(rs, x) <==> UpperBound(rs, x) > 0 && rs[UpperBound(rs, x) - 1].second > x
  {
    var u := UpperBound(rs, x);
    if u > 0 && rs[u - 1].second > x { assert Covers(rs[u - 1], x); }
    if In(rs, x) {
      var k :| 0 <= k < |rs| && Covers(rs[k], x);
      assert k == u - 1;
    }
  }

  /** The first range of a canonical list begins at the least element and ends at the first gap. */
  lemma FirstRange(all: Range, rs: seq<Range>)
    requires Canonical(all, rs) && rs != []
    ensures In(rs, rs[0].first) && !In(rs, rs[0].second)
    ensures forall x :: In(rs, x) ==> rs[0].first <= x
    ensures forall x :: In(rs[1..], x) <==> In(rs, x) && x >= rs[0].second
  {
    assert Covers(rs[0], rs[0].first);
    forall x ensures In(rs[1..], x) <==> In(rs, x) && x >= rs[0].second {
      if In(rs[1..], x) {
        var k :| 0 <= k < |rs| - 1 && Covers(rs[1..][k], x);
        assert Covers(rs[k + 1], x);
      }
      if In(rs, x) && x >= rs[0].second {
        var k :| 0 <= k < |rs| && Covers(rs[k], x);
        assert Covers(rs[1..][k - 1], x);
      }
    }
  }

  /** Canonical ranges are determined by their elements. */
  lemma {:induction false} CanonicalUnique(all: Range, rs: seq<Range>, ss: seq<Range>)
    requires Canonical(all, rs) && Canonical(all, ss) && forall x :: In(rs, x) == In(ss, x)
    ensures rs == ss
    decreases |rs|
  {
    if rs == [] || ss == [] {
      if rs != [] { FirstRange(all, rs); }
      if ss != [] { FirstRange(all, ss); }
    } else {
      SameFirst(all, rs, ss);
      FirstRange(all, rs);
      FirstRange(all, ss);
      CanonicalUnique(all, rs[1..], ss[1..]);
      assert rs == [rs[0]] + rs[1..] && ss == [ss[0]] + ss[1..];
    }
  }

  lemma SameFirst(all: Range, rs: seq<Range>, ss: seq<Range>)
    requires Canonical(all, rs) && Canonical(all, ss) && rs != [] && ss != [] && forall x :: In(rs, x) == In(ss, x)
    ensures rs[0] == ss[0]
  {
    FirstRange(all, rs);
    FirstRange(all, ss);
    assert In(ss, rs[0].first) && In(rs, ss[0].first);
    if rs[0].second < ss[0].second { assert Covers(ss[0], rs[0].second); }
    if ss[0].second < rs[0].second { assert Covers(rs[0], ss[0].second); }
  }

  function Splice(rs: seq<Range>, a: nat, b: nat, r: Range): seq<Range>
    requires a <= b <= |rs|
  {
    rs[..a] + [r] + rs[b..]
  }

  /** Replacing ranges by one that covers them and keeps its distance adds exactly its elements. */
  lemma SpliceAdds(all: Range, rs: seq<Range>, a: nat, b: nat, r: Range)
    requires Canonical(all, rs) && a <= b <= |rs| && all.first <= r.first < r.second <= all.second
    requires a > 0 ==> rs[a - 1].second < r.first
    requires b < |rs| ==> r.second < rs[b].first
    requires forall k :: a <= k < b ==> r.first <= rs[k].first && rs[k].second <= r.second
    ensures Canonical(all, Splice(rs, a, b, r))
    ensures forall x :: In(Splice(rs, a, b, r), x) <==> In(rs, x) || Covers(r, x)
  {
    SpliceIsCanonical(all, rs, a, b, r);
    forall x ensures In(Splice(rs, a, b, r), x) <==> In(rs, x) || Covers(r, x) {
      SpliceIn(rs, a, b, r, x);
    }
  }

  lemma SpliceIsCanonical(all: Range, rs: seq<Range>, a: nat, b: nat, r: Range)
    requires Canonical(all, rs) && a <= b <= |rs| && all.first <= r.first < r.second <= all.second
    requires a > 0 ==> rs[a - 1].second < r.first
    requires b < |rs| ==> r.second < rs[b].first
    ensures Canonical(all, Splice(rs, a, b, r))
  {
    var ss := Splice(rs, a, b, r);
    assert ss[a] == r;
    forall j | 0 <= j < a ensures ss[j] == rs[j] && rs[j].second < r.first {
      assert j == a - 1 || rs[j].second < rs[a - 1].first;
    }
    forall k | a < k < |ss| ensures ss[k] == rs[k - a - 1 + b] && r.second < ss[k].first {
      assert k - a - 1 + b == b || rs[b].second < rs[k - a - 1 + b].first;
    }
  }

  lemma SpliceIn(rs: seq<Range>, a: nat, b: nat, r: Range, x: int)
    requires a <= b <= |rs|
    requires forall k :: a <= k < b ==> r.first <= rs[k].first && rs[k].second <= r.second
    ensures In(Splice(rs, a, b, r), x) <==> In(rs, x) || Covers(r, x)
  {
    var p, q, t := rs[..a], rs[a..b], rs[b..];
    assert rs == p + q + t;
    InConcat(p, q, x);
    InConcat(p + q, t, x);
    InConcat(p, [r], x);
    InConcat(p + [r], t, x);
    assert In([r], x) <==> Covers(r, x) by { assert [r][0] == r; }
    if In(q, x) {
      var k :| 0 <= k < |q| && Covers(q[k], x);
      assert q[k] == rs[a + k];
    }
  }

  lemma InConcat(p: seq<Range>, q: seq<Range>, x: int)
    ensures In(p + q, x) <==> In(p, x) || In(q, x)
  {
    if In(p + q, x) {
      var k :| 0 <= k < |p + q| && Covers((p + q)[k], x);
      if k < |p| { assert Covers(p[k], x); } else { assert Covers(q[k - |p|], x); }
    }
    if In(p, x) {
      var k :| 0 <= k < |p| && Covers(p[k], x);
      assert Covers((p + q)[k], x);
    }
    if In(q, x) {
      var k :| 0 <= k < |q| && Covers(q[k], x);
      assert Covers((p + q)[|p| + k], x);
    }
  }

  /** One step of unionWith(Range) at i replaces the ranges a up to b by r: a lower neighbour that
      reaches i is taken in, and an upper one that begins no later than the range to add ends. */
  ghost predicate Choice(rs: seq<Range>, m: Range, i: Unsigned, u: nat, a: nat, b: nat, r: Range)
    requires u == UpperBound(rs, i)
  {
    var below := u > 0 && rs[u - 1].second >= i;
    var inside := u > 0 && rs[u - 1].second > i;
    var above := !inside && u < |rs| && rs[u].first <= m.second;
    a == (if below then u - 1 else u) && b == (if above then u + 1 else u) &&
    r.first == (if below then rs[u - 1].first else i) &&
    r.second == if inside then rs[u - 1].second else if above then rs[u].second else m.second
  }

  lemma ChoiceFits(all: Range, rs: seq<Range>, m: Range, i: Unsigned, u: nat, a: nat, b: nat, r: Range)
    requires Canonical(all, rs) && all.first <= i < m.second <= all.second
    requires u == UpperBound(rs, i) && Choice(rs, m, i, u, a, b, r)
    ensures a <= b <= |rs| && i < r.second && all.first <= r.first < r.second <= all.second
    ensures a > 0 ==> rs[a - 1].second < r.first
    ensures b < |rs| ==> r.second < rs[b].first
    ensures forall k :: a <= k < b ==> r.first <= rs[k].first && rs[k].second <= r.second
  {
    Neighbours(all, rs, u);
    ChoiceEnds(all, rs, m, i, u, a, b, r);
    forall k | a <= k < b ensures r.first <= rs[k].first && rs[k].second <= r.second {
      assert k == u - 1 || k == u;
    }
  }

  /** The ranges around the upper bound are in order. */
  ghost predicate InOrder(all: Range, rs: seq<Range>, u: nat)
    requires u <= |rs|
  {
    (u > 1 ==> rs[u - 2].second < rs[u - 1].first) &&
    (u > 0 ==> all.first <= rs[u - 1].first < rs[u - 1].second <= all.second) &&
    (0 < u < |rs| ==> rs[u - 1].second < rs[u].first) &&
    (u < |rs| ==> all.first <= rs[u].first < rs[u].second <= all.second) &&
    (u + 1 < |rs| ==> rs[u].second < rs[u + 1].first)
  }

  lemma Neighbours(all: Range, rs: seq<Range>, u: nat)
    requires Canonical(all, rs) && u <= |rs|
    ensures InOrder(all, rs, u)
  {
  }

  lemma ChoiceEnds(all: Range, rs: seq<Range>, m: Range, i: Unsigned, u: nat, a: nat, b: nat, r: Range)
    requires u == UpperBound(rs, i) && Choice(rs, m, i, u, a, b, r) && InOrder(all, rs, u)
    requires all.first <= i < m.second <= all.second
    ensures a <= b <= |rs| && i < r.second && all.first <= r.first < r.second <= all.second
    ensures a > 0 ==> rs[a - 1].second < r.first
    ensures b < |rs| ==> r.second < rs[b].first
  {
  }

  lemma ChoiceAdds(all: Range, rs: seq<Range>, m: Range, i: Unsigned, u: nat, a: nat, b: nat, r: Range)
    requires Canonical(all, rs) && m.first <= i < m.second && all.first <= i && m.second <= all.second
    requires u == UpperBound(rs, i) && Choice(rs, m, i, u, a, b, r)
    ensures a <= b <= |rs| && Canonical(all, Splice(rs, a, b, r))
    ensures forall x :: In(Splice(rs, a, b, r), x) <==> In(rs, x) || (Covers(m, x) && i <= x < r.second)
  {
    ChoiceFits(all, rs, m, i, u, a, b, r);
    SpliceAdds(all, rs, a, b, r);
    forall x | Covers(r, x) ensures In(rs, x) || (Covers(m, x) && i <= x < r.second) {
      ChoiceCovers(rs, m, i, u, a, b, r, x);
    }
  }

  lemma ChoiceCovers(rs: seq<Range>, m: Range, i: Unsigned, u: nat, a: nat, b: nat, r: Range, x: int)
    requires m.first <= i < m.second && u == UpperBound(rs, i) && Choice(rs, m, i, u, a, b, r) && Covers(r, x)
    ensures In(rs, x) || (Covers(m, x) && i <= x < r.second)
  {
    if u > 0 && Covers(rs[u - 1], x) {
    } else if u < |rs| && Covers(rs[u], x) {
    }
  }

  lemma PrefixSnoc(rs: seq<Range>, k: nat)
    requires k < |rs|
    ensures forall x :: In(rs[..k + 1], x) <==> In(rs[..k], x) || Covers(rs[k], x)
  {
    InSnoc(rs[..k + 1]);
    assert rs[..k + 1][..k] == rs[..k];
  }

  lemma OwnRangeAddsNothing(all: Range, rs: seq<Range>, k: nat, ss: seq<Range>)
    requires Canonical(all, rs) && Canonical(all, ss) && k < |rs|
    requires forall x :: In(ss, x) <==> In(rs, x) || Covers(rs[k], x)
    ensures ss == rs
  {
    CanonicalUnique(all, rs, ss);
  }

  /** These ranges hold what lies outside the first k ones up to where the last of those ends. */
  ghost predicate Inverse(all: Range, rs: seq<Range>, k: nat, last: nat, inverse: seq<Range>)
  {
    k <= |rs| && Canonical(all, inverse) && last == (if k == 0 then all.first else rs[k - 1].second) &&
    (inverse != [] ==> inverse[|inverse| - 1].second < last) &&
    forall x :: In(inverse, x) <==> all.first <= x < last && !In(rs[..k], x)
  }

  /** Going on to the end of the next range adds what is in front of it. */
  lemma InverseStep(all: Range, rs: seq<Range>, k: nat, last: nat, inverse: seq<Range>) returns (next: seq<Range>)
    requires Canonical(all, rs) && k < |rs| && Inverse(all, rs, k, last, inverse)
    ensures all.first <= last <= rs[k].first
    ensures next == if rs[k].first != last then inverse + [Range(last, rs[k].first)] else inverse
    ensures Inverse(all, rs, k + 1, rs[k].second, next)
  {
    next := if rs[k].first != last then inverse + [Range(last, rs[k].first)] else inverse;
    if rs[k].first != last { AppendAdds(all, inverse, Range(last, rs[k].first)); }
    InverseGrows(all, rs, k, last, inverse, next);
  }

  lemma InverseGrows(all: Range, rs: seq<Range>, k: nat, last: nat, inverse: seq<Range>, next: seq<Range>)
    requires Canonical(all, rs) && k < |rs| && last == (if k == 0 then all.first else rs[k - 1].second)
    requires forall x :: In(inverse, x) <==> all.first <= x < last && !In(rs[..k], x)
    requires forall x :: In(next, x) <==> In(inverse, x) || last <= x < rs[k].first
    ensures forall x :: In(next, x) <==> all.first <= x < rs[k].second && !In(rs[..k + 1], x)
  {
    PrefixEnds(all, rs, k);
    assert all.first <= last <= rs[k].first < rs[k].second;
  }

  lemma InverseEnd(all: Range, rs: seq<Range>, last: nat, inverse: seq<Range>) returns (whole: seq<Range>)
    requires all.first <= all.second && Canonical(all, rs) && Inverse(all, rs, |rs|, last, inverse)
    ensures all.first <= last <= all.second
    ensures whole == if last != all.second then inverse + [Range(last, all.second)] else inverse
    ensures Canonical(all, whole) && forall x :: In(whole, x) <==> Covers(all, x) && !In(rs, x)
  {
    whole := if last != all.second then inverse + [Range(last, all.second)] else inverse;
    assert rs[..|rs|] == rs;
    if last != all.second { AppendAdds(all, inverse, Range(last, all.second)); }
  }

  lemma AppendAdds(all: Range, rs: seq<Range>, r: Range)
    requires Canonical(all, rs) && all.first <= r.first < r.second <= all.second
    requires rs != [] ==> rs[|rs| - 1].second < r.first
    ensures Canonical(all, rs + [r])
    ensures forall x :: In(rs + [r], x) <==> In(rs, x) || Covers(r, x)
  {
    SpliceAdds(all, rs, |rs|, |rs|, r);
    assert rs + [r] == Splice(rs, |rs|, |rs|, r);
  }

  /** The first k ranges hold nothing from the end of the last of them on, and the next range follows. */
  lemma PrefixEnds(all: Range, rs: seq<Range>, k: nat)
    requires Canonical(all, rs) && k < |rs|
    ensures forall x :: In(rs[..k + 1], x) <==> In(rs[..k], x) || Covers(rs[k], x)
    ensures forall x :: In(rs[..k], x) ==> k > 0 && x < rs[k - 1].second
  {
    PrefixSnoc(rs, k);
  }

  /** The increment of an unsigned number. */
  function Increment(t: Unsigned): Unsigned { (t + 1) % 0x1_0000_0000 }

  ghost predicate Within(r: Range, all: Range)
  {
    all.first <= r.first && r.second <= all.second
  }

  function Hull(a: Range, b: Range): Range
  {
    Range(if b.first < a.first then b.first else a.first, if b.second > a.second then b.second else a.second)
  }

  /** It is the least range with both in it. */
  lemma HullIsLeast(a: Range, b: Range, r: Range)
    ensures Within(a, Hull(a, b)) && Within(b, Hull(a, b))
    ensures r.first <= a.first && r.first <= b.first ==> r.first <= Hull(a, b).first
    ensures a.second <= r.second && b.second <= r.second ==> Hull(a, b).second <= r.second
  {
  }

  /** Canonical in a ground range is canonical in a larger one. */
  lemma WiderGround(all: Range, wide: Range, rs: seq<Range>)
    requires Canonical(all, rs) && Within(all, wide)
    ensures Canonical(wide, rs)
  {
  }

  lemma {:induction false} SizeOfInterval(a: int, b: int)
    requires 0 <= a <= b < 0x1_0000_0000
    ensures |Interval(Range(a, b))| == b - a
    decreases b - a
  {
    var s := Interval(Range(a, b));
    if a == b {
      assert s == {};
    } else {
      SizeOfInterval(a, b - 1);
      assert s == Interval(Range(a, b - 1)) + {b - 1};
    }
  }

  /** The sum that size() takes. */
  function Total(rs: seq<Range>): int
  {
    if rs == [] then 0
    else Total(rs[..|rs| - 1]) + (rs[|rs| - 1].second - rs[|rs| - 1].first)
  }

  /** Canonical ranges are disjoint, so the sum is the number of elements. */
  lemma {:induction false} TotalIsSize(all: Range, rs: seq<Range>)
    requires Canonical(all, rs)
    ensures Total(rs) == |Elements(rs)|
  {
    if rs != [] {
      var init, last := rs[..|rs| - 1], rs[|rs| - 1];
      TotalIsSize(all, init);
      SizeOfInterval(last.first, last.second);
      forall x | x in Elements(init) ensures x !in Interval(last) {
        var k :| 0 <= k < |init| && Covers(init[k], x);
        assert rs[k].second < last.first;
      }
      assert Elements(init) !! Interval(last);
    }
  }

  /** Complements relative to the ground range. */
  ghost predicate Complement(all: Range, rs: seq<Range>, cs: seq<Range>)
  {
    Canonical(all, rs) && Canonical(all, cs) && forall x :: In(cs, x) <==> Covers(all, x) && !In(rs, x)
  }

  lemma InsideGround(all: Range, rs: seq<Range>)
    requires Canonical(all, rs)
    ensures forall x :: In(rs, x) ==> Covers(all, x)
  {
  }

  /** Complementing twice gives back the same ranges, not only the same set. */
  lemma ComplementIsInvolution(all: Range, rs: seq<Range>, cs: seq<Range>, ds: seq<Range>)
    requires Complement(all, rs, cs) && Complement(all, cs, ds)
    ensures ds == rs
  {
    InsideGround(all, rs);
    CanonicalUnique(all, ds, rs);
  }

  /** The lowest n elements of a set. */
  ghost predicate IsLowest(s: set<int>, part: set<int>, n: nat)
  {
    part <= s && |part| == (if n < |s| then n else |s|) && forall x, y :: x in part && y in s - part ==> x < y
  }

  /** No sum in lowest leaves 32 bits. */
  predicate Fits(rs: seq<Range>, items: Unsigned)
  {
    rs == [] || items <= Total(rs) || items + rs[|rs| - 1].second - Total(rs) < 0x1_0000_0000
  }

  /** From any range on there are at least as many numbers as elements. */
  lemma {:induction false} GapsGrow(all: Range, rs: seq<Range>, k: nat)
    requires Canonical(all, rs) && k < |rs|
    ensures Total(rs) - Total(rs[..k]) <= rs[|rs| - 1].second - rs[k].first
    ensures k == |rs| - 1 ==> Total(rs) - Total(rs[..k]) == rs[k].second - rs[k].first
    ensures Total(rs[..k]) < Total(rs)
    decreases |rs|
  {
    if k < |rs| - 1 {
      var init := rs[..|rs| - 1];
      GapsGrow(all, init, k);
      assert init[..k] == rs[..k];
      assert rs[|rs| - 2].second < rs[|rs| - 1].first;
    }
  }

  /** The elements up to a point inside range k. */
  lemma PrefixIsLowest(all: Range, rs: seq<Range>, k: nat, e: Unsigned, n: nat)
    requires Canonical(all, rs) && k < |rs| && rs[k].first < e <= rs[k].second
    requires n == Total(rs[..k]) + e - rs[k].first
    ensures Canonical(all, rs[..k] + [Range(rs[k].first, e)])
    ensures IsLowest(Elements(rs), Elements(rs[..k] + [Range(rs[k].first, e)]), n)
  {
    var ps := rs[..k] + [Range(rs[k].first, e)];
    PrefixTotal(all, rs, k, e);
    TotalIsSize(all, ps);
    forall x ensures x in Elements(ps) <==> x in Elements(rs) && x < e {
      PrefixIn(all, rs, k, e, x);
    }
    BelowIsLowest(Elements(rs), Elements(ps), e);
  }

  lemma PrefixTotal(all: Range, rs: seq<Range>, k: nat, e: Unsigned)
    requires Canonical(all, rs) && k < |rs| && rs[k].first < e <= rs[k].second
    ensures Canonical(all, rs[..k] + [Range(rs[k].first, e)])
    ensures Total(rs[..k] + [Range(rs[k].first, e)]) == Total(rs[..k]) + e - rs[k].first
  {
    assert (rs[..k] + [Range(rs[k].first, e)])[..k] == rs[..k];
  }

  lemma BelowIsLowest(s: set<int>, part: set<int>, e: int)
    requires forall x :: x in part <==> x in s && x < e
    ensures IsLowest(s, part, |part|)
  {
    assert part <= s by {
      forall x | x in part ensures x in s { }
    }
    SubsetCount(part, s);
  }

  /** The range that lowest stores for r, and the number of elements still wanted after it. */
  function Taken(r: Range, rest: Unsigned): Range
  {
    var sum := (r.first + rest) % 0x1_0000_0000;
    Range(r.first, if sum < r.second then sum else r.second)
  }

  function Wanted(r: Range, rest: Unsigned): Unsigned
  {
    (rest - (Taken(r, rest).second - r.first)) % 0x1_0000_0000
  }

  lemma TakenExact(r: Range, rest: Unsigned)
    requires r.first < r.second && 0 < rest && r.first + rest < 0x1_0000_0000
    ensures r.first + rest <= r.second ==> Taken(r, rest) == Range(r.first, r.first + rest) && Wanted(r, rest) == 0
    ensures r.first + rest > r.second ==> Taken(r, rest) == r && Wanted(r, rest) == rest - (r.second - r.first) > 0
  {
  }

  lemma NoSumWraps(all: Range, rs: seq<Range>, items: Unsigned, k: nat, rest: Unsigned)
    requires Canonical(all, rs) && k < |rs| && rest == items - Total(rs[..k]) && Fits(rs, items)
    ensures rs[k].first + rest < 0x1_0000_0000
  {
    GapsGrow(all, rs, k);
  }

  lemma TakenFits(all: Range, rs: seq<Range>, items: Unsigned, k: nat, rest: Unsigned)
    requires Canonical(all, rs) && k < |rs| && rest == items - Total(rs[..k]) > 0 && Fits(rs, items)
    ensures Wanted(rs[k], rest) == 0 ==> LowestTaken(all, rs, rs[..k] + [Taken(rs[k], rest)], items)
    ensures Wanted(rs[k], rest) != 0 ==> Taken(rs[k], rest) == rs[k] && Wanted(rs[k], rest) == rest - (rs[k].second - rs[k].first)
  {
    NoSumWraps(all, rs, items, k, rest);
    TakenExact(rs[k], rest);
    if rs[k].first + rest <= rs[k].second {
      PrefixIsLowest(all, rs, k, rs[k].first + rest, items);
    }
  }

  ghost predicate LowestTaken(all: Range, rs: seq<Range>, taken: seq<Range>, items: nat)
  {
    Canonical(all, taken) && IsLowest(Elements(rs), Elements(taken), items)
  }

  ghost predicate Broken(rs: seq<Range>)
  {
    exists j :: 0 <= j < |rs| && rs[j].second < rs[j].first
  }

  lemma TakenBreaks(all: Range, rs: seq<Range>, items: Unsigned, k: nat, rest: Unsigned)
    requires Canonical(all, rs) && k < |rs| && rest == items - Total(rs[..k]) > 0 && !Fits(rs, items)
    ensures Broken(rs[..k] + [Taken(rs[k], rest)]) ||
      (k + 1 < |rs| && Taken(rs[k], rest) == rs[k] && Wanted(rs[k], rest) == rest - (rs[k].second - rs[k].first) > 0)
  {
    var r, ps := rs[k], rs[..k] + [Taken(rs[k], rest)];
    GapsGrow(all, rs, k);
    assert rs[..k + 1][..k] == rs[..k];
    if k + 1 < |rs| { GapsGrow(all, rs, k + 1); }
    if r.first + rest >= 0x1_0000_0000 {
      assert ps[k].second < ps[k].first;
    }
  }

  /** Between rounds of lowest: the first k ranges are taken whole and elements are still wanted, or
      the result is complete, or it is broken for good. */
  ghost predicate Lowering(all: Range, rs: seq<Range>, items: Unsigned, k: nat, rest: Unsigned, taken: seq<Range>)
    requires k <= |rs|
  {
    if Fits(rs, items) && rest == 0 then LowestTaken(all, rs, taken, items)
    else if Fits(rs, items) then taken == rs[..k] && rest == items - Total(rs[..k])
    else Broken(taken) || (k < |rs| && taken == rs[..k] && rest == items - Total(rs[..k]) > 0)
  }

  lemma LoweringStep(all: Range, rs: seq<Range>, items: Unsigned, k: nat, rest: Unsigned, taken: seq<Range>)
    requires Canonical(all, rs) && k < |rs| && rest > 0 && Lowering(all, rs, items, k, rest, taken)
    ensures Lowering(all, rs, items, k + 1, Wanted(rs[k], rest), taken + [Taken(rs[k], rest)])
  {
    assert rs[..k + 1] == rs[..k] + [rs[k]];
    assert rs[..k + 1][..k] == rs[..k];
    if Fits(rs, items) {
      TakenFits(all, rs, items, k, rest);
    } else if Broken(taken) {
      BrokenStays(taken, Taken(rs[k], rest));
    } else {
      TakenBreaks(all, rs, items, k, rest);
    }
  }

  lemma BrokenStays(rs: seq<Range>, r: Range)
    requires Broken(rs)
    ensures Broken(rs + [r])
  {
    var j :| 0 <= j < |rs| && rs[j].second < rs[j].first;
    assert (rs + [r])[j] == rs[j];
  }

  lemma LoweringStarts(all: Range, rs: seq<Range>, items: Unsigned)
    requires Canonical(all, rs)
    ensures Lowering(all, rs, items, 0, items, [])
  {
    TotalIsSize(all, rs);
    assert rs[..0] == [];
    assert Elements([]) == {};
  }

  lemma LoweringEnds(all: Range, rs: seq<Range>, items: Unsigned, k: nat, rest: Unsigned, taken: seq<Range>)
    requires Canonical(all, rs) && k <= |rs| && Lowering(all, rs, items, k, rest, taken) && (k == |rs| || rest == 0)
    ensures Fits(rs, items) ==> LowestTaken(all, rs, taken, items)
    ensures !Fits(rs, items) ==> !Canonical(all, taken)
  {
    TotalIsSize(all, rs);
    assert rs[..|rs|] == rs;
  }

  lemma PrefixIn(all: Range, rs: seq<Range>, k: nat, e: Unsigned, x: int)
    requires Canonical(all, rs) && k < |rs| && rs[k].first < e <= rs[k].second
    ensures In(rs[..k] + [Range(rs[k].first, e)], x) <==> In(rs, x) && x < e
  {
    var ps := rs[..k] + [Range(rs[k].first, e)];
    if In(ps, x) {
      var j :| 0 <= j < |ps| && Covers(ps[j], x);
      assert Covers(rs[j], x);
    }
    if In(rs, x) && x < e {
      var j :| 0 <= j < |rs| && Covers(rs[j], x);
      assert Covers(ps[j], x);
    }
  }

  class RangeMask {
    var all: Range
    var ranges: seq<Range>

    constructor (all: Range)
      ensures this.all == all && ranges == []
    {
      this.all, ranges := all, [];
    }

    ghost predicate Valid()
      reads this
    {
      all.first <= all.second && Canonical(all, ranges)
    }

    /** The loop of unionWith: adds exactly the elements of the range. */
    method UnionWithRange(m: Range)
      requires Valid() && (m.first < m.second ==> all.first <= m.first && m.second <= all.second)
      modifies this`ranges
      ensures Valid()
      ensures forall x :: In(ranges, x) <==> old(In(ranges, x)) || Covers(m, x)
    {
      var i := m.first;
      while i < m.second
        invariant Valid() && m.first <= i
        invariant forall x :: In(ranges, x) <==> old(In(ranges, x)) || (Covers(m, x) && x < i)
        decreases m.second - i
      {
        var u := UpperBound(ranges, i);
        var r, a, b;
        if u == 0 || ranges[u - 1].second < i {
          if u == |ranges| || ranges[u].first > m.second {
            r, a, b := Range(i, m.second), u, u;
          } else {
            r, a, b := Range(i, ranges[u].second), u, u + 1;
          }
        } else if ranges[u - 1].second == i {
          if u == |ranges| || ranges[u].first > m.second {
            r, a, b := Range(ranges[u - 1].first, m.second), u - 1, u;
          } else {
            r, a, b := Range(ranges[u - 1].first, ranges[u].second), u - 1, u + 1;
          }
        } else {
          r, a, b := ranges[u - 1], u - 1, u;
        }
        ChoiceFits(all, ranges, m, i, u, a, b, r);
        ChoiceAdds(all, ranges, m, i, u, a, b, r);
        ranges := Splice(ranges, a, b, r);
        i := r.second;
      }
    }

    /** Union with a mask, which may be this one: the ground range becomes the hull of both. */
    method UnionWith(m: RangeMask)
      requires Valid() && m.Valid()
      modifies this
      ensures Valid() && all == Hull(old(all), old(m.all))
      ensures forall x :: In(ranges, x) <==> old(In(ranges, x)) || old(In(m.ranges, x))
      ensures m == this ==> all == old(all) && ranges == old(ranges)
    {
      WiderGround(all, Hull(all, m.all), ranges);
      WiderGround(m.all, Hull(all, m.all), m.ranges);
      all := Hull(all, m.all);
      var k := 0;
      while k < |m.ranges|
        invariant 0 <= k <= |m.ranges| && Valid() && all == Hull(old(all), old(m.all)) && m.ranges == old(m.ranges)
        invariant forall x :: In(ranges, x) <==> old(In(ranges, x)) || In(m.ranges[..k], x)
      {
        ghost var before := ranges;
        UnionWithRange(m.ranges[k]);
        if m == this { OwnRangeAddsNothing(all, before, k, ranges); }
        PrefixSnoc(m.ranges, k);
        k := k + 1;
      }
      assert m.ranges[..k] == m.ranges;
    }

    /** The complement in the ground range. */
    method Inverted() returns (ret: RangeMask)
      requires Valid()
      ensures fresh(ret) && ret.Valid() && ret.all == all
      ensures forall x :: In(ret.ranges, x) <==> Covers(all, x) && !In(ranges, x)
    {
      ret := new RangeMask(all);
      var last, k := all.first, 0;
      while k < |ranges|
        invariant unchanged(this) && ret.all == all && Inverse(all, ranges, k, last, ret.ranges)
      {
        ghost var next := InverseStep(all, ranges, k, last, ret.ranges);
        if ranges[k].first != last {
          ret.Append(last, ranges[k].first);
        }
        assert ret.ranges == next;
        last := ranges[k].second;
        k := k + 1;
      }
      ghost var whole := InverseEnd(all, ranges, last, ret.ranges);
      if last != all.second {
        ret.Append(last, all.second);
      }
      assert ret.ranges == whole;
    }

    /** A new last range. */
    method Append(first: Unsigned, second: Unsigned)
      modifies this`ranges
      ensures ranges == old(ranges) + [Range(first, second)]
    {
      ranges := ranges + [Range(first, second)];
    }
  
    method Invert()
      requires Valid()
      modifies this`ranges
      ensures Valid() && Complement(all, old(ranges), ranges)
    {
      var ret := Inverted();
      ranges := ret.ranges;
    }

    /** Difference with a mask.  Numbers that only the other ground range brings in and the mask lacks
        are added, so it is the set difference exactly when there are none.  The first inversion also
        inverts the argument when that is this mask, which then stays as it is, so the difference comes
        out only when it is empty. */
    method Subtract(m: RangeMask)
      requires Valid() && m.Valid()
      modifies this
      ensures Valid() && all == Hull(old(all), old(m.all))
      ensures m != this ==> forall x :: In(ranges, x) <==>
                !In(m.ranges, x) && (old(In(ranges, x)) || (Covers(all, x) && !Covers(old(all), x)))
      ensures m != this ==> ((forall x :: In(ranges, x) <==> old(In(ranges, x)) && !In(m.ranges, x)) <==>
                forall x :: Covers(all, x) && !Covers(old(all), x) ==> In(m.ranges, x))
      ensures m == this ==> ranges == old(ranges)
      ensures m == this ==> ((forall x :: !In(ranges, x)) <==> old(ranges) == [])
    {
      InsideGround(all, ranges);
      ghost var before := ranges;
      if before != [] { FirstRange(all, before); }
      Invert();
      ghost var inverted := ranges;
      UnionWith(m);
      Invert();
      if m == this { ComplementIsInvolution(all, before, inverted, ranges); }
    }

    method Contains(x: Unsigned) returns (b: bool)
      requires Valid()
      ensures b <==> In(ranges, x)
    {
      InAtBound(all, ranges, x);
      var u := UpperBound(ranges, x);
      b := u > 0 && ranges[u - 1].second > x;
    }

    method Size() returns (c: int)
      requires Valid()
      ensures c == |Elements(ranges)|
    {
      c := 0;
      var k := 0;
      while k < |ranges|
        invariant 0 <= k <= |ranges| && c == Total(ranges[..k])
      {
        assert ranges[..k + 1][..k] == ranges[..k];
        c := c + (ranges[k].second - ranges[k].first);
        k := k + 1;
      }
      assert ranges[..k] == ranges;
      TotalIsSize(all, ranges);
    }

    /** The least element above t, or the end of the ground range; from the last number the increment
        wraps, and the search starts again at zero. */
    method Next(t: Unsigned) returns (r: Unsigned)
      requires Valid()
      ensures (In(ranges, r) && r >= Increment(t)) || (r == all.second && !In(ranges, r))
      ensures forall x :: In(ranges, x) && x >= Increment(t) ==> r <= x
      ensures t < 0xffff_ffff && r <= t ==> r == all.second && !In(ranges, r)
    {
      var s := Increment(t);
      var u := UpperBound(ranges, s);
      InAtBound(all, ranges, s);
      BoundSplits(all, ranges, s);
      InsideGround(all, ranges);
      if u > 0 && ranges[u - 1].second > s {
        r := s;
      } else if u == |ranges| {
        r := all.second;
      } else {
        r := ranges[u].first;
        assert Covers(ranges[u], r);
      }
    }

    /** The elements in the order of the iterator. */
    method Enumerate() returns (xs: seq<int>)
      requires Valid()
      ensures forall x :: x in xs <==> In(ranges, x)
      ensures forall i, j :: 0 <= i < j < |xs| ==> xs[i] < xs[j]
    {
      xs := [];
      InsideGround(all, ranges);
      if ranges != [] { FirstRange(all, ranges); }
      var v := if ranges == [] then all.second else ranges[0].first;
      while v != all.second
        invariant v <= all.second && (v < all.second ==> In(ranges, v))
        invariant forall x :: x in xs <==> In(ranges, x) && x < v
        invariant forall i :: 0 <= i < |xs| ==> xs[i] < v
        invariant forall i, j :: 0 <= i < j < |xs| ==> xs[i] < xs[j]
        decreases all.second - v
      {
        xs := xs + [v];
        v := Next(v);
      }
    }

    /** The lowest elements; wrong exactly when a sum of a begin and the number wanted leaves 32 bits. */
    method Lowest(items: Unsigned) returns (ret: RangeMask)
      requires Valid()
      ensures fresh(ret) && ret.all == all
      ensures Fits(ranges, items) ==> ret.Valid() && IsLowest(Elements(ranges), Elements(ret.ranges), items)
      ensures !Fits(ranges, items) ==> !ret.Valid()
    {
      ret := new RangeMask(all);
      var k, rest := 0, items;
      LoweringStarts(all, ranges, items);
      while k < |ranges| && rest != 0
        invariant 0 <= k <= |ranges| && ret.all == all && unchanged(this)
        invariant Lowering(all, ranges, items, k, rest, ret.ranges)
      {
        LoweringStep(all, ranges, items, k, rest, ret.ranges);
        ret.ranges := ret.ranges + [Taken(ranges[k], rest)];
        rest := Wanted(ranges[k], rest);
        k := k + 1;
      }
      LoweringEnds(all, ranges, items, k, rest, ret.ranges);
    }
  }

  /** Taking an empty mask with a wider ground range from an empty mask leaves an element. */
  method SubtractWiderExample() returns (a: RangeMask)
    ensures fresh(a) && In(a.ranges, 1)
  {
    a := new RangeMask(Range(0, 1));
    var b := new RangeMask(Range(0, 2));
    a.Subtract(b);
    assert Covers(a.all, 1) && !Covers(Range(0, 1), 1);
  }

  /** Asking one single element for nearly as many as there are numbers breaks the result. */
  lemma LowestBreaksExample()
    ensures Canonical(Range(0, 10), [Range(2, 3)]) && !Fits([Range(2, 3)], 0xffff_ffff)
  {
    assert [Range(2, 3)][..0] == [];
    assert Total([Range(2, 3)]) == 1;
  }
}
