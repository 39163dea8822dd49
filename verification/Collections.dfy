/** Small facts about finite collections shared by the other modules. */
module Collections {

  datatype Option<T> = None | Some(value: T)

  ghost predicate Distinct<T>(q: seq<T>)
  {
    forall i, j :: 0 <= i < j < |q| ==> q[i] != q[j]
  }

  lemma {:induction false} DistinctCount<T>(q: seq<T>, s: set<T>)
    requires Distinct(q) && forall x :: x in q <==> x in s
    ensures |q| == |s|
    decreases |q|
  {
    if q == [] {
      assert s == {};
    } else {
      var n := |q| - 1;
      assert q == q[..n] + [q[n]];
      DistinctCount(q[..n], s - {q[n]});
    }
  }

  lemma SubsetCount<T>(a: set<T>, b: set<T>)
    requires a <= b
    ensures |a| <= |b|
    ensures |a| == |b| ==> a == b
  {
    assert b == a + (b - a);
  }

  lemma PrefixStep<T>(prefix: seq<T>, s: seq<T>)
    requires prefix <= s && |prefix| < |s|
    ensures prefix + [s[|prefix|]] <= s
  {
    assert s[..|prefix| + 1] == prefix + [s[|prefix|]];
  }
}
