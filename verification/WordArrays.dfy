/** Little-endian arrays of 64-bit words as natural numbers. */
module WordArrays {
  import opened Arithmetic
  import opened Words

  function BPow(n: nat): (p: int)
    ensures p >= 1
  {
    if n == 0 then 1 else B * BPow(n - 1)
  }

  function Val(s: seq<Word>): (v: int)
    ensures v >= 0
  {
    if |s| == 0 then 0 else s[0] + B * Val(s[1..])
  }

  lemma {:induction false} BPowSum(a: nat, b: nat)
    ensures BPow(a + b) == BPow(a) * BPow(b)
  {
    if a == 0 {
    } else {
      BPowSum(a - 1, b);
      assert BPow(a + b) == B * BPow(a - 1 + b);
      Assoc(B, BPow(a - 1), BPow(b));
    }
  }

  lemma {:induction false} ValAppend(a: seq<Word>, b: seq<Word>)
    ensures Val(a + b) == Val(a) + BPow(|a|) * Val(b)
  {
    if |a| == 0 {
      assert a + b == b;
    } else {
      ValAppend(a[1..], b);
      assert (a + b)[1..] == a[1..] + b;
      Assoc(B, BPow(|a| - 1), Val(b));
    }
  }

  lemma {:induction false} ValSplit(s: seq<Word>, i: nat)
    requires i <= |s|
    ensures Val(s) == Val(s[..i]) + BPow(i) * Val(s[i..])
  {
    assert s == s[..i] + s[i..];
    ValAppend(s[..i], s[i..]);
  }

  lemma {:induction false} ValSnoc(s: seq<Word>, i: nat)
    requires i < |s|
    ensures Val(s[..i + 1]) == Val(s[..i]) + BPow(i) * s[i]
  {
    assert s[..i + 1] == s[..i] + [s[i]];
    ValAppend(s[..i], [s[i]]);
    assert Val([s[i]]) == s[i];
  }

  lemma {:induction false} ValBound(s: seq<Word>)
    ensures 0 <= Val(s) < BPow(|s|)
  {
    if |s| != 0 {
      ValBound(s[1..]);
    }
  }

  lemma {:induction false} SingleValue(x: seq<Word>)
    requires |x| == 1
    ensures Val(x) == x[0]
  {
  }

  lemma {:induction false} ValZero(s: seq<Word>)
    requires forall k :: 0 <= k < |s| ==> s[k] == 0
    ensures Val(s) == 0
  {
    if |s| != 0 {
      ValZero(s[1..]);
    }
  }

  function Zeros(n: nat): (z: seq<Word>)
    ensures |z| == n && Val(z) == 0
  {
    var z := seq(n, _ => 0 as Word);
    ValZero(z);
    z
  }

  /** Zero words on top add nothing. */
  lemma {:induction false} ValTopZero(s: seq<Word>, n: nat)
    requires n <= |s| && forall k :: n <= k < |s| ==> s[k] == 0
    ensures Val(s) == Val(s[..n])
  {
    ValSplit(s, n);
    ValZero(s[n..]);
  }

  lemma {:induction false} ValTopNonzero(s: seq<Word>, n: nat)
    requires 0 < n <= |s| && s[n - 1] != 0
    ensures Val(s) >= BPow(n - 1)
  {
    ValSplit(s, n);
    ValSnoc(s, n - 1);
    TopDigit(Val(s[..n - 1]), BPow(n - 1), s[n - 1], BPow(n), Val(s[n..]));
  }

  lemma TopDigit(low: int, b: int, w: int, b': int, high: int)
    requires 0 <= low && 1 <= b && 1 <= w && 0 <= b' && 0 <= high
    ensures low + b * w + b' * high >= b
  {
    MulMono(1, w, b);
    MulMono(0, high, b');
  }
}
