/** Multi-word unsigned division: normalisation, the one- and two-word divisors, Knuth's
    Algorithm D (section 4.3.1 of The Art of Computer Programming, volume 2), and the final
    un-shift.  Holds for every number of words. */
module LongDivision {
  import opened Arithmetic
  import opened Words
  import opened Shifts
  import opened WordArrays
  import WordDivision

  // ---- Normalisation ------------------------------------------------------------------------

  /** c is what x * p carries out of its 64-bit word, for a power p of two. */
  ghost predicate IsSpill(x: int, p: int, c: int)
  {
    0 <= c < p && 0 <= x * p - B * c <= B - p
  }

  /** out is w * p word by word, each word taking in the spill of the word below it. */
  ghost predicate Shifted(w: seq<Word>, out: seq<Word>, c: seq<int>, p: int)
  {
    |c| == |w| <= |out| &&
    (forall k :: 0 <= k < |w| ==> IsSpill(w[k], p, c[k])) &&
    (forall k :: 0 <= k < |w| ==> ShiftedWord(w, out, c, p, k))
  }

  ghost predicate ShiftedWord(w: seq<Word>, out: seq<Word>, c: seq<int>, p: int, k: nat)
    requires |c| == |w| <= |out| && k < |w|
  {
    out[k] == w[k] * p - B * c[k] + if k == 0 then 0 else c[k - 1]
  }

  lemma {:induction false} ShiftedValue(w: seq<Word>, out: seq<Word>, c: seq<int>, p: int, i: nat)
    requires Shifted(w, out, c, p) && 0 < i <= |w|
    ensures Val(out[..i]) + BPow(i) * c[i - 1] == Val(w[..i]) * p
  {
    var k := i - 1;
    ValSnoc(w, k);
    ValSnoc(out, k);
    assert ShiftedWord(w, out, c, p, k);
    if i == 1 {
      assert Val(w[..0]) == 0 && Val(out[..0]) == 0;
    } else {
      ShiftedValue(w, out, c, p, k);
    }
    ShiftStep(Val(w[..k]), Val(out[..k]), BPow(k), w[k], out[k], if i == 1 then 0 else c[k - 1], c[k], p);
  }

  lemma ShiftStep(w: int, o: int, b: int, wk: int, ok: int, below: int, c: int, p: int)
    requires o + b * below == w * p && ok == wk * p - B * c + below
    ensures o + b * ok + (B * b) * c == (w + b * wk) * p
  {
    assert b * ok == b * (wk * p) - (B * b) * c + b * below;
    Assoc(b, wk, p);
  }

  method SignificantWords(w: seq<Word>) returns (n: nat)
    ensures n <= |w| && (n > 0 ==> w[n - 1] != 0)
    ensures forall k :: n <= k < |w| ==> w[k] == 0
    ensures Val(w) == Val(w[..n])
  {
    n := |w|;
    while n > 0 && w[n - 1] == 0
      invariant 0 <= n <= |w|
      invariant forall k :: n <= k < |w| ==> w[k] == 0
    {
      n := n - 1;
    }
    ValTopZero(w, n);
  }

  ghost function Spills(w: seq<Word>, s: nat): (c: seq<int>)
    requires s <= 64
    ensures |c| == |w|
  {
    seq(|w|, k requires 0 <= k < |w| => Shr(w[k], 64 - s))
  }

  ghost function ShiftTarget(w: seq<Word>, s: nat): (x: seq<Word>)
    requires s <= 64
    ensures |x| == |w|
  {
    seq(|w|, k requires 0 <= k < |w| => if k == 0 then Shl(w[0], s) else ShiftIn(w[k], w[k - 1], s))
  }

  /** out := w << s for 0 < s < 64; the bits leaving the top word are not stored. */
  method ShiftWords(w: seq<Word>, out: array<Word>, s: nat)
    requires 0 < |w| <= out.Length && 0 < s < 64
    modifies out
    ensures Shifted(w, out[..], Spills(w, s), Pow2(s))
    ensures forall k :: |w| <= k < out.Length ==> out[k] == old(out[k])
  {
    StoreShifted(w, out, s);
    TargetIsShifted(w, out[..], s);
  }

  method StoreShifted(w: seq<Word>, out: array<Word>, s: nat)
    requires 0 < |w| <= out.Length && 0 < s < 64
    modifies out
    ensures out[..][..|w|] == ShiftTarget(w, s)
    ensures forall k :: |w| <= k < out.Length ==> out[k] == old(out[k])
  {
    ghost var x := ShiftTarget(w, s);
    for i := |w| downto 1
      invariant forall k :: |w| <= k < out.Length ==> out[k] == old(out[k])
      invariant forall k :: i <= k < |w| ==> out[k] == x[k]
    {
      out[i] := ShiftIn(w[i], w[i - 1], s);
    }
    out[0] := Shl(w[0], s);
    assert out[..][..|w|] == x;
  }

  lemma {:induction false} TargetIsShifted(w: seq<Word>, out: seq<Word>, s: nat)
    requires |w| <= |out| && s < 64
    requires out[..|w|] == ShiftTarget(w, s)
    ensures Shifted(w, out, Spills(w, s), Pow2(s))
  {
    var c, p := Spills(w, s), Pow2(s);
    SpillsAreSpills(w, s);
    forall k | 0 <= k < |w|
      ensures ShiftedWord(w, out, c, p, k)
    {
      assert out[k] == out[..|w|][k];
      TargetWord(w, out, s, k);
    }
  }

  lemma {:induction false} TargetWord(w: seq<Word>, out: seq<Word>, s: nat, k: nat)
    requires k < |w| <= |out| && s < 64
    requires out[k] == ShiftTarget(w, s)[k]
    ensures ShiftedWord(w, out, Spills(w, s), Pow2(s), k)
  {
    StoredWord(w, out, s, k, ShiftTarget(w, s)[k]);
  }

  lemma {:induction false} StoredWord(w: seq<Word>, out: seq<Word>, s: nat, k: nat, x: Word)
    requires k < |w| <= |out| && s < 64 && out[k] == x
    requires x == if k == 0 then Shl(w[0], s) else ShiftIn(w[k], w[k - 1], s)
    ensures ShiftedWord(w, out, Spills(w, s), Pow2(s), k)
  {
    ShlExact(w[k], s);
  }

  lemma {:induction false} SpillsAreSpills(w: seq<Word>, s: nat)
    requires s < 64
    ensures forall k :: 0 <= k < |w| ==> IsSpill(w[k], Pow2(s), Spills(w, s)[k])
  {
    forall k | 0 <= k < |w|
      ensures IsSpill(w[k], Pow2(s), Spills(w, s)[k])
    {
      ShlExact(w[k], s);
    }
  }

  method Normalize(u: seq<Word>, v: seq<Word>)
    returns (un: array<Word>, vn: array<Word>, m: nat, n: nat, shift: nat)
    requires |u| == |v| && Val(v) != 0
    ensures fresh(un) && fresh(vn) && un != vn
    ensures un.Length == |u| + 1 && vn.Length == |v|
    ensures m <= |u| && 0 < n <= |v| && shift < 64
    ensures (m > 0 ==> u[m - 1] != 0) && v[n - 1] != 0
    ensures Val(u) == Val(u[..m]) && Val(v) == Val(v[..n])
    ensures Val(un[..m + 1]) == Val(u) * Pow2(shift) && Val(vn[..n]) == Val(v) * Pow2(shift)
    ensures vn[n - 1] >= 0x8000_0000_0000_0000 && un[m] < 0x8000_0000_0000_0000
    ensures forall k :: m < k < un.Length ==> un[k] == 0
  {
    m := SignificantWords(u);
    n := SignificantWords(v);
    assert n > 0;

    un := new Word[|u| + 1];
    vn := new Word[|v|];
    shift := Clz(v[n - 1]);
    ghost var uc, vc := Spills(u, shift), Spills(v, shift);
    if shift != 0 {
      ShiftWords(v, vn, shift);
      un[|u|] := Shr(u[|u| - 1], 64 - shift);
      ShiftWords(u, un, shift);
    } else {
      un[|u|] := 0;
      forall k | 0 <= k < |u| { un[k] := u[k]; }
      forall k | 0 <= k < |v| { vn[k] := v[k]; }
      ShiftedByZero(u, un[..]);
      ShiftedByZero(v, vn[..]);
    }
    ghost var p := Pow2(shift);
    Pow2Split(shift);
    NormalisedNumerator(u, un[..], uc, m, p);
    NormalisedDenominator(v, vn[..], vc, n, p);
    assert un[..][..m + 1] == un[..m + 1] && vn[..][..n] == vn[..n];
  }

  lemma {:induction false} ShiftedByZero(w: seq<Word>, out: seq<Word>)
    requires 0 < |w| <= |out| && out[..|w|] == w
    ensures Shifted(w, out, Spills(w, 0), Pow2(0)) && Spills(w, 0)[|w| - 1] == 0
  {
    SpillsAreSpills(w, 0);
    var c := Spills(w, 0);
    forall k | 0 <= k < |w|
      ensures c[k] == 0 && out[k] == w[k]
    {
      assert out[k] == out[..|w|][k];
      assert IsSpill(w[k], 1, c[k]);
    }
    forall k | 0 <= k < |w|
      ensures ShiftedWord(w, out, c, 1, k)
    {
    }
  }

  /** Everything above the significant words of the numerator is the spill of its top word. */
  lemma {:induction false} NumeratorTop(u: seq<Word>, un: seq<Word>, c: seq<int>, m: nat, p: int)
    requires m <= |u| && 0 < |u| == |un| - 1
    requires Shifted(u, un, c, p) && un[|u|] == c[|u| - 1]
    requires forall k :: m <= k < |u| ==> u[k] == 0
    ensures un[m] == if m == 0 then 0 else c[m - 1]
    ensures forall k :: m < k < |un| ==> un[k] == 0
  {
    forall k | m <= k < |u| ensures c[k] == 0 && un[k] == if k == 0 then 0 else c[k - 1] {
      assert IsSpill(u[k], p, c[k]) && ShiftedWord(u, un, c, p, k);
    }
    forall k | m < k < |un| ensures un[k] == 0 {
      assert c[k - 1] == 0;
    }
    if m < |u| { assert c[m] == 0; }
  }

  lemma {:induction false} NormalisedNumerator(u: seq<Word>, un: seq<Word>, c: seq<int>, m: nat, p: int)
    requires m <= |u| && 0 < |u| == |un| - 1
    requires Shifted(u, un, c, p) && un[|u|] == c[|u| - 1] && p <= 0x8000_0000_0000_0000
    requires Val(u) == Val(u[..m]) && forall k :: m <= k < |u| ==> u[k] == 0
    ensures Val(un[..m + 1]) == Val(u) * p
    ensures un[m] < 0x8000_0000_0000_0000
    ensures forall k :: m < k < |un| ==> un[k] == 0
  {
    NumeratorTop(u, un, c, m, p);
    ValSnoc(un, m);
    if m == 0 {
      assert un[..0] == [] && u[..0] == [];
    } else {
      ShiftedValue(u, un, c, p, m);
      assert IsSpill(u[m - 1], p, c[m - 1]);
    }
  }

  lemma {:induction false} NormalisedDenominator(v: seq<Word>, vn: seq<Word>, c: seq<int>, n: nat, p: int)
    requires |vn| == |v| && 0 < n <= |v| && 0x8000_0000_0000_0000 <= v[n - 1] * p < B
    requires Shifted(v, vn, c, p)
    requires Val(v) == Val(v[..n])
    ensures Val(vn[..n]) == Val(v) * p
    ensures vn[n - 1] >= 0x8000_0000_0000_0000
  {
    ShiftedValue(v, vn, c, p, n);
    assert IsSpill(v[n - 1], p, c[n - 1]) && ShiftedWord(v, vn, c, p, n - 1);
    assert c[n - 1] == 0;
    if n > 1 { assert IsSpill(v[n - 2], p, c[n - 2]); }
  }

  // ---- Divisors of one and two words --------------------------------------------------------

  method UdivremBy1(u: array<Word>, m: nat, d: Word) returns (r: Word)
    requires m < u.Length && d >= 0x8000_0000_0000_0000 && u[m] < d
    modifies u
    ensures Val(old(u[..m + 1])) == Val(u[..m + 1]) * d + r && r < d
    ensures u[m] == 0
    ensures forall k :: m < k < u.Length ==> u[k] == old(u[k])
  {
    ghost var u0 := u[..];
    var v := WordDivision.Reciprocal2by1(d);
    r := u[m];
    u[m] := 0;
    OneWord(u0, u[..], m);
    for j := m downto 0
      invariant r < d && u[m] == 0
      invariant forall k :: 0 <= k < j || m < k < u.Length ==> u[k] == u0[k]
      invariant Val(u0[j..m + 1]) == Val(u[j..m + 1]) * d + r
    {
      ghost var before := u[..];
      var q, rem := WordDivision.Udivrem2by1(U128(r, u[j]), d, v);
      DigitStep(u0, before, before[j := q], j, m, d, r, rem);
      u[j] := q;
      r := rem;
      assert u[..] == before[j := q];
      assert u[j..m + 1] == u[..][j..m + 1];
    }
    assert u0[0..m + 1] == u0[..m + 1] && u[0..m + 1] == u[..m + 1];
  }

  lemma {:induction false} OneWord(u0: seq<Word>, u: seq<Word>, m: nat)
    requires m < |u0| == |u| && u[m] == 0
    ensures Val(u0[m..m + 1]) == u0[m] && Val(u[m..m + 1]) == 0
  {
    assert u0[m..m + 1] == [u0[m]] && u[m..m + 1] == [u[m]];
  }

  /** One more quotient word: prepending a digit to the upper part keeps u = q * d + r. */
  lemma {:induction false} DigitStep(u0: seq<Word>, u: seq<Word>, u': seq<Word>, j: nat, m: nat, d: int, r: int, r': int)
    requires j < m < |u0| == |u| == |u'|
    requires u'[j + 1..m + 1] == u[j + 1..m + 1]
    requires Val(u0[j + 1..m + 1]) == Val(u[j + 1..m + 1]) * d + r
    requires r * B + u0[j] == u'[j] * d + r'
    ensures Val(u0[j..m + 1]) == Val(u'[j..m + 1]) * d + r'
  {
    assert u0[j..m + 1][1..] == u0[j + 1..m + 1];
    assert u'[j..m + 1][1..] == u'[j + 1..m + 1];
    DigitAlgebra(u0[j], Val(u0[j + 1..m + 1]), u'[j], Val(u[j + 1..m + 1]), d, r, r');
  }

  lemma DigitAlgebra(w: int, high: int, digit: int, quot: int, d: int, r: int, r': int)
    requires high == quot * d + r && r * B + w == digit * d + r'
    ensures w + B * high == (digit + B * quot) * d + r'
  {
    assert (digit + B * quot) * d == digit * d + B * (quot * d);
  }

  method UdivremBy2(u: array<Word>, m: nat, d: U128) returns (r: U128)
    requires 2 <= m < u.Length && d.hi >= 0x8000_0000_0000_0000 && u[m] < d.hi
    modifies u
    ensures Val(old(u[..m + 1])) == Val(u[..m + 1]) * d.Value() + r.Value() && r.Value() < d.Value()
    ensures u[m] == 0 && u[m - 1] == 0
    ensures forall k :: m < k < u.Length ==> u[k] == old(u[k])
  {
    ghost var u0 := u[..];
    var v := WordDivision.Reciprocal3by2(d);
    r := U128(u[m], u[m - 1]);
    u[m], u[m - 1] := 0, 0;
    TwoWords(u0, u[..], m);
    for j := m - 1 downto 0
      invariant r.Value() < d.Value() && u[m] == 0 && u[m - 1] == 0
      invariant forall k :: 0 <= k < j || m < k < u.Length ==> u[k] == u0[k]
      invariant Val(u0[j..m + 1]) == Val(u[j..m + 1]) * d.Value() + r.Value()
    {
      ghost var before := u[..];
      var q, rem := WordDivision.Udivrem3by2(r.hi, r.lo, u[j], d, v);
      DigitStep(u0, before, before[j := q], j, m, d.Value(), r.Value(), rem.Value());
      u[j] := q;
      r := rem;
      assert u[..] == before[j := q];
      assert u[j..m + 1] == u[..][j..m + 1];
    }
    assert u0[0..m + 1] == u0[..m + 1] && u[0..m + 1] == u[..m + 1];
  }

  lemma {:induction false} TwoWords(u0: seq<Word>, u: seq<Word>, m: nat)
    requires 1 <= m < |u0| == |u| && u[m] == 0 && u[m - 1] == 0
    ensures Val(u0[m - 1..m + 1]) == u0[m] * B + u0[m - 1] && Val(u[m - 1..m + 1]) == 0
  {
    assert u0[m - 1..m + 1] == [u0[m - 1], u0[m]] && u[m - 1..m + 1] == [0, 0];
    ThreeWords(u0[m - 1], u0[m], 0);
    ThreeWords(0, 0, 0);
  }

  // ---- Knuth's Algorithm D ------------------------------------------------------------------

  /** The estimated quotient digit: the exact quotient of the top three words by the top two,
      capped at 2^64 - 1. */
  ghost predicate IsTopQuotient(qhat: int, u3: int, d: int)
  {
    qhat * d <= u3 && (u3 < qhat * d + d || qhat == B - 1)
  }

  method EstimateDigit(u2: Word, u1: Word, u0: Word, d: U128, reciprocal: Word) returns (qhat: Word)
    requires d.hi >= 0x8000_0000_0000_0000 && u2 * B + u1 <= d.Value()
    requires reciprocal + B == (B * B - 1) / d.hi
    ensures IsTopQuotient(qhat, (u2 * B + u1) * B + u0, d.Value())
  {
    ghost var u3 := (u2 * B + u1) * B + u0;
    var dividend := U128(u2, u1);
    var rhat: U128;
    if dividend.hi >= d.hi {
      qhat := B - 1;
      rhat := Sub128(dividend, U128(d.hi, 0));
      rhat := Add128(rhat, U128(0, d.hi));
      Tested(qhat, d, u3, rhat.Value(), u0);
      if rhat.hi == 0 && Less128(U128(rhat.lo, u0), Umul(qhat, d.lo)) {
        qhat := qhat - 1;
      }
    } else {
      qhat, rhat := EstimateByDivision(dividend, d.hi, reciprocal);
      Tested(qhat, d, u3, rhat.Value(), u0);
      if Less128(U128(rhat.lo, u0), Umul(qhat, d.lo)) {
        qhat := qhat - 1;
        rhat := Add128(rhat, U128(0, d.hi));
        if rhat.hi == 0 && Less128(U128(rhat.lo, u0), Umul(qhat, d.lo)) {
          qhat := qhat - 1;
        }
      }
    }
  }

  method EstimateByDivision(dividend: U128, d: Word, reciprocal: Word) returns (qhat: Word, rhat: U128)
    requires d >= 0x8000_0000_0000_0000 && dividend.hi < d
    requires reciprocal + B == (B * B - 1) / d
    ensures dividend.Value() == qhat * d + rhat.lo && rhat.hi == 0 && rhat.lo < d
  {
    var q, r := WordDivision.Udivrem2by1(dividend, d, reciprocal);
    return q, U128(0, r);
  }

  /** Comparing qhat * d.lo with {rhat, u0} compares qhat * d with the three top words.  When the
      comparison fails the digit is too large, but by at most two. */
  lemma Tested(qhat: int, d: U128, u3: int, rhat: int, u0: Word)
    requires 0 <= qhat < B && d.hi >= 0x8000_0000_0000_0000 && 0 <= rhat
    requires u3 == (qhat * d.hi + rhat) * B + u0
    requires rhat < d.hi || (qhat == B - 1 && rhat >= d.hi)
    ensures var over := rhat * B + u0 < qhat * d.lo;
      var over1 := (rhat + d.hi) * B + u0 < (qhat - 1) * d.lo;
      && (!over ==> IsTopQuotient(qhat, u3, d.Value()))
      && (over ==> 0 < qhat && rhat < B)
      && (over && !over1 ==> IsTopQuotient(qhat - 1, u3, d.Value()))
      && (over && over1 ==> 1 < qhat && rhat + d.hi < B && IsTopQuotient(qhat - 2, u3, d.Value()))
  {
    var n := d.Value();
    var gap := rhat * B + u0 - qhat * d.lo;
    assert u3 == qhat * n + gap by { assert qhat * n == (qhat * d.hi) * B + qhat * d.lo; }
    ProductFits(qhat, d.lo);
    assert (qhat - 1) * d.lo == qhat * d.lo - d.lo;
    assert (qhat - 1) * n == qhat * n - n;
    assert (qhat - 2) * n == qhat * n - 2 * n;
    assert gap + 2 * n >= 0;
  }

  /** un[j..j+n] -= qhat * vn[..n], word by word with a running borrow. */
  method SubtractProduct(un: array<Word>, j: nat, vn: array<Word>, n: nat, qhat: Word) returns (borrow: Word)
    requires un != vn && j + n <= un.Length && n <= vn.Length
    modifies un
    ensures Val(un[j..j + n]) == Val(old(un[j..j + n])) - qhat * Val(vn[..n]) + borrow * BPow(n)
    ensures forall k :: 0 <= k < j || j + n <= k < un.Length ==> un[k] == old(un[k])
  {
    ghost var before := un[..];
    borrow := 0;
    assert before[j..j + 0] == [] && un[j..j + 0] == [] && vn[..0] == [];
    for i := 0 to n
      invariant forall k :: 0 <= k < j || j + i <= k < un.Length ==> un[k] == before[k]
      invariant Val(un[j..j + i]) == Val(before[j..j + i]) - qhat * Val(vn[..i]) + borrow * BPow(i)
    {
      ghost var low, borrow0 := un[j..j + i], borrow;
      var p := Umul(qhat, vn[i]);
      var s := Sub128(Sub128(U128(0, un[i + j]), U128(0, borrow)), U128(0, p.lo));
      un[i + j] := s.lo;
      borrow := Sub(p.hi, s.hi);
      BorrowFits(before[i + j], borrow0, p, s, qhat, vn[i]);
      assert un[..][j..j + i] == low && un[..][j..j + i + 1] == un[j..j + i + 1];
      SubtractWindow(before, un[..], vn[..], j, i, qhat, borrow0, borrow);
    }
    assert before[j..j + n] == old(un[j..j + n]);
  }

  lemma {:induction false} Snoc(low: seq<Word>, all: seq<Word>, top: Word)
    requires all == low + [top]
    ensures Val(all) == Val(low) + BPow(|low|) * top
  {
    ValAppend(low, [top]);
    assert Val([top]) == top;
  }

  lemma BorrowFits(x: Word, borrow: Word, p: U128, s: U128, qhat: int, w: int)
    requires 0 <= qhat < B && 0 <= w < B && p.Value() == qhat * w
    requires s == Sub128(Sub128(U128(0, x), U128(0, borrow)), U128(0, p.lo))
    ensures s.lo - B * Sub(p.hi, s.hi) == x - borrow - qhat * w
  {
    ProductFits(qhat, w);
  }

  lemma {:induction false} SubtractWindow(before: seq<Word>, after: seq<Word>, v: seq<Word>, j: nat, i: nat, q: int, b: int, b': int)
    requires |before| == |after| && j + i < |after| && i < |v|
    requires after[j + i] - B * b' == before[j + i] - b - q * v[i]
    requires Val(after[j..j + i]) == Val(before[j..j + i]) - q * Val(v[..i]) + b * BPow(i)
    ensures Val(after[j..j + i + 1]) == Val(before[j..j + i + 1]) - q * Val(v[..i + 1]) + b' * BPow(i + 1)
  {
    Snoc(after[j..j + i], after[j..j + i + 1], after[j + i]);
    Snoc(before[j..j + i], before[j..j + i + 1], before[j + i]);
    Snoc(v[..i], v[..i + 1], v[i]);
    SubtractStep(Val(after[j..j + i]), Val(before[j..j + i]), Val(v[..i]), BPow(i), q, b, after[j + i], before[j + i], v[i], b');
  }

  lemma SubtractStep(nw: int, od: int, vl: int, b: int, q: int, bor: int, slo: int, x: int, w: int, bor': int)
    requires nw == od - q * vl + bor * b
    requires slo - B * bor' == x - bor - q * w
    ensures nw + b * slo == od + b * x - q * (vl + b * w) + bor' * (B * b)
  {
    assert b * slo == b * x - b * bor - b * (q * w) + (B * b) * bor';
    Assoc(q, b, w);
    Assoc(b, q, w);
  }

  /** un[j..j+n] += vn[..n] with a running carry. */
  method AddBack(un: array<Word>, j: nat, vn: array<Word>, n: nat) returns (carry: Word)
    requires un != vn && j + n <= un.Length && n <= vn.Length
    modifies un
    ensures Val(un[j..j + n]) + carry * BPow(n) == Val(old(un[j..j + n])) + Val(vn[..n])
    ensures forall k :: 0 <= k < j || j + n <= k < un.Length ==> un[k] == old(un[k])
  {
    ghost var before := un[..];
    carry := 0;
    assert before[j..j + 0] == [] && un[j..j + 0] == [] && vn[..0] == [];
    for i := 0 to n
      invariant carry <= 1
      invariant forall k :: 0 <= k < j || j + i <= k < un.Length ==> un[k] == before[k]
      invariant Val(un[j..j + i]) + carry * BPow(i) == Val(before[j..j + i]) + Val(vn[..i])
    {
      ghost var low, carry0 := un[j..j + i], carry;
      var s := Add128(Add128(U128(0, un[i + j]), U128(0, vn[i])), U128(0, carry));
      un[i + j] := s.lo;
      carry := s.hi;
      assert un[..][j..j + i] == low && un[..][j..j + i + 1] == un[j..j + i + 1];
      AddWindow(before, un[..], vn[..], j, i, carry0, carry);
    }
    assert before[j..j + n] == old(un[j..j + n]);
  }

  lemma {:induction false} AddWindow(before: seq<Word>, after: seq<Word>, v: seq<Word>, j: nat, i: nat, c: int, c': int)
    requires |before| == |after| && j + i < |after| && i < |v|
    requires after[j + i] + B * c' == before[j + i] + v[i] + c
    requires Val(after[j..j + i]) + c * BPow(i) == Val(before[j..j + i]) + Val(v[..i])
    ensures Val(after[j..j + i + 1]) + c' * BPow(i + 1) == Val(before[j..j + i + 1]) + Val(v[..i + 1])
  {
    Snoc(after[j..j + i], after[j..j + i + 1], after[j + i]);
    Snoc(before[j..j + i], before[j..j + i + 1], before[j + i]);
    Snoc(v[..i], v[..i + 1], v[i]);
    AddStep(Val(after[j..j + i]), Val(before[j..j + i]), Val(v[..i]), BPow(i), c, after[j + i], before[j + i], v[i], c');
  }

  lemma AddStep(nw: int, od: int, vl: int, b: int, c: int, slo: int, x: int, w: int, c': int)
    requires nw + c * b == od + vl
    requires slo + B * c' == x + w + c
    ensures nw + b * slo + c' * (B * b) == od + b * x + (vl + b * w)
  {
    assert b * slo + (B * b) * c' == b * x + b * w + b * c;
  }

  /** The estimate is the true digit of U / V or one more. */
  lemma DigitBounds(u: int, v: int, p: int, u3: int, d: int, ulow: int, vlow: int, h: int)
    requires 1 <= p && u == u3 * p + ulow && v == d * p + vlow
    requires 0 <= ulow < p && 0 <= vlow < p && 0 <= h < B && d >= B
    requires IsTopQuotient(h, u3, d) && u < B * v && 0 <= u3
    ensures u < h * v + v
    ensures u >= h * v - v
  {
    if u3 < h * d + d {
      DigitAbove(u, v, p, u3, d, ulow, vlow, h);
    } else {
      assert h * v + v == B * v;
    }
    if h >= 1 { DigitBelow(u, v, p, u3, d, ulow, vlow, h - 1); }
  }

  lemma DigitAbove(u: int, v: int, p: int, u3: int, d: int, ulow: int, vlow: int, h: int)
    requires 1 <= p && u == u3 * p + ulow && v == d * p + vlow && ulow < p && 0 <= vlow && 0 <= h
    requires u3 < h * d + d
    ensures u < h * v + v
  {
    MulMono(u3 + 1, h * d + d, p);
    assert (h * d + d) * p == h * (d * p) + d * p by { Assoc(h, d, p); }
    MulMono(d * p, v, h);
  }

  lemma DigitBelow(u: int, v: int, p: int, u3: int, d: int, ulow: int, vlow: int, h: int)
    requires 1 <= p && u == u3 * p + ulow && v == d * p + vlow && 0 <= ulow && vlow < p && 0 <= h < d
    requires (h + 1) * d <= u3
    ensures u >= h * v
  {
    assert h * v == h * (d * p) + h * vlow;
    MulMono(vlow, p, h);
    assert h * (d * p) + h * p == (h * d + h) * p by { Assoc(h, d, p); }
    assert (h + 1) * d == h * d + d;
    MulMono(h * d + h, u3, p);
  }

  /** Splits a window of n + 1 words, and the divisor, at the words the estimate looks at. */
  lemma {:induction false} TopThree(w: seq<Word>, n: nat)
    requires n >= 2 && |w| == n + 1
    ensures Val(w) == ((w[n] * B + w[n - 1]) * B + w[n - 2]) * BPow(n - 2) + Val(w[..n - 2])
    ensures 0 <= Val(w[..n - 2]) < BPow(n - 2)
  {
    ValSplit(w, n - 2);
    ValBound(w[..n - 2]);
    assert w[n - 2..] == [w[n - 2], w[n - 1], w[n]];
    ThreeWords(w[n - 2], w[n - 1], w[n]);
    Commute(BPow(n - 2), Val(w[n - 2..]), (w[n] * B + w[n - 1]) * B + w[n - 2]);
  }

  lemma Commute(b: int, x: int, y: int)
    requires x == y
    ensures b * x == y * b
  {
  }

  lemma ThreeWords(a: Word, b: Word, c: Word)
    ensures Val([a, b]) == b * B + a
    ensures Val([a, b, c]) == (c * B + b) * B + a
  {
    assert [a, b, c][1..] == [b, c] && [b, c][1..] == [c] && [a, b][1..] == [b];
    SingleValue([c]);
    SingleValue([b]);
  }

  lemma {:induction false} TopTwo(v: seq<Word>, n: nat)
    requires n >= 2 && |v| == n
    ensures Val(v) == (v[n - 1] * B + v[n - 2]) * BPow(n - 2) + Val(v[..n - 2])
    ensures 0 <= Val(v[..n - 2]) < BPow(n - 2)
  {
    ValSplit(v, n - 2);
    ValBound(v[..n - 2]);
    assert v[n - 2..] == [v[n - 2], v[n - 1]];
    ThreeWords(v[n - 2], v[n - 1], 0);
    Commute(BPow(n - 2), Val(v[n - 2..]), v[n - 1] * B + v[n - 2]);
  }

  /** The two top words of a window below 2^64 * V do not exceed those of V. */
  lemma {:induction false} TopWords(w: seq<Word>, v: seq<Word>, n: nat)
    requires n >= 2 && |w| == n + 1 && |v| == n && Val(w) < B * Val(v)
    ensures w[n] * B + w[n - 1] <= v[n - 1] * B + v[n - 2]
  {
    TopThree(w, n);
    TopTwo(v, n);
    TopWordsAlgebra(w[n] * B + w[n - 1], v[n - 1] * B + v[n - 2], w[n - 2], BPow(n - 2),
                    Val(w[..n - 2]), Val(v[..n - 2]));
  }

  lemma TopWordsAlgebra(a: int, d: int, w: int, p: int, wl: int, vl: int)
    requires 1 <= p && 0 <= w && 0 <= wl && 0 <= vl < p
    requires (a * B + w) * p + wl < B * (d * p + vl)
    ensures a <= d
  {
    assert ((d + 1) * B) * p == B * (d * p) + B * p;
    if a >= d + 1 { MulMono((d + 1) * B, a * B + w, p); }
  }

  /** One digit of Algorithm D: estimate, multiply and subtract, and add back if that was too much. */
  method DivideWindow(un: array<Word>, j: nat, vn: array<Word>, n: nat, reciprocal: Word) returns (digit: Word)
    requires un != vn && 3 <= n <= vn.Length && j + n < un.Length
    requires vn[n - 1] >= 0x8000_0000_0000_0000
    requires reciprocal + B == (B * B - 1) / vn[n - 1]
    requires Val(un[j..j + n + 1]) < B * Val(vn[..n])
    modifies un
    ensures Val(old(un[j..j + n + 1])) == digit * Val(vn[..n]) + Val(un[j..j + n])
    ensures Val(un[j..j + n]) < Val(vn[..n])
    ensures un[j + n] == 0
    ensures forall k :: 0 <= k < j || j + n < k < un.Length ==> un[k] == old(un[k])
  {
    ghost var w, v, b := un[j..j + n + 1], vn[..n], BPow(n);
    var u2, u1, u0 := un[j + n], un[j + n - 1], un[j + n - 2];
    TopWords(w, v, n);
    var qhat := EstimateDigit(u2, u1, u0, U128(vn[n - 1], vn[n - 2]), reciprocal);
    EstimateBounds(w, v, n, qhat);
    Snoc(un[j..j + n], w, u2);
    ghost var low := Val(un[j..j + n]);

    digit := ReplaceWindow(un, j, vn, n, qhat, u2, Val(w), low);
  }

  /** The multiply-and-subtract half of a step, with the add-back. */
  method ReplaceWindow(un: array<Word>, j: nat, vn: array<Word>, n: nat, qhat: Word, u2: Word,
                       ghost total: int, ghost low: int) returns (digit: Word)
    requires un != vn && n <= vn.Length && j + n < un.Length && un[j + n] == u2
    requires low == Val(un[j..j + n]) && total == low + BPow(n) * u2 && total >= 0
    requires 0 <= Val(vn[..n]) < BPow(n)
    requires qhat * Val(vn[..n]) - Val(vn[..n]) <= total < qhat * Val(vn[..n]) + Val(vn[..n])
    modifies un
    ensures total == digit * Val(vn[..n]) + Val(un[j..j + n])
    ensures Val(un[j..j + n]) < Val(vn[..n])
    ensures un[j + n] == 0
    ensures forall k :: 0 <= k < j || j + n < k < un.Length ==> un[k] == old(un[k])
  {
    ghost var v, b := Val(vn[..n]), BPow(n);
    var borrow := SubtractProduct(un, j, vn, n, qhat);
    ghost var r := un[j..j + n];
    ValBound(r);
    AfterSubtract(total, low, u2, b, v, qhat, Val(r), borrow);
    un[j + n] := Sub(u2, borrow);
    assert un[j..j + n] == r;
    digit := qhat;
    if u2 < borrow {
      digit := qhat - 1;
      var carry := AddBack(un, j, vn, n);
      ghost var r' := un[j..j + n];
      ValBound(r');
      AfterAddBack(total, u2, b, v, qhat, Val(r), borrow, Val(r'), carry);
      un[j + n] := Add(un[j + n], carry);
      assert un[j..j + n] == r';
    }
  }

  lemma {:induction false} EstimateBounds(w: seq<Word>, v: seq<Word>, n: nat, qhat: Word)
    requires n >= 3 && |w| == n + 1 && |v| == n && Val(w) < B * Val(v)
    requires v[n - 1] >= 0x8000_0000_0000_0000
    requires IsTopQuotient(qhat, (w[n] * B + w[n - 1]) * B + w[n - 2], v[n - 1] * B + v[n - 2])
    ensures qhat * Val(v) - Val(v) <= Val(w) < qhat * Val(v) + Val(v)
    ensures 0 <= Val(v) < BPow(n)
  {
    TopThree(w, n);
    TopTwo(v, n);
    ValBound(v);
    DigitBounds(Val(w), Val(v), BPow(n - 2), (w[n] * B + w[n - 1]) * B + w[n - 2], v[n - 1] * B + v[n - 2],
                Val(w[..n - 2]), Val(v[..n - 2]), qhat);
  }

  /** Without a final borrow the digit was right; with one it was one too large. */
  lemma AfterSubtract(total: int, low: int, u2: int, b: int, v: int, q: int, rest: int, borrow: int)
    requires total == low + b * u2 && rest == low - q * v + borrow * b && total >= 0
    requires 0 <= rest < b && 0 <= v < b && q * v - v <= total < q * v + v
    ensures total == q * v + rest + (u2 - borrow) * b
    ensures u2 >= borrow ==> u2 == borrow && rest < v && total == q * v + rest
    ensures u2 < borrow ==> q != 0 && total < q * v
  {
    assert (u2 - borrow) * b == b * u2 - borrow * b;
    if u2 > borrow { MulMono(1, u2 - borrow, b); }
    if u2 < borrow { MulMono(u2 - borrow, -1, b); }
  }

  lemma AfterAddBack(total: int, u2: int, b: int, v: int, q: int, rest: int, borrow: int, rest': int, carry: int)
    requires total == q * v + rest + (u2 - borrow) * b
    requires rest' + carry * b == rest + v && 0 <= rest' < b && 0 <= rest < b && 0 <= v < b
    requires q * v - v <= total < q * v + v && u2 < borrow && 0 <= carry && total < q * v
    ensures carry == 1 && u2 + 1 == borrow && total == (q - 1) * v + rest' && rest' < v
  {
    var c := u2 - borrow + carry;
    assert c * b == (u2 - borrow) * b + carry * b;
    assert (q - 1) * v == q * v - v;
    assert total == (q - 1) * v + rest' + c * b;
    if c >= 1 { MulMono(1, c, b); }
    if c <= -1 { MulMono(c, -1, b); }
    if carry >= 2 { MulMono(2, carry, b); }
  }

  method UdivremKnuth(q: array<Word>, un: array<Word>, m: nat, vn: array<Word>, n: nat)
    requires q != un && q != vn && un != vn
    requires 3 <= n <= m && m < un.Length && n <= vn.Length && m - n < q.Length
    requires vn[n - 1] >= 0x8000_0000_0000_0000 && un[m] < 0x8000_0000_0000_0000
    modifies q, un
    ensures Val(old(un[..m + 1])) == Val(q[..m - n + 1]) * Val(vn[..n]) + Val(un[..n])
    ensures Val(un[..n]) < Val(vn[..n])
    ensures forall k :: n <= k <= m ==> un[k] == 0
    ensures forall k :: m - n < k < q.Length ==> q[k] == old(q[k])
  {
    var top := m - n + 1;
    ghost var all, v := Val(un[..m + 1]), vn[..n];
    var reciprocal := WordDivision.Reciprocal2by1(vn[n - 1]);
    TopWindowBelow(un[top..m + 1], v, n);
    EmptyQuotient(all, q[top..top], BPow(top), Val(v));
    assert un[..][top..top + n] == un[top..m + 1] && un[..][..top + n] == un[..m + 1] && q[..][top..top] == q[top..top];
    for j := top downto 0
      invariant vn[..n] == v
      invariant Divided(q[..], un[..], j, n, top, all, Val(v))
      invariant forall k :: top <= k < q.Length ==> q[k] == old(q[k])
    {
      StoreDigit(q, un, j, top, vn, n, reciprocal, all);
    }
    assert un[..][0..n] == un[..n] && un[..][..n] == un[..n] && q[..][0..top] == q[..top];
  }

  /** The quotient digits from j on divide the dividend down to a remainder in the words below j + n. */
  ghost predicate Divided(q: seq<Word>, un: seq<Word>, j: nat, n: nat, top: nat, all: int, v: int)
  {
    j <= top <= |q| && top + n <= |un| &&
    (forall k :: j + n <= k < top + n ==> un[k] == 0) &&
    Val(un[j..j + n]) < v &&
    all == BPow(j) * (Val(q[j..top]) * v) + Val(un[..j + n])
  }

  method StoreDigit(q: array<Word>, un: array<Word>, j: nat, top: nat, vn: array<Word>, n: nat, reciprocal: Word,
                    ghost all: int)
    requires q != un && q != vn && un != vn
    requires 3 <= n <= vn.Length && j < top
    requires vn[n - 1] >= 0x8000_0000_0000_0000 && reciprocal + B == (B * B - 1) / vn[n - 1]
    requires Divided(q[..], un[..], j + 1, n, top, all, Val(vn[..n]))
    modifies q, un
    ensures Divided(q[..], un[..], j, n, top, all, Val(vn[..n]))
    ensures forall k :: j < k < q.Length ==> q[k] == old(q[k])
  {
    ghost var before, q0, v := un[..], q[..], Val(vn[..n]);
    WindowBelow(before, j, n, v);
    assert before[j..j + n + 1] == un[j..j + n + 1];
    q[j] := DivideWindow(un, j, vn, n, reciprocal);
    assert un[..][j..j + n] == un[j..j + n];
    WindowStep(before, un[..], q0, q[..], j, n, top, all, v);
  }

  lemma {:induction false} EmptyQuotient(all: int, q: seq<Word>, b: int, v: int)
    requires q == []
    ensures all == b * (Val(q) * v) + all
  {
  }

  lemma KnuthStep(all: int, b: int, q: int, v: int, low: int, window: int, digit: int, r: int)
    requires all == (B * b) * (q * v) + (low + b * window)
    requires window == digit * v + r
    ensures all == b * ((digit + B * q) * v) + (low + b * r)
  {
    assert (digit + B * q) * v == digit * v + B * (q * v);
    assert b * (digit * v + r) == b * (digit * v) + b * r;
    Assoc(B, b, q * v);
    Assoc(b, B, q * v);
  }

  /** A window whose top word is below that of the divisor is below the divisor. */
  lemma {:induction false} TopWindowBelow(w: seq<Word>, v: seq<Word>, n: nat)
    requires 0 < n == |w| == |v| && w[n - 1] < v[n - 1]
    ensures Val(w) < Val(v)
  {
    assert w[..n] == w && v[..n] == v;
    ValSnoc(w, n - 1);
    ValSnoc(v, n - 1);
    ValBound(w[..n - 1]);
    HigherDigit(Val(w[..n - 1]), Val(v[..n - 1]), BPow(n - 1), w[n - 1], v[n - 1]);
  }

  lemma HigherDigit(lw: int, lv: int, b: int, w: int, v: int)
    requires 0 <= lw < b && 0 <= lv && w < v
    ensures lw + b * w < lv + b * v
  {
    MulMono(w + 1, v, b);
  }

  lemma {:induction false} WindowBelow(un: seq<Word>, j: nat, n: nat, v: int)
    requires j + n < |un| && Val(un[j + 1..j + 1 + n]) < v
    ensures Val(un[j..j + n + 1]) < B * v
  {
    assert un[j..j + n + 1][1..] == un[j + 1..j + 1 + n];
  }

  /** Replacing a window by its remainder and recording the digit keeps the division equation. */
  lemma {:induction false} WindowStep(un: seq<Word>, un': seq<Word>, q: seq<Word>, q': seq<Word>, j: nat, n: nat, top: nat, all: int, v: int)
    requires |un| == |un'| && |q| == |q'| && j + n < |un| && j < top <= |q|
    requires un'[..j] == un[..j] && q'[j + 1..top] == q[j + 1..top]
    requires Val(un[j..j + n + 1]) == q'[j] * v + Val(un'[j..j + n])
    requires all == BPow(j + 1) * (Val(q[j + 1..top]) * v) + Val(un[..j + 1 + n])
    ensures all == BPow(j) * (Val(q'[j..top]) * v) + Val(un'[..j + n])
  {
    var low := un[..j];
    assert un[..j + 1 + n] == low + un[j..j + n + 1] && un'[..j + n] == low + un'[j..j + n];
    ValAppend(low, un[j..j + n + 1]);
    ValAppend(low, un'[j..j + n]);
    assert q'[j..top][1..] == q'[j + 1..top];
    KnuthStep(all, BPow(j), Val(q[j + 1..top]), v, Val(low), Val(un[j..j + n + 1]), q'[j], Val(un'[j..j + n]));
  }

  // ---- Division of two numbers of the same word count ---------------------------------------

  method Udivrem(u: seq<Word>, v: seq<Word>) returns (quot: seq<Word>, rem: seq<Word>)
    requires |u| == |v| && Val(v) != 0
    ensures |quot| == |rem| == |u|
    ensures Val(u) == Val(quot) * Val(v) + Val(rem)
    ensures Val(rem) < Val(v)
  {
    var un, vn, m, n, shift := Normalize(u, v);

    if n > m {
      ShorterIsLess(u, v, m, n);
      return Zeros(|u|), u;
    }

    if n == 1 {
      SingleValue(vn[..1]);
      quot, rem := FinishBy1(un, m, vn[0], shift, Val(u), Val(v));
      return;
    }

    if n == 2 {
      TopPair(vn[..2]);
      quot, rem := FinishBy2(un, m, U128(vn[1], vn[0]), shift, Val(u), Val(v));
      return;
    }

    quot, rem := FinishKnuth(un, m, vn, n, shift, Val(u), Val(v));
  }

  /** The branch for one significant divisor word. */
  method FinishBy1(un: array<Word>, m: nat, d: Word, shift: nat, ghost u: int, ghost v: int)
    returns (quot: seq<Word>, rem: seq<Word>)
    requires 1 <= m < un.Length && shift < 64 && d >= 0x8000_0000_0000_0000 && un[m] < 0x8000_0000_0000_0000
    requires forall k :: m < k < un.Length ==> un[k] == 0
    requires 0 < v && Val(un[..m + 1]) == u * Pow2(shift) && d == v * Pow2(shift)
    modifies un
    ensures |quot| == |rem| == un.Length - 1
    ensures u == Val(quot) * v + Val(rem) && Val(rem) < v
  {
    var r := UdivremBy1(un, m, d);
    var len := un.Length - 1;
    TopZeros(un[..], m, len);
    assert un[..][..m + 1] == un[..m + 1] && un[..][..len] == un[..len];
    WordDivision.Unshift(u, v, Pow2(shift), Val(un[..len]), r);
    Padded([Shr(r, shift)], len - 1);
    SingleValue([Shr(r, shift)]);
    return un[..len], [Shr(r, shift)] + Zeros(len - 1);
  }

  method FinishKnuth(un: array<Word>, m: nat, vn: array<Word>, n: nat, shift: nat, ghost u: int, ghost v: int)
    returns (quot: seq<Word>, rem: seq<Word>)
    requires un != vn && 3 <= n <= m < un.Length && vn.Length == un.Length - 1 && shift < 64
    requires vn[n - 1] >= 0x8000_0000_0000_0000 && un[m] < 0x8000_0000_0000_0000
    requires 0 < v && Val(un[..m + 1]) == u * Pow2(shift) && Val(vn[..n]) == v * Pow2(shift)
    modifies un
    ensures |quot| == |rem| == un.Length - 1
    ensures u == Val(quot) * v + Val(rem) && Val(rem) < v
  {
    var len := un.Length - 1;
    var q := new Word[len](_ => 0);
    UdivremKnuth(q, un, m, vn, n);
    var rw := new Word[len](_ => 0);
    UnshiftWords(un, rw, n, shift);
    WordDivision.Unshift(u, v, Pow2(shift), Val(q[..m - n + 1]), Val(un[..n]));
    assert q[..][..m - n + 1] == q[..m - n + 1] && rw[..][..n] == rw[..n];
    ValTopZero(q[..], m - n + 1);
    ValTopZero(rw[..], n);
    return q[..], rw[..];
  }

  /** The branch for two significant divisor words. */
  method FinishBy2(un: array<Word>, m: nat, d: U128, shift: nat, ghost u: int, ghost v: int)
    returns (quot: seq<Word>, rem: seq<Word>)
    requires 2 <= m < un.Length && shift < 64 && d.hi >= 0x8000_0000_0000_0000 && un[m] < 0x8000_0000_0000_0000
    requires forall k :: m < k < un.Length ==> un[k] == 0
    requires 0 < v && Val(un[..m + 1]) == u * Pow2(shift) && d.Value() == v * Pow2(shift)
    modifies un
    ensures |quot| == |rem| == un.Length - 1
    ensures u == Val(quot) * v + Val(rem) && Val(rem) < v
  {
    var r := UdivremBy2(un, m, d);
    var len := un.Length - 1;
    TopZeros(un[..], m, len);
    assert un[..][..m + 1] == un[..m + 1] && un[..][..len] == un[..len];
    WordDivision.Unshift(u, v, Pow2(shift), Val(un[..len]), r.Value());
    var s := WordDivision.Shr128(r, shift);
    Padded([s.lo, s.hi], len - 2);
    TopPair([s.lo, s.hi]);
    return un[..len], [s.lo, s.hi] + Zeros(len - 2);
  }

  lemma {:induction false} Padded(low: seq<Word>, n: nat)
    ensures Val(low + Zeros(n)) == Val(low)
  {
    ValAppend(low, Zeros(n));
  }

  lemma {:induction false} TopZeros(un: seq<Word>, m: nat, len: nat)
    requires m <= len == |un| - 1 && forall k :: m <= k < |un| ==> un[k] == 0
    ensures Val(un[..len]) == Val(un[..m + 1])
  {
    assert un[..len][..m] == un[..m] && un[..m + 1][..m] == un[..m];
    ValTopZero(un[..len], m);
    ValTopZero(un[..m + 1], m);
  }

  ghost function UnshiftTarget(un: seq<Word>, n: nat, s: nat): (x: seq<Word>)
    requires n < |un| && s < 64
    ensures |x| == n
  {
    seq(n, i requires 0 <= i < n => if s != 0 then ShiftIn(un[i + 1], un[i], 64 - s) else un[i])
  }

  /** The remainder words, shifted back by the normalisation count. */
  method UnshiftWords(un: array<Word>, rw: array<Word>, n: nat, s: nat)
    requires un != rw && n < un.Length && n <= rw.Length && s < 64 && un[n] == 0
    modifies rw
    ensures Val(rw[..n]) == Val(un[..n]) / Pow2(s)
    ensures forall k :: n <= k < rw.Length ==> rw[k] == old(rw[k])
  {
    StoreUnshifted(un, rw, n, s);
    UnshiftTargetValue(un[..], n, s);
    assert rw[..n] == UnshiftTarget(un[..], n, s) && un[..][..n] == un[..n];
  }

  method StoreUnshifted(un: array<Word>, rw: array<Word>, n: nat, s: nat)
    requires un != rw && n < un.Length && n <= rw.Length && s < 64
    modifies rw
    ensures rw[..][..n] == UnshiftTarget(un[..], n, s)
    ensures forall k :: n <= k < rw.Length ==> rw[k] == old(rw[k])
  {
    ghost var x := UnshiftTarget(un[..], n, s);
    for i := 0 to n
      invariant forall k :: n <= k < rw.Length ==> rw[k] == old(rw[k])
      invariant forall k :: 0 <= k < i ==> rw[k] == x[k]
    {
      rw[i] := if s != 0 then ShiftIn(un[i + 1], un[i], 64 - s) else un[i];
    }
    assert rw[..][..n] == x;
  }

  lemma {:induction false} UnshiftTargetValue(un: seq<Word>, n: nat, s: nat)
    requires n < |un| && s < 64 && un[n] == 0
    ensures Val(UnshiftTarget(un, n, s)) == Val(un[..n]) / Pow2(s)
  {
    var x := UnshiftTarget(un, n, s);
    TargetIsUnshifted(un, n, s);
    UnshiftedValue(un, x, Pow2(s), n);
    assert x[..n] == x;
    ZeroMod(Pow2(s));
    Commute(Pow2(s), Val(x), Val(x));
    DivisionUnique(Val(un[..n]), Val(x), Pow2(s), un[0] % Pow2(s));
  }

  lemma {:induction false} TargetIsUnshifted(un: seq<Word>, n: nat, s: nat)
    requires n < |un| && s < 64
    ensures forall k :: 0 <= k < n ==> UnshiftedWord(un, UnshiftTarget(un, n, s), Pow2(s), k)
  {
    forall k | 0 <= k < n
      ensures UnshiftedWord(un, UnshiftTarget(un, n, s), Pow2(s), k)
    {
      UnshiftWord(un[k + 1], un[k], s, UnshiftTarget(un, n, s)[k]);
    }
  }

  lemma ZeroMod(p: int)
    requires 1 <= p
    ensures 0 % p == 0
  {
  }

  ghost predicate UnshiftedWord(un: seq<Word>, x: seq<Word>, p: int, k: nat)
    requires k < |x| < |un| && 1 <= p
  {
    p * x[k] == un[k] - un[k] % p + B * (un[k + 1] % p)
  }

  lemma {:induction false} UnshiftedValue(un: seq<Word>, x: seq<Word>, p: int, i: nat)
    requires i <= |x| < |un| && 1 <= p
    requires forall k :: 0 <= k < |x| ==> UnshiftedWord(un, x, p, k)
    ensures Val(un[..i]) + BPow(i) * (un[i] % p) == p * Val(x[..i]) + un[0] % p
  {
    if i == 0 {
      assert un[..0] == [] && x[..0] == [];
    } else {
      var k := i - 1;
      UnshiftedValue(un, x, p, k);
      ValSnoc(un, k);
      ValSnoc(x, k);
      assert UnshiftedWord(un, x, p, k);
      UnshiftStep(Val(un[..k]), Val(x[..k]), BPow(k), p, un[k], x[k], un[k] % p, un[i] % p, un[0] % p);
    }
  }

  /** A word shifted right takes in the low bits of the word above and gives up its own. */
  lemma {:induction false} UnshiftWord(hi: Word, lo: Word, s: nat, x: Word)
    requires s < 64 && x == if s != 0 then ShiftIn(hi, lo, 64 - s) else lo
    ensures Pow2(s) * x == lo - lo % Pow2(s) + B * (hi % Pow2(s))
  {
    var p := Pow2(s);
    if s != 0 {
      ShlExact(hi, 64 - s);
      Pow2Split(s);
      UnshiftWordAlgebra(hi, lo, p, Pow2(64 - s), hi / p, lo / p, Shl(hi, 64 - s));
    }
  }

  lemma UnshiftWordAlgebra(hi: int, lo: int, p: int, q: int, a: int, c: int, h: int)
    requires 1 <= p && p * q == B && hi * q == a * B + h && a == hi / p && c == lo / p
    ensures p * (h + c) == lo - lo % p + B * (hi % p)
  {
    assert lo == c * p + lo % p && hi == a * p + hi % p;
    assert (hi * q) * p == hi * B by { Assoc(hi, q, p); }
    assert p * h == hi * B - (a * B) * p;
    assert (a * B) * p == B * (a * p);
  }

  lemma UnshiftStep(u: int, x: int, b: int, p: int, uk: int, xk: int, modk: int, modi: int, mod0: int)
    requires u + b * modk == p * x + mod0
    requires p * xk == uk - modk + B * modi
    ensures u + b * uk + (B * b) * modi == p * (x + b * xk) + mod0
  {
    assert p * (b * xk) == b * (uk - modk + B * modi) by { Assoc(p, b, xk); Assoc(b, p, xk); }
    Assoc(b, B, modi);
  }

  lemma {:induction false} TopPair(v: seq<Word>)
    requires |v| == 2
    ensures Val(v) == v[1] * B + v[0]
  {
    assert v[1..] == [v[1]];
    SingleValue([v[1]]);
  }

  lemma {:induction false} ShorterIsLess(u: seq<Word>, v: seq<Word>, m: nat, n: nat)
    requires m < n <= |v| && m <= |u| && v[n - 1] != 0 && Val(u) == Val(u[..m])
    ensures Val(u) < Val(v)
  {
    ValBound(u[..m]);
    ValTopNonzero(v, n);
    BPowMono(m, n - 1);
  }

  lemma {:induction false} BPowMono(a: nat, b: nat)
    requires a <= b
    ensures BPow(a) <= BPow(b)
  {
    BPowSum(a, b - a);
    MulMono(1, BPow(b - a), BPow(a));
  }
}
