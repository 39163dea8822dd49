/** 64-bit machine words, the 128-bit pairs built from them, and little-endian word arrays,
    with the wrap-around arithmetic of the unsigned C++ types written out over `int`. */
module Words {
  import opened Arithmetic

  const B: int := 0x1_0000_0000_0000_0000

  type Word = x: int | 0 <= x < 0x1_0000_0000_0000_0000

  /** Wrapping 64-bit operations. */
  function Wrap(x: int): Word { x % 0x1_0000_0000_0000_0000 }

  lemma WrapUnique(n: int, k: int, w: int)
    requires n == k * B + w && 0 <= w < B
    ensures Wrap(n) == w
  {
  }

  function Add(x: Word, y: Word): (z: Word)
  {
    if x + y < B then x + y else x + y - B
  }

  function Sub(x: Word, y: Word): (z: Word)
  {
    if y <= x then x - y else x - y + B
  }

  function Mul(x: Word, y: Word): Word { Wrap(x * y) }

  /** intx::uint128. */
  datatype U128 = U128(hi: Word, lo: Word)
  {
    function Value(): int { hi * B + lo }
  }

  function FromValue(n: int): U128
    requires 0 <= n < B * B
  {
    HighPart(n);
    U128(n / B, n % B)
  }

  lemma HighPart(n: int)
    requires 0 <= n < B * B
    ensures 0 <= n / B < B
  {
  }

  /** Full 64 x 64 -> 128 multiplication. */
  function Umul(x: Word, y: Word): (p: U128)
    ensures p.Value() == x * y
  {
    ProductFits(x, y);
    FromValue(x * y)
  }

  lemma ProductFits(x: int, y: int)
    requires 0 <= x < B && 0 <= y < B
    ensures 0 <= x * y <= (B - 1) * (B - 1)
  {
    if x != 0 && y != 0 {
      MulMono(x, B - 1, y);
      MulMono(y, B - 1, B - 1);
    }
  }

  /** operator+ and operator- of uint128: the carry is recovered from a wrapped low word. */
  function Add128(x: U128, y: U128): (z: U128)
    ensures z.Value() == if x.Value() + y.Value() < B * B then x.Value() + y.Value() else x.Value() + y.Value() - B * B
  {
    var lo := Add(x.lo, y.lo);
    var carry := if x.lo > lo then 1 else 0;
    U128(Add(Add(x.hi, y.hi), carry), lo)
  }

  function Sub128(x: U128, y: U128): (z: U128)
    ensures z.Value() == if y.Value() <= x.Value() then x.Value() - y.Value() else x.Value() - y.Value() + B * B
  {
    var lo := Sub(x.lo, y.lo);
    var borrow := if x.lo < lo then 1 else 0;
    U128(Sub(Sub(x.hi, y.hi), borrow), lo)
  }

  predicate Less128(x: U128, y: U128)
    ensures Less128(x, y) <==> x.Value() < y.Value()
  {
    x.hi < y.hi || (x.hi == y.hi && x.lo < y.lo)
  }
}
