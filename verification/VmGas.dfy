/** Gas and memory of the interpreter: memory growth and its price, the 64-bit gas sums, the memory
    instructions, and sub-calls. */
module VmGas {

  import opened Bytes

  type Word = Word256

  const INT63_MAX := 0x7FFF_FFFF_FFFF_FFFF
  const U64 := 0x1_0000_0000_0000_0000
  const U32 := 0x1_0000_0000

  const MEMORY_GAS := 3
  const QUAD_COEFF_DIV := 512
  const COPY_GAS := 3
  const SHA3_GAS := 30
  const SHA3_WORD_GAS := 6
  const LOG_GAS := 375
  const LOG_DATA_GAS := 8
  const LOG_TOPIC_GAS := 375
  const CREATE_GAS := 32000
  const VALUE_TRANSFER_GAS := 9000
  const CALL_STIPEND := 2300
  const CALL_NEW_ACCOUNT := 25000
  const SSTORE_SET_GAS := 20000
  const SSTORE_RESET_GAS := 5000
  const SLOAD_GAS := 200
  const CALL_GAS := 700
  const VERY_LOW_GAS := 3
  const EXT_CODE_GAS := 700
  const EXP_GAS := 10
  const EXP_BYTE_GAS := 50

  function Wrap64(a: int): (r: nat)
    ensures 0 <= a < U64 ==> r == a
    ensures r < U64
  {
    a % U64
  }

  function Add64(a: nat, b: nat): (r: nat)
    ensures a + b < U64 ==> r == a + b
  {
    Wrap64(a + b)
  }

  // ---- The price of memory ------------------------------------------------------------------------

  function Words(n: nat): nat { (n + 31) / 32 }

  /** The square as a sum of odd numbers, which keeps products out of the proofs. */
  function Square(s: nat): nat
  {
    if s == 0 then 0 else Square(s - 1) + 2 * s - 1
  }

  lemma {:induction false} SquareIs(s: nat)
    ensures Square(s) == s * s
  {
    if s > 0 { SquareIs(s - 1); }
  }

  lemma {:induction false} SquareMonotone(s: nat, t: nat)
    requires s <= t
    ensures Square(s) <= Square(t)
    decreases t - s
  {
    if s < t { SquareMonotone(s, t - 1); }
  }

  /** The price of a memory of this many bytes, without overflow. */
  function MemCost(len: nat): nat
  {
    MEMORY_GAS * (len / 32) + Square(len / 32) / QUAD_COEFF_DIV
  }

  /** A larger memory never costs less. */
  lemma MemCostMonotone(a: nat, b: nat)
    requires a <= b
    ensures MemCost(a) <= MemCost(b)
  {
    var s, t := a / 32, b / 32;
    SquareMonotone(s, t);
  }

  /** The price of the first memory that a 32-bit offset cannot address. */
  function WideMemoryCost(): nat { MemCost(U32 + 32) }

  /** A memory that costs less has at most 2^32 bytes. */
  lemma CheapMemoryIsAddressable(len: nat)
    requires len % 32 == 0 && MemCost(len) < WideMemoryCost()
    ensures len <= U32
  {
    if len > U32 { MemCostMonotone(U32 + 32, len); }
  }

  /** The bound in gas units: just above 2^45. */
  lemma WideMemoryCostIs()
    ensures WideMemoryCost() == 0x2000_0000_0000 + 0x8_0000 + 402_653_187
  {
    var s := (U32 + 32) / 32;
    assert s == 134_217_729;
    SquareIs(s);
    assert s * s == 18_014_398_777_917_441;
  }

  lemma WideMemoryIsDear()
    ensures 0x2000_0000_0000 < WideMemoryCost()
  {
    WideMemoryCostIs();
  }

  // ---- Words in memory ----------------------------------------------------------------------------

  /** resize: new bytes are zero. */
  function Grow(mem: seq<Byte>, len: nat): (m: seq<Byte>)
    ensures |m| == if len > |mem| then len else |mem|
    ensures mem <= m && forall k :: |mem| <= k < |m| ==> m[k] == 0
  {
    if len > |mem| then mem + Zeros(len - |mem|) else mem
  }

  /** The memory with these bytes at off. */
  function Write(mem: seq<Byte>, off: nat, bytes: seq<Byte>): (m: seq<Byte>)
    requires off + |bytes| <= |mem|
    ensures |m| == |mem| && m[off..off + |bytes|] == bytes
    ensures forall k :: 0 <= k < |mem| ==> m[k] == if off <= k < off + |bytes| then bytes[k - off] else mem[k]
  {
    mem[..off] + bytes + mem[off + |bytes|..]
  }

  function LoadWord(mem: seq<Byte>, off: nat): Word
    requires off + 32 <= |mem|
  {
    FromBigEndianBound(mem[off..off + 32]);
    Pow256At32();
    FromBigEndian(mem[off..off + 32])
  }

  /** A stored word is loaded back. */
  lemma StoreThenLoad(mem: seq<Byte>, off: nat, v: Word)
    requires off + 32 <= |mem|
    ensures LoadWord(Write(mem, off, BigEndian(v, 32)), off) == v
  {
    Pow256At32();
    BigEndianRoundTrip(v, 32);
  }

  /** Byte i of a stored word counts 256^(31 - i), and no other byte changes. */
  lemma StoredByte(mem: seq<Byte>, off: nat, v: Word, i: nat)
    requires off + 32 <= |mem| && i < |mem|
    ensures Write(mem, off, BigEndian(v, 32))[i] ==
      if off <= i < off + 32 then v / Pow256(31 - (i - off)) % 256 else mem[i]
  {
    if off <= i < off + 32 { BigEndianByte(v, 32, i - off); }
  }

  lemma LoadedByte(mem: seq<Byte>, off: nat, i: nat)
    requires off + 32 <= |mem| && i < 32
    ensures LoadWord(mem, off) / Pow256(31 - i) % 256 == mem[off + i]
  {
    FromBigEndianByte(mem[off..off + 32], i);
  }

  // ---- The interpreter -------------------------------------------------------------------------------

  datatype Storage = Added | Modified | Deleted | Same | ModifiedAgain

  function StorageGas(status: Storage): nat
  {
    match status
    case Added => SSTORE_SET_GAS
    case Modified => SSTORE_RESET_GAS
    case Deleted => SSTORE_RESET_GAS
    case Same => SLOAD_GAS
    case ModifiedAgain => SLOAD_GAS
  }

  datatype CallKind = Call | CallCode | DelegateCall | StaticCall

  /** The host's answers: whether the account exists and the balance suffices, the gas that comes back
      for the gas given, and the callee's output. */
  datatype Peer = Peer(present: bool, balanceOk: bool, depthOk: bool, gasLeft: nat -> nat, output: seq<Byte>)
  {
    /** It returns at most the gas it was given. */
    ghost predicate Honest()
    {
      forall g :: gasLeft(g) <= g
    }
  }

  /** toInt63: false is the out-of-gas exception. */
  method ToInt63(v: nat) returns (ok: bool, w: nat)
    ensures ok <==> v <= INT63_MAX
    ensures ok ==> w == v
  {
    ok, w := v <= INT63_MAX, v % U64;
  }

  /** The memory an access of this size needs. */
  function NeedOf(offset: nat, size: nat): nat { if size == 0 then 0 else offset + size }

  method MemNeed(offset: Word, size: Word) returns (ok: bool, need: nat)
    ensures ok <==> NeedOf(offset, size) <= INT63_MAX
    ensures ok ==> need == NeedOf(offset, size)
  {
    ok, need := ToInt63(if size != 0 then offset + size else 0);
  }

  method GasForMem(size: nat) returns (ok: bool, gas: nat)
    ensures ok <==> MemCost(size) <= INT63_MAX
    ensures ok ==> gas == MemCost(size)
  {
    var s := size / 32;
    SquareIs(s);
    ok, gas := ToInt63(MEMORY_GAS * s + s * s / QUAD_COEFF_DIV);
  }

  /** The length of memory once this many bytes are in use. */
  function Rounded(need: nat): nat { Words(need) * 32 }

  function MaxLen(a: nat, b: nat): nat { if a > b then a else b }

  class Vm {
    var ioGas: nat
    var runGas: nat
    var newMemSize: nat
    var copyMemSize: nat
    var mem: seq<Byte>
    /** The expansion charges so far. */
    ghost var paid: nat

    constructor (gas: nat)
      requires gas <= INT63_MAX
      ensures Valid() && ioGas == gas && mem == []
    {
      ioGas, runGas, newMemSize, copyMemSize, mem, paid := gas, 0, 0, 0, [], 0;
    }

    /** Memory comes in words, the expansion charges have added up to its price, and the gas left with
        them fits 63 bits. */
    ghost predicate Valid()
      reads this
    {
      |mem| % 32 == 0 && paid == MemCost(|mem|) && Budget() <= INT63_MAX
    }

    /** The gas left and the gas memory has cost so far. */
    function Budget(): nat
      reads this
    {
      ioGas + MemCost(|mem|)
    }

    /** What growing to len costs now. */
    function Expansion(len: nat): nat
      reads this
    {
      if len > |mem| then (MemCostMonotone(|mem|, len); MemCost(len) - MemCost(|mem|)) else 0
    }

    method Fetch(cost: nat)
      requires Valid()
      modifies this`runGas, this`newMemSize, this`copyMemSize
      ensures runGas == cost && newMemSize == |mem| && copyMemSize == 0
    {
      runGas, newMemSize, copyMemSize := cost, |mem|, 0;
    }

    method UpdateIOGas() returns (ok: bool)
      modifies this`ioGas
      ensures ok <==> old(ioGas) >= runGas
      ensures ok ==> ioGas == old(ioGas) - runGas
    {
      if ioGas < runGas { return false; }
      ioGas := ioGas - runGas;
      ok := true;
    }

    /** Adds the price of the new memory size and of copying; no sum wraps. */
    method UpdateGas() returns (ok: bool)
      requires Valid() && runGas + COPY_GAS * Words(copyMemSize) <= INT63_MAX
      modifies this`runGas, this`paid
      ensures ok ==> runGas == old(runGas) + Expansion(newMemSize) + COPY_GAS * Words(copyMemSize) <= ioGas
      ensures ok ==> paid == old(paid) + Expansion(newMemSize)
      ensures !ok ==> old(runGas) + Expansion(newMemSize) + COPY_GAS * Words(copyMemSize) > ioGas
    {
      if newMemSize > |mem| {
        var d;
        ok, d := Difference(newMemSize);
        if !ok { return; }
        runGas := Add64(runGas, d);
        paid := paid + d;
      }
      runGas := Add64(runGas, COPY_GAS * Words(copyMemSize));
      ok := ioGas >= runGas;
    }

    /** The price of the new memory less the price of the old. */
    method Difference(len: nat) returns (ok: bool, d: nat)
      requires Valid() && len > |mem|
      ensures ok ==> d == Expansion(len) <= INT63_MAX
      ensures !ok ==> Expansion(len) > ioGas
    {
      MemCostMonotone(|mem|, len);
      var a, b;
      ok, a := GasForMem(len);
      if !ok { return false, 0; }
      ok, b := GasForMem(|mem|);
      ok, d := ToInt63(Wrap64(a - b));
    }

    /** Grows memory once its price is known to be affordable. */
    method UpdateMem(newMem: nat) returns (ok: bool)
      requires Valid() && runGas + COPY_GAS * Words(copyMemSize) <= INT63_MAX && newMem <= INT63_MAX + 32
      modifies this`runGas, this`newMemSize, this`mem, this`paid
      ensures newMemSize == Rounded(newMem)
      ensures ok ==> mem == Grow(old(mem), Rounded(newMem)) && |mem| % 32 == 0
      ensures ok ==> runGas == old(runGas) + old(Expansion(Rounded(newMem))) + COPY_GAS * Words(copyMemSize) <= ioGas
      ensures ok ==> paid == MemCost(|mem|) == MemCost(|old(mem)|) + old(Expansion(Rounded(newMem)))
      ensures !ok ==> old(runGas) + old(Expansion(Rounded(newMem))) + COPY_GAS * Words(copyMemSize) > ioGas
    {
      newMemSize := Wrap64(newMem + 31) / 32 * 32;
      assert newMemSize == Rounded(newMem) && newMemSize % 32 == 0;
      ghost var extra := Expansion(newMemSize);
      ok := UpdateGas();
      if ok && newMemSize > |mem| {
        MemCostMonotone(|mem|, newMemSize);
        assert extra == MemCost(newMemSize) - MemCost(|mem|);
        mem := Grow(mem, newMemSize);
      }
    }
  
    /** Memory growth and payment: the budget falls by what is not memory, so that over a run the
        expansion charges add up to the price of the memory at its end. */
    method PayWithMemory(newMem: nat) returns (ok: bool)
      requires Valid() && runGas + COPY_GAS * Words(copyMemSize) <= INT63_MAX && newMem <= INT63_MAX + 32
      modifies this`ioGas, this`runGas, this`newMemSize, this`mem, this`paid
      ensures ok <==> old(ioGas) >= old(runGas) + old(Expansion(Rounded(newMem))) + COPY_GAS * Words(copyMemSize)
      ensures ok ==> Valid() && mem == Grow(old(mem), Rounded(newMem))
      ensures ok ==> Budget() == old(Budget()) - old(runGas) - COPY_GAS * Words(copyMemSize)
    {
      ok := UpdateMem(newMem);
      if ok { ok := UpdateIOGas(); }
    }

    // ---- Instructions; false is the out-of-gas exception ------------------------------------------

    /** An instruction with a fixed price: all that only touch the stack, the host or the transaction. */
    method Simple(cost: nat) returns (ok: bool)
      requires Valid() && 1 <= cost <= CREATE_GAS
      modifies this
      ensures ok <==> old(ioGas) >= cost
      ensures ok ==> Valid() && ioGas == old(ioGas) - cost && mem == old(mem)
    {
      Fetch(cost);
      ok := UpdateIOGas();
    }

    /** EXP pays by the significant bytes of the exponent. */
    method Exp(bytes: nat) returns (ok: bool)
      requires Valid() && bytes <= 32
      modifies this
      ensures ok <==> old(ioGas) >= EXP_GAS + EXP_BYTE_GAS * bytes
      ensures ok ==> Valid() && ioGas == old(ioGas) - EXP_GAS - EXP_BYTE_GAS * bytes && mem == old(mem)
    {
      Fetch(EXP_GAS);
      ok, runGas := ToInt63(EXP_GAS + EXP_BYTE_GAS * bytes);
      ok := UpdateIOGas();
    }

    /** SSTORE has no base price; its price depends on the host's answer. */
    method SStore(status: Storage) returns (ok: bool)
      requires Valid()
      modifies this
      ensures ok <==> old(ioGas) >= StorageGas(status)
      ensures ok ==> Valid() && mem == old(mem) && ioGas == old(ioGas) - StorageGas(status)
    {
      Fetch(0);
      runGas := StorageGas(status);
      ok := UpdateIOGas();
    }

    /** The memory access of MLOAD, MSTORE and MSTORE8: its place after the 32-bit cast is inside
        memory, and is the place asked for when the budget is small enough. */
    method Access(off: Word, size: nat) returns (ok: bool, at: nat)
      requires Valid() && 1 <= size <= 32
      modifies this
      ensures ok <==> off <= INT63_MAX && Affordable(old(ioGas), |old(mem)|, off + size)
      ensures ok ==> Valid() && Budget() == old(Budget()) - 3 && mem == Grow(old(mem), Rounded(off + size))
      ensures ok ==> at == Cast32(off) && at + size <= |mem|
      ensures ok && old(Budget()) < WideMemoryCost() + 3 ==> at == off
    {
      at := 0;
      Fetch(VERY_LOW_GAS);
      var o;
      ok, o := ToInt63(off);
      if !ok { return; }
      RoundedHolds(off + size);
      ok := PayWithMemory(o + size);
      at := Cast32(o);
      if ok { CheapCastIsExact(old(ioGas), |old(mem)|, off, off + size); }
    }

    /** The word at an offset cut to 32 bits. */
    method MLoad(off: Word) returns (ok: bool, v: Word)
      requires Valid()
      modifies this
      ensures ok <==> off <= INT63_MAX && Affordable(old(ioGas), |old(mem)|, off + 32)
      ensures ok ==> Valid() && Budget() == old(Budget()) - 3 && mem == Grow(old(mem), Rounded(off + 32))
      ensures ok && old(Budget()) < WideMemoryCost() + 3 ==> off + 32 <= |mem| && v == LoadWord(mem, off)
    {
      v := 0;
      var at;
      ok, at := Access(off, 32);
      if ok { v := LoadWord(mem, at); }
    }

    method MStore(off: Word, v: Word) returns (ok: bool)
      requires Valid()
      modifies this
      ensures ok <==> off <= INT63_MAX && Affordable(old(ioGas), |old(mem)|, off + 32)
      ensures ok ==> Valid() && Budget() == old(Budget()) - 3 && |mem| == |Grow(old(mem), Rounded(off + 32))|
      ensures ok && old(Budget()) < WideMemoryCost() + 3 ==>
        off + 32 <= |mem| && mem == Write(Grow(old(mem), Rounded(off + 32)), off, BigEndian(v, 32))
    {
      var at;
      ok, at := Access(off, 32);
      if ok { mem := Write(mem, at, BigEndian(v, 32)); }
    }

    method MStore8(off: Word, v: Word) returns (ok: bool)
      requires Valid()
      modifies this
      ensures ok <==> off <= INT63_MAX && Affordable(old(ioGas), |old(mem)|, off + 1)
      ensures ok ==> Valid() && Budget() == old(Budget()) - 3 && |mem| == |Grow(old(mem), Rounded(off + 1))|
      ensures ok && old(Budget()) < WideMemoryCost() + 3 ==>
        off < |mem| && mem == Grow(old(mem), Rounded(off + 1))[off := v % 256]
    {
      var at;
      ok, at := Access(off, 1);
      if ok { mem := mem[at := v % 256]; }
    }

    /** Hashing memory. */
    method Sha3(off: Word, size: Word) returns (ok: bool)
      requires Valid()
      modifies this
      ensures ok <==> Pays(old(ioGas), |old(mem)|, NeedOf(off, size), SHA3_GAS + SHA3_WORD_GAS * Words(size))
      ensures ok ==> Valid() && Budget() == old(Budget()) - SHA3_GAS - SHA3_WORD_GAS * Words(size)
      ensures ok ==> mem == Grow(old(mem), Rounded(NeedOf(off, size))) && NeedOf(off, size) <= |mem|
    {
      Fetch(SHA3_GAS);
      ok, runGas := ToInt63(SHA3_GAS + Words(size) * SHA3_WORD_GAS);
      if !ok { return; }
      ok := Touch(off, size);
    }

    /** updateMem(memNeed(..)) and the payment. */
    method Touch(off: Word, size: Word) returns (ok: bool)
      requires Valid() && runGas + COPY_GAS * Words(copyMemSize) <= INT63_MAX
      modifies this`ioGas, this`runGas, this`newMemSize, this`mem, this`paid
      ensures ok <==> Pays(old(ioGas), |old(mem)|, NeedOf(off, size), old(runGas) + COPY_GAS * Words(copyMemSize))
      ensures ok ==> Valid() && Budget() == old(Budget()) - old(runGas) - COPY_GAS * Words(copyMemSize)
      ensures ok ==> mem == Grow(old(mem), Rounded(NeedOf(off, size))) && NeedOf(off, size) <= |mem|
    {
      var need;
      ok, need := MemNeed(off, size);
      if !ok { return; }
      RoundedHolds(need);
      ok := PayWithMemory(need);
    }

    /** LOG0 to LOG4. */
    method Log(topics: nat, off: Word, size: Word) returns (ok: bool)
      requires Valid() && topics <= 4
      modifies this
      ensures ok <==> Pays(old(ioGas), |old(mem)|, NeedOf(off, size), LOG_GAS + LOG_TOPIC_GAS * topics + LOG_DATA_GAS * size)
      ensures ok ==> Valid() && Budget() == old(Budget()) - LOG_GAS - LOG_TOPIC_GAS * topics - LOG_DATA_GAS * size
      ensures ok ==> mem == Grow(old(mem), Rounded(NeedOf(off, size))) && NeedOf(off, size) <= |mem|
    {
      Fetch(LOG_GAS * (topics + 1));
      ok, runGas := ToInt63(LOG_GAS + LOG_TOPIC_GAS * topics + LOG_DATA_GAS * size);
      if !ok { return; }
      ok := Touch(off, size);
    }

    /** The payment of the four copy instructions. */
    method PayCopy(base: nat, dst: Word, size: Word) returns (ok: bool)
      requires Valid() && base <= EXT_CODE_GAS
      modifies this
      ensures ok <==> Pays(old(ioGas), |old(mem)|, NeedOf(dst, size), base + COPY_GAS * Words(size))
      ensures ok ==> Valid() && Budget() == old(Budget()) - base - COPY_GAS * Words(size)
      ensures ok ==> mem == Grow(old(mem), Rounded(NeedOf(dst, size))) && NeedOf(dst, size) <= |mem| && size < U64
    {
      Fetch(base);
      var c;
      ok, c := ToInt63(size);
      if !ok { return; }
      copyMemSize := c;
      ok := Touch(dst, size);
    }

    /** CALLDATACOPY and CODECOPY. */
    method Copy(data: seq<Byte>, dst: Word, index: Word, size: Word) returns (ok: bool)
      requires Valid() && |data| < U64
      modifies this
      ensures ok <==> Pays(old(ioGas), |old(mem)|, NeedOf(dst, size), VERY_LOW_GAS + COPY_GAS * Words(size))
      ensures ok ==> Valid() && Budget() == old(Budget()) - VERY_LOW_GAS - COPY_GAS * Words(size)
      ensures ok ==> Copied(Grow(old(mem), Rounded(NeedOf(dst, size))), mem, data, dst, index, size)
    {
      ok := PayCopy(VERY_LOW_GAS, dst, size);
      if ok { CopyDataToMemory(data, dst, index, size); }
    }

    /** RETURNDATACOPY, which never reads behind the data that a call returned. */
    method ReturnDataCopy(data: seq<Byte>, dst: Word, index: Word, size: Word) returns (ok: bool, overrun: bool)
      requires Valid() && |data| < U64
      modifies this
      ensures overrun <==> index + size > |data|
      ensures ok <==> !overrun && Pays(old(ioGas), |old(mem)|, NeedOf(dst, size), VERY_LOW_GAS + COPY_GAS * Words(size))
      ensures ok ==> Valid() && Budget() == old(Budget()) - VERY_LOW_GAS - COPY_GAS * Words(size)
      ensures ok ==> Copied(Grow(old(mem), Rounded(NeedOf(dst, size))), mem, data[..index + size], dst, index, size)
    {
      overrun := |data| < index + size;
      if overrun { return false, true; }
      ok := PayCopy(VERY_LOW_GAS, dst, size);
      if ok { CopyDataToMemory(data, dst, index, size); }
    }

    /** EXTCODECOPY.  The host is asked from an offset of at most 2^64 - 1 on and fills no more than the
        size asked for; the rest is filled with zeros. */
    method ExtCodeCopy(code: (nat, nat) -> seq<Byte>, dst: Word, index: Word, size: Word) returns (ok: bool)
      requires Valid() && forall o, n :: |code(o, n)| <= n
      modifies this
      ensures ok <==> Pays(old(ioGas), |old(mem)|, NeedOf(dst, size), EXT_CODE_GAS + COPY_GAS * Words(size))
      ensures ok ==> Valid() && Budget() == old(Budget()) - EXT_CODE_GAS - COPY_GAS * Words(size)
      ensures ok ==> Copied(Grow(old(mem), Rounded(NeedOf(dst, size))), mem, code(Capped(index, U64 - 1), size), dst, 0, size)
    {
      ok := PayCopy(EXT_CODE_GAS, dst, size);
      if !ok { return; }
      var off, at, n := Wrap64(dst), if index > U64 - 1 then U64 - 1 else index, Wrap64(size);
      ghost var grown := mem;
      FillMemory(off, code(at, n), n);
      SameCopy(grown, mem, off, dst, code(at, n), size);
    }

    /** Copies what the data has from the index on and fills the rest with zeros. */
    method CopyDataToMemory(data: seq<Byte>, dst: Word, index: Word, size: Word)
      requires |data| < U64 && size < U64 && (size > 0 ==> dst + size <= |mem| && dst < U64)
      modifies this`mem
      ensures Copied(old(mem), mem, data, dst, index, size)
    {
      var off, at, n := Wrap64(dst), Wrap64(index), Wrap64(size);
      var copied := if index + n > |data| then (if |data| < index then 0 else |data| - at) else n;
      FillMemory(off, if copied > 0 then data[at..at + copied] else [], n);
      SlicedCopy(old(mem), mem, data, off, dst, at, index, copied, n);
    }

    /** Writes the bytes and zeros behind them, n bytes in all. */
    method FillMemory(off: nat, bytes: seq<Byte>, n: nat)
      requires |bytes| <= n && (n > 0 ==> off + n <= |mem|)
      modifies this`mem
      ensures Copied(old(mem), mem, bytes, off, 0, n)
    {
      if bytes != [] {
        mem := Write(mem, off, bytes);
      }
      if n > |bytes| {
        mem := Write(mem, off + |bytes|, Zeros(n - |bytes|));
      }
    }

    /** CREATE and CREATE2: pays, gives all but a 64th of the rest to the new account's code and takes
        back what it leaves. */
    method Create(two: bool, off: Word, size: Word, peer: Peer) returns (ok: bool, given: nat)
      requires Valid() && peer.Honest()
      modifies this
      ensures ok <==> Pays(old(ioGas), |old(mem)|, NeedOf(off, size), CreatePrice(two, size))
      ensures ok ==> Valid() && mem == Grow(old(mem), Rounded(NeedOf(off, size)))
      ensures ok ==> given == AllButOne64th(old(Budget()) - CreatePrice(two, size) - MemCost(|mem|))
      ensures ok ==> Budget() == old(Budget()) - CreatePrice(two, size) - Used(peer, peer.balanceOk && peer.depthOk, given)
      ensures ok ==> ioGas + CREATE_GAS <= old(ioGas)
    {
      given := 0;
      Fetch(CREATE_GAS);
      if two {
        var w;
        ok, w := ToInt63(Words(size) * SHA3_WORD_GAS);
        if !ok { return; }
        runGas := Add64(runGas, w);
      }
      var need;
      ok, need := MemNeed(off, size);
      if !ok { return; }
      RoundedHolds(need);
      ok := PayWithMemory(need);
      if !ok { return; }
      MemCostMonotone(|old(mem)|, |mem|);
      given := AllButOne64th(ioGas);
      if peer.balanceOk && peer.depthOk {
        ioGas := ioGas - (given - peer.gasLeft(given));
      }
    }

    /** caseCallSetup: pays the price of the call and sets the callee's gas aside, at most all but a
        64th of the rest, with the stipend on top when value is sent. */
    method CallSetup(kind: CallKind, gas: Word, value: Word, inOff: Word, inSize: Word, outOff: Word, outSize: Word, peer: Peer)
        returns (ok: bool, given: nat)
      requires Valid()
      modifies this
      ensures var need := MaxLen(NeedOf(inOff, inSize), NeedOf(outOff, outSize));
        (ok <==> Pays(old(ioGas), |old(mem)|, need, CallPrice(kind, value, peer))) && (ok ==> mem == Grow(old(mem), Rounded(need)))
      ensures ok ==> Valid() && MemCost(|mem|) >= MemCost(|old(mem)|)
      ensures ok ==> Budget() + given - Stipend(kind, value) == old(Budget()) - CallPrice(kind, value, peer)
      ensures ok ==> given == Given(kind, gas, value, old(Budget()) - CallPrice(kind, value, peer) - MemCost(|mem|))
    {
      given := 0;
      ok := PayCall(kind, value, inOff, inSize, outOff, outSize, peer);
      if !ok { return; }
      ok, given := ToInt63(Capped(gas, AllButOne64th(ioGas)));
      runGas := given;
      ok := UpdateIOGas();
      given := given + Stipend(kind, value);
    }

    /** The price of the call and the memory for its input and output. */
    method PayCall(kind: CallKind, value: Word, inOff: Word, inSize: Word, outOff: Word, outSize: Word, peer: Peer)
        returns (ok: bool)
      requires Valid()
      modifies this
      ensures var need := MaxLen(NeedOf(inOff, inSize), NeedOf(outOff, outSize));
        (ok <==> Pays(old(ioGas), |old(mem)|, need, CallPrice(kind, value, peer))) && (ok ==> mem == Grow(old(mem), Rounded(need)))
      ensures ok ==> Valid() && MemCost(|mem|) >= MemCost(|old(mem)|)
      ensures ok ==> Budget() == old(Budget()) - CallPrice(kind, value, peer)
    {
      Fetch(CALL_GAS);
      if kind == Call && value > 0 && !peer.present { runGas := runGas + CALL_NEW_ACCOUNT; }
      if SendsValue(kind, value) { runGas := runGas + VALUE_TRANSFER_GAS; }
      assert runGas == CallPrice(kind, value, peer);
      var inNeed, outNeed;
      ok, inNeed := MemNeed(inOff, inSize);
      if !ok { return; }
      ok, outNeed := MemNeed(outOff, outSize);
      if !ok { return; }
      RoundedHolds(MaxLen(inNeed, outNeed));
      ok := PayWithMemory(MaxLen(inNeed, outNeed));
      if ok { MemCostMonotone(|old(mem)|, |mem|); }
    }

    /** The call instructions: back comes what the callee leaves, or all of its gas when the balance or
        the depth does not allow the call. */
    method CallOut(kind: CallKind, gas: Word, value: Word, inOff: Word, inSize: Word, outOff: Word, outSize: Word, peer: Peer)
        returns (ok: bool, given: nat)
      requires Valid() && peer.Honest()
      modifies this
      ensures var need := MaxLen(NeedOf(inOff, inSize), NeedOf(outOff, outSize));
        (ok <==> Pays(old(ioGas), |old(mem)|, need, CallPrice(kind, value, peer))) &&
        (ok ==> mem == if Entered(kind, value, peer) then Returned(GrowTo(old(mem), need), outOff, outSize, peer.output)
                       else GrowTo(old(mem), need))
      ensures ok ==> given == Given(kind, gas, value, old(Budget()) - CallPrice(kind, value, peer) - MemCost(|mem|))
      ensures ok ==> Valid()
      ensures ok ==> Budget() + Used(peer, Entered(kind, value, peer), given) ==
                     old(Budget()) - CallPrice(kind, value, peer) + Stipend(kind, value)
      ensures ok ==> ioGas + CALL_GAS <= old(ioGas)
      ensures ok && (value == 0 || kind == DelegateCall || kind == StaticCall) ==>
        Budget() == old(Budget()) - 700 - if peer.depthOk then given - peer.gasLeft(given) else 0
      ensures ok && value > 0 && (kind == CallCode || (kind == Call && peer.present)) ==>
        Budget() == old(Budget()) - 9700 + 2300 - if peer.balanceOk && peer.depthOk then given - peer.gasLeft(given) else 0
      ensures ok && value > 0 && kind == Call && !peer.present ==>
        Budget() == old(Budget()) - 34700 + 2300 - if peer.balanceOk && peer.depthOk then given - peer.gasLeft(given) else 0
    {
      CallPriceIs(kind, value, peer);
      ok, given := CallSetup(kind, gas, value, inOff, inSize, outOff, outSize, peer);
      if !ok { return; }
      if Entered(kind, value, peer) {
        StoreOutput(outOff, outSize, peer.output);
        ioGas := Add64(ioGas, peer.gasLeft(given));
      } else {
        ioGas := Add64(ioGas, given);
      }
    }

    /** Copies a callee's output as far as there is room for it. */
    method StoreOutput(off: Word, size: Word, output: seq<Byte>)
      requires size > 0 ==> off + size <= |mem| && off + size < U64
      modifies this`mem
      ensures mem == Returned(old(mem), off, size, output)
    {
      var n := Capped(Wrap64(size), |output|);
      if n > 0 {
        mem := Write(mem, Wrap64(off), output[..n]);
      }
    }

    /** RETURN and REVERT: the last memory access of a run. */
    method Leave(off: Word, size: Word) returns (ok: bool)
      requires Valid()
      modifies this
      ensures ok <==> Pays(old(ioGas), |old(mem)|, NeedOf(off, size), 0)
      ensures ok ==> Valid() && Budget() == old(Budget()) && NeedOf(off, size) <= |mem|
    {
      Fetch(0);
      ok := Touch(off, size);
    }

    // ---- Runs ---------------------------------------------------------------------------------------

    method MemoryStep(i: Instr) returns (ok: bool)
      requires Valid() && i.Legal() && (i.IMLoad? || i.IMStore? || i.IMStore8? || i.ISha3? || i.ILog?)
      modifies this
      ensures ok ==> Valid() && Budget() < old(Budget()) && |mem| >= |old(mem)|
      ensures ok && old(Budget()) < WideMemoryCost() + 3 ==> mem == Effect(i, old(mem))
    {
      var v;
      match i {
        case IMLoad(off) => ok, v := MLoad(off);
        case IMStore(off, w) => ok := MStore(off, w);
        case IMStore8(off, w) => ok := MStore8(off, w);
        case ISha3(off, size) => ok := Sha3(off, size);
        case ILog(topics, off, size) => ok := Log(topics, off, size);
      }
    }

    method CopyStep(i: Instr) returns (ok: bool)
      requires Valid() && i.Legal() && (i.ICopy? || i.IReturnDataCopy? || i.IExtCodeCopy?)
      modifies this
      ensures ok ==> Valid() && Budget() < old(Budget()) && |mem| >= |old(mem)| && mem == Effect(i, old(mem))
    {
      var overrun;
      match i {
        case ICopy(data, dst, index, size) =>
          ok := Copy(data, dst, index, size);
          if ok { CopiedIs(GrowTo(old(mem), NeedOf(dst, size)), mem, data, dst, index, size); }
        case IReturnDataCopy(data, dst, index, size) =>
          ok, overrun := ReturnDataCopy(data, dst, index, size);
          if ok {
            CopiedPrefix(GrowTo(old(mem), NeedOf(dst, size)), mem, data, dst, index, size);
            CopiedIs(GrowTo(old(mem), NeedOf(dst, size)), mem, data, dst, index, size);
          }
        case IExtCodeCopy(code, dst, index, size) =>
          ok := ExtCodeCopy(code, dst, index, size);
          if ok { CopiedIs(GrowTo(old(mem), NeedOf(dst, size)), mem, code(Capped(index, U64 - 1), size), dst, 0, size); }
      }
    }

    method CallStep(i: Instr) returns (ok: bool)
      requires Valid() && i.Legal() && (i.ICreate? || i.ICall?)
      modifies this
      ensures ok ==> Valid() && Budget() < old(Budget()) && ioGas < old(ioGas)
      ensures ok ==> |mem| >= |old(mem)| && mem == Effect(i, old(mem))
    {
      var given;
      match i {
        case ICreate(two, off, size, peer) => ok, given := Create(two, off, size, peer);
        case ICall(kind, gas, value, a, b, c, d, peer) => ok, given := CallOut(kind, gas, value, a, b, c, d, peer);
      }
      if ok { MemCostMonotone(|old(mem)|, |mem|); }
    }

    /** Every instruction that does not end the run lowers the gas and the budget, and none shrinks
        memory. */
    method Step(i: Instr) returns (ok: bool)
      requires Valid() && i.Legal()
      modifies this
      ensures ok ==> Valid() && ioGas < old(ioGas) && Budget() < old(Budget()) && |mem| >= |old(mem)|
      ensures ok && old(Budget()) < WideMemoryCost() + 3 ==> mem == Effect(i, old(mem))
    {
      match i {
        case ISimple(cost) => ok := Simple(cost);
        case IExp(bytes) => ok := Exp(bytes);
        case ISStore(status) => ok := SStore(status);
        case ICopy(_, _, _, _) => ok := CopyStep(i);
        case IReturnDataCopy(_, _, _, _) => ok := CopyStep(i);
        case IExtCodeCopy(_, _, _, _) => ok := CopyStep(i);
        case ICreate(_, _, _, _) => ok := CallStep(i);
        case ICall(_, _, _, _, _, _, _, _) => ok := CallStep(i);
        case _ => ok := MemoryStep(i);
      }
      if ok { MemCostMonotone(|old(mem)|, |mem|); }
    }

    /** The interpreter loop over whatever instructions come up: a run makes no more steps than it has
        gas, never holds more gas than it started with, and pays for the growth of memory as a whole,
        however many steps that takes.  Below the budget at which a cast could cut an offset, its memory
        is what the instructions say at their 256-bit offsets. */
    method Execute(run: seq<Instr>) returns (ok: bool, steps: nat)
      requires Valid() && forall k :: 0 <= k < |run| ==> run[k].Legal()
      modifies this
      ensures steps <= old(ioGas) && (ok <==> steps == |run|)
      ensures ok ==> Valid() && ioGas + steps <= old(ioGas) && Budget() + steps <= old(Budget()) && |mem| >= |old(mem)|
      ensures ok ==> paid - old(paid) == MemCost(|mem|) - MemCost(|old(mem)|)
      ensures ok && old(Budget()) < WideMemoryCost() + 3 ==> mem == Effects(run, old(mem))
    {
      ok, steps := true, 0;
      while steps < |run|
        invariant 0 <= steps <= |run| && ok && Valid() && |mem| >= |old(mem)|
        invariant ioGas + steps <= old(ioGas) && Budget() + steps <= old(Budget())
        invariant old(Budget()) < WideMemoryCost() + 3 ==> mem == Effects(run[..steps], old(mem))
      {
        EffectsSnoc(run, steps, old(mem));
        ok := Step(run[steps]);
        if !ok { return; }
        steps := steps + 1;
      }
      assert run[..steps] == run;
    }
  }

  /** The instructions that do not end a run, with their operands and the host's answers.  The fixed
      prices are those of the metrics table at Constantinople, all positive but SSTORE's. */
  datatype Instr =
    | ISimple(cost: nat)
    | IExp(bytes: nat)
    | ISStore(status: Storage)
    | IMLoad(off: Word)
    | IMStore(off: Word, value: Word)
    | IMStore8(off: Word, value: Word)
    | ISha3(off: Word, size: Word)
    | ILog(topics: nat, off: Word, size: Word)
    | ICopy(data: seq<Byte>, dst: Word, index: Word, size: Word)
    | IReturnDataCopy(data: seq<Byte>, dst: Word, index: Word, size: Word)
    | IExtCodeCopy(code: (nat, nat) -> seq<Byte>, dst: Word, index: Word, size: Word)
    | ICreate(two: bool, off: Word, size: Word, peer: Peer)
    | ICall(kind: CallKind, gas: Word, value: Word, inOff: Word, inSize: Word, outOff: Word, outSize: Word, peer: Peer)
  {
    ghost predicate Legal()
    {
      match this
      case ISimple(cost) => 1 <= cost <= CREATE_GAS
      case IExp(bytes) => bytes <= 32
      case ILog(topics, _, _) => topics <= 4
      case ICopy(data, _, _, _) => |data| < U64
      case IReturnDataCopy(data, _, _, _) => |data| < U64
      case IExtCodeCopy(code, _, _, _) => forall o, n :: |code(o, n)| <= n
      case ICreate(_, _, _, peer) => peer.Honest()
      case ICall(_, _, _, _, _, _, _, peer) => peer.Honest()
      case _ => true
    }
  }

  function AllButOne64th(gas: nat): nat { gas - gas / 64 }

  function Capped(gas: nat, limit: nat): nat { if gas < limit then gas else limit }

  /** The callee's gas when so much is left after paying. */
  function Given(kind: CallKind, gas: nat, value: Word, left: nat): nat
  {
    Capped(gas, AllButOne64th(left)) + Stipend(kind, value)
  }

  predicate Entered(kind: CallKind, value: Word, peer: Peer)
  {
    (SendsValue(kind, value) ==> peer.balanceOk) && peer.depthOk
  }

  /** What the callee uses of its gas. */
  function Used(peer: Peer, entered: bool, given: nat): int
  {
    if entered then given - peer.gasLeft(given) else 0
  }

  function CreatePrice(two: bool, size: nat): nat
  {
    CREATE_GAS + if two then SHA3_WORD_GAS * Words(size) else 0
  }

  predicate SendsValue(kind: CallKind, value: Word) { (kind == Call || kind == CallCode) && value > 0 }

  function Stipend(kind: CallKind, value: Word): nat
  {
    if SendsValue(kind, value) then CALL_STIPEND else 0
  }

  /** The price of a call apart from memory and the callee's gas. */
  function CallPrice(kind: CallKind, value: Word, peer: Peer): nat
  {
    CALL_GAS + (if kind == Call && value > 0 && !peer.present then CALL_NEW_ACCOUNT else 0) +
    if SendsValue(kind, value) then VALUE_TRANSFER_GAS else 0
  }

  /** A call costs 700, 9000 more when it sends value, which DELEGATECALL and STATICCALL never do, and
      25000 more when a CALL sends it to an account that does not exist. */
  lemma CallPriceIs(kind: CallKind, value: Word, peer: Peer)
    ensures value == 0 || kind == DelegateCall || kind == StaticCall ==> CallPrice(kind, value, peer) == 700
    ensures value > 0 && (kind == CallCode || (kind == Call && peer.present)) ==> CallPrice(kind, value, peer) == 9700
    ensures value > 0 && kind == Call && !peer.present ==> CallPrice(kind, value, peer) == 34700
    ensures Stipend(kind, value) == if value > 0 && (kind == Call || kind == CallCode) then 2300 else 0
  {
  }

  /** The callee gets what is asked for, but at most what is left less a 64th of it rounded down, and the
      stipend when value is sent. */
  lemma GivenIs(kind: CallKind, gas: nat, value: Word, left: nat)
    ensures 64 * (left - AllButOne64th(left)) <= left < 64 * (left - AllButOne64th(left)) + 64
    ensures var most := left - left / 64;
      Given(kind, gas, value, left) ==
        (if gas <= most then gas else most) + if value > 0 && (kind == Call || kind == CallCode) then 2300 else 0
  {
  }

  /** The other prices. */
  lemma PricesAre(size: nat, topics: nat, bytes: nat)
    ensures CreatePrice(false, size) == 32000 && CreatePrice(true, size) == 32000 + 6 * ((size + 31) / 32)
    ensures SHA3_GAS + SHA3_WORD_GAS * Words(size) == 30 + 6 * ((size + 31) / 32)
    ensures LOG_GAS + LOG_TOPIC_GAS * topics + LOG_DATA_GAS * size == 375 + 375 * topics + 8 * size
    ensures VERY_LOW_GAS + COPY_GAS * Words(size) == 3 + 3 * ((size + 31) / 32)
    ensures EXT_CODE_GAS + COPY_GAS * Words(size) == 700 + 3 * ((size + 31) / 32)
    ensures EXP_GAS + EXP_BYTE_GAS * bytes == 10 + 50 * bytes
    ensures StorageGas(Added) == 20000 && StorageGas(Modified) == 5000 && StorageGas(Deleted) == 5000
    ensures StorageGas(Same) == 200 && StorageGas(ModifiedAgain) == 200
  {
  }

  /** A memory of w words costs 3w and a 512th of the square of w. */
  lemma MemCostIs(w: nat)
    ensures MemCost(32 * w) == 3 * w + w * w / 512
  {
    SquareIs(w);
  }

  /** Memory grows to the next whole word. */
  lemma RoundedIs(need: nat)
    ensures need <= Rounded(need) < need + 32 && Rounded(need) % 32 == 0
    ensures Rounded(need) == 32 * Words(need)
  {
  }

  /** An access needs the memory up to its end, and none when it is empty, wherever it is. */
  lemma NeedIs(off: nat, size: nat)
    ensures NeedOf(off, 0) == 0 && (size > 0 ==> NeedOf(off, size) == off + size)
  {
  }

  /** A payment goes through when the gas covers the price and what growing to the memory needed costs
      more than the memory that is there. */
  lemma PaysIff(gas: nat, len: nat, need: nat, price: nat)
    requires len % 32 == 0
    ensures Pays(gas, len, need, price) <==>
      need <= 0x7FFF_FFFF_FFFF_FFFF && gas >= price + if need <= len then 0 else MemCost(Rounded(need)) - MemCost(len)
  {
    if need <= len {
      RoundedWithin(need, len);
    } else {
      RoundedIs(need);
      MemCostMonotone(len, Rounded(need));
    }
  }

  lemma RoundedWithin(need: nat, len: nat)
    requires len % 32 == 0 && need <= len
    ensures Rounded(need) <= len
  {
  }

  /** Memory grown to hold this many bytes. */
  function GrowTo(mem: seq<Byte>, need: nat): (m: seq<Byte>)
    ensures |m| >= need && |m| >= |mem|
  {
    Grow(mem, Rounded(need))
  }

  /** Memory with as much of a callee's output as there is room for. */
  function Returned(mem: seq<Byte>, off: nat, size: nat, output: seq<Byte>): (m: seq<Byte>)
    requires size > 0 ==> off + size <= |mem|
    ensures |m| == |mem|
  {
    var n := Capped(size, |output|);
    if n > 0 then Write(mem, off, output[..n]) else mem
  }

  /** The first bytes of the output arrive at off, as many as there is room for, and no others change. */
  lemma ReturnedBytes(mem: seq<Byte>, off: nat, size: nat, output: seq<Byte>, i: nat)
    requires (size > 0 ==> off + size <= |mem|) && i < |mem|
    ensures Returned(mem, off, size, output)[i] ==
      if off <= i < off + size && i < off + |output| then output[i - off] else mem[i]
  {
  }

  /** So many bytes of the data from the index on, followed by zeros. */
  function DataFrom(data: seq<Byte>, index: nat, size: nat): (d: seq<Byte>)
    ensures |d| == size && forall k :: 0 <= k < size ==> d[k] == ByteAt(data, index + k)
  {
    if size == 0 then [] else DataFrom(data, index, size - 1) + [ByteAt(data, index + (size - 1))]
  }

  function CopyInto(mem: seq<Byte>, data: seq<Byte>, dst: nat, index: nat, size: nat): (m: seq<Byte>)
    requires size > 0 ==> dst + size <= |mem|
    ensures Copied(mem, m, data, dst, index, size)
  {
    if size > 0 then Write(mem, dst, DataFrom(data, index, size)) else mem
  }

  /** The memory after an instruction, at offsets of 256 bits. */
  function Effect(i: Instr, mem: seq<Byte>): seq<Byte>
  {
    match i
    case IMLoad(off) => GrowTo(mem, off + 32)
    case IMStore(off, v) => Write(GrowTo(mem, off + 32), off, BigEndian(v, 32))
    case IMStore8(off, v) => GrowTo(mem, off + 1)[off := v % 256]
    case ISha3(off, size) => GrowTo(mem, NeedOf(off, size))
    case ILog(_, off, size) => GrowTo(mem, NeedOf(off, size))
    case ICopy(data, dst, index, size) => CopyInto(GrowTo(mem, NeedOf(dst, size)), data, dst, index, size)
    case IReturnDataCopy(data, dst, index, size) => CopyInto(GrowTo(mem, NeedOf(dst, size)), data, dst, index, size)
    case IExtCodeCopy(code, dst, index, size) =>
      CopyInto(GrowTo(mem, NeedOf(dst, size)), code(Capped(index, U64 - 1), size), dst, 0, size)
    case ICreate(_, off, size, _) => GrowTo(mem, NeedOf(off, size))
    case ICall(kind, _, value, inOff, inSize, outOff, outSize, peer) =>
      var m := GrowTo(mem, MaxLen(NeedOf(inOff, inSize), NeedOf(outOff, outSize)));
      if Entered(kind, value, peer) then Returned(m, outOff, outSize, peer.output) else m
    case _ => mem
  }

  function Effects(run: seq<Instr>, mem: seq<Byte>): seq<Byte>
  {
    if run == [] then mem else Effect(run[|run| - 1], Effects(run[..|run| - 1], mem))
  }

  lemma EffectsSnoc(run: seq<Instr>, n: nat, mem: seq<Byte>)
    requires n < |run|
    ensures Effects(run[..n + 1], mem) == Effect(run[n], Effects(run[..n], mem))
  {
    assert run[..n + 1][..n] == run[..n];
  }

  lemma CopiedIs(before: seq<Byte>, after: seq<Byte>, data: seq<Byte>, dst: nat, index: nat, size: nat)
    requires size > 0 ==> dst + size <= |before|
    requires Copied(before, after, data, dst, index, size)
    ensures after == CopyInto(before, data, dst, index, size)
  {
  }

  lemma CopiedPrefix(before: seq<Byte>, after: seq<Byte>, data: seq<Byte>, dst: nat, index: nat, size: nat)
    requires index + size <= |data| && Copied(before, after, data[..index + size], dst, index, size)
    ensures Copied(before, after, data, dst, index, size)
  {
  }

  /** The memory after a copy. */
  ghost predicate Copied(before: seq<Byte>, after: seq<Byte>, data: seq<Byte>, dst: nat, index: nat, size: nat)
  {
    |after| == |before| &&
    forall k :: 0 <= k < |after| ==> after[k] == if dst <= k < dst + size then ByteAt(data, index + (k - dst)) else before[k]
  }

  /** An offset is cut to 64 bits only when nothing is written there. */
  lemma SameCopy(before: seq<Byte>, after: seq<Byte>, off: nat, dst: nat, data: seq<Byte>, size: nat)
    requires Copied(before, after, data, off, 0, size) && (size > 0 ==> off == dst)
    ensures Copied(before, after, data, dst, 0, size)
  {
  }

  /** Copying a slice that ends with the data or with the size asked for is copying from its index on. */
  lemma SlicedCopy(before: seq<Byte>, after: seq<Byte>, data: seq<Byte>, off: nat, dst: nat, at: nat, index: nat, copied: nat, size: nat)
    requires size > 0 ==> off == dst
    requires copied == if index + size > |data| then (if |data| < index then 0 else |data| - at) else size
    requires index <= |data| ==> at == index
    requires Copied(before, after, if copied > 0 then data[at..at + copied] else [], off, 0, size)
    ensures Copied(before, after, data, dst, index, size)
  {
    if size > 0 {
      var bytes := if copied > 0 then data[at..at + copied] else [];
      assert forall k :: 0 <= k < size ==> ByteAt(bytes, k) == ByteAt(data, index + k);
    }
  }

  /** Data is followed by zeros. */
  function ByteAt(data: seq<Byte>, i: nat): Byte
  {
    if i < |data| then data[i] else 0
  }

  /** The cast of an offset to unsigned. */
  function Cast32(off: nat): (r: nat)
    ensures r <= off && (off < U32 ==> r == off)
  {
    off % U32
  }

  /** Rounding up to words holds what was asked for. */
  lemma RoundedHolds(need: nat)
    ensures Rounded(need) >= need && Rounded(need) % 32 == 0
  {
  }

  /** The gas pays for this and for the growth to hold so many bytes, which 63 bits can count. */
  predicate Pays(gas: nat, len: nat, need: nat, price: nat)
  {
    need <= INT63_MAX && Covers(gas, len, need, price)
  }

  predicate Covers(gas: nat, len: nat, need: nat, price: nat)
  {
    var r := Rounded(need);
    gas + MemCost(len) >= price + if r > len then MemCost(r) else MemCost(len)
  }

  /** The same for the memory instructions, whose price is three. */
  predicate Affordable(gas: nat, len: nat, need: nat)
  {
    Covers(gas, len, need, 3)
  }

  /** An access that such a budget pays ends within 2^32 bytes. */
  lemma CheapCastIsExact(gas: nat, len: nat, off: nat, need: nat)
    requires len % 32 == 0 && off < need && Affordable(gas, len, need)
    ensures gas + MemCost(len) < WideMemoryCost() + 3 ==> off < U32
  {
    var r := Rounded(need);
    RoundedHolds(need);
    if gas + MemCost(len) < WideMemoryCost() + 3 {
      if r > len { CheapMemoryIsAddressable(r); } else { CheapMemoryIsAddressable(len); }
    }
  }

  /** The 32-bit cast of memory offsets is exact for every access a budget can pay, exactly below this
      budget; 2^45 is below it. */
  lemma CastExactIff(budget: nat)
    ensures (forall gas: nat, len: nat, need: nat ::
      gas + MemCost(len) <= budget && len % 32 == 0 && need >= 32 && Affordable(gas, len, need) ==> (need - 32) % U32 == need - 32) <==>
      budget < WideMemoryCost() + 3
    ensures 0x2000_0000_0000 < WideMemoryCost()
  {
    WideMemoryIsDear();
    if budget < WideMemoryCost() + 3 {
      forall gas: nat, len: nat, need: nat | gas + MemCost(len) <= budget && len % 32 == 0 && need >= 32 && Affordable(gas, len, need)
        ensures (need - 32) % U32 == need - 32
      {
        CheapCastIsExact(gas, len, need - 32, need);
      }
    } else {
      CastCutsExample(budget, U32 + 32);
    }
  }

  /** With that budget a word at offset 2^32 is paid for, and accessed at offset 0. */
  lemma CastCutsExample(gas: nat, need: nat)
    requires gas >= WideMemoryCost() + 3 && need == U32 + 32
    ensures Affordable(gas, 0, need) && Cast32(need - 32) == 0
  {
    assert MemCost(0) == 0;
  }
}
