/** The interpreter's code preparation: the jump-destination table, the pass that rewrites wide pushes
    and constant jumps, and the proof that the rewritten code runs as the original does. */
module CodeRewrite {

  import opened Bytes

  type Word = Word256

  // ---- Instructions -----------------------------------------------------------------------------

  const STOP: Byte := 0x00
  const JUMP: Byte := 0x56
  const JUMPI: Byte := 0x57
  const JUMPDEST: Byte := 0x5b
  const PUSH1: Byte := 0x60
  const PUSH32: Byte := 0x7f
  const PUSHC: Byte := 0xac
  const JUMPC: Byte := 0xad
  const JUMPCI: Byte := 0xae
  const UNDEFINED: Byte := 0xaf

  const PADDING := 33
  const STACK_LIMIT := 1024

  predicate IsPush(op: Byte) { PUSH1 <= op <= PUSH32 }

  predicate IsSynthetic(op: Byte) { op == PUSHC || op == JUMPC || op == JUMPCI }

  /** Number of pushed bytes that follow the opcode. */
  function Pushed(op: Byte): (n: nat)
    ensures n <= 32
  {
    if IsPush(op) then op - PUSH1 + 1 else 0
  }

  /** Walking instruction by instruction from a leads to p; the walk ends at the end of the code. */
  predicate Leads(code: seq<Byte>, size: nat, a: nat, p: nat)
    requires size <= |code|
    decreases p - a
  {
    a == p || (a < p && a < size && Leads(code, size, a + 1 + Pushed(code[a]), p))
  }

  /** p is an instruction start, or the place behind the last instruction. */
  predicate Start(code: seq<Byte>, size: nat, p: nat)
    requires size <= |code|
  {
    Leads(code, size, 0, p)
  }

  lemma {:induction false} LeadsStep(code: seq<Byte>, size: nat, a: nat, p: nat)
    requires size <= |code| && Leads(code, size, a, p) && p < size
    ensures Leads(code, size, a, p + 1 + Pushed(code[p]))
    decreases p - a
  {
    if a < p { LeadsStep(code, size, a + 1 + Pushed(code[a]), p); }
  }

  /** Of two places on a walk the later is past the end of the earlier instruction. */
  lemma {:induction false} LeadsPast(code: seq<Byte>, size: nat, a: nat, p: nat, q: nat)
    requires size <= |code| && Leads(code, size, a, p) && Leads(code, size, a, q) && p < q
    ensures p < size && p + 1 + Pushed(code[p]) <= q
    ensures Leads(code, size, p + 1 + Pushed(code[p]), q)
    decreases q - a
  {
    if a < p { LeadsPast(code, size, a + 1 + Pushed(code[a]), p, q); }
  }

  lemma {:induction false} LeadsBound(code: seq<Byte>, size: nat, a: nat, p: nat)
    requires size <= |code| && Leads(code, size, a, p) && a <= size + 32
    ensures p <= size + 32
    decreases p - a
  {
    if a < p { LeadsBound(code, size, a + 1 + Pushed(code[a]), p); }
  }

  /** The walk only reads opcodes at starts, and only whether they push. */
  lemma {:induction false} SameWalk(c: seq<Byte>, d: seq<Byte>, size: nat, a: nat, p: nat)
    requires size <= |c| && size <= |d| && Leads(c, size, a, p)
    requires forall q :: a <= q < size && Leads(c, size, a, q) ==> Pushed(d[q]) == Pushed(c[q])
    ensures Leads(d, size, a, p)
    decreases p - a
  {
    if a < p {
      var b := a + 1 + Pushed(c[a]);
      forall q | b <= q < size && Leads(c, size, b, q) ensures Pushed(d[q]) == Pushed(c[q]) {
        assert Leads(c, size, a, q);
      }
      SameWalk(c, d, size, b, p);
    }
  }

  // ---- The machine --------------------------------------------------------------------------------

  /** Memory, output, host and transaction. */
  type Rest(!new)

  datatype State = State(pc: nat, stack: seq<Word>, gas: nat, rest: Rest)

  datatype Effect = Go(results: seq<Word>, gas: nat, rest: Rest) | End(gas: nat, rest: Rest)

  /** Crash stands for reads outside the code or the constant pool. */
  datatype Outcome =
    | Next(state: State)
    | Ended(gas: nat, rest: Rest)
    | StackUnderflow
    | StackOverflow
    | OutOfGas
    | BadJump
    | Crash

  /** The metrics table and the instructions outside the push and jump groups.  These read the caller's
      code, not the copy that is rewritten. */
  datatype Env = Env(required: Byte -> nat, change: Byte -> int, cost: Byte -> nat,
                         other: (Byte, nat, seq<Word>, nat, Rest) -> Effect)
  {
    ghost predicate Valid()
    {
      (forall op: Byte :: IsPush(op) ==> required(op) == 0 && change(op) == 1 && cost(op) == cost(PUSH1)) &&
      (required(PUSHC) == 0 && change(PUSHC) == 1 && cost(PUSHC) == cost(PUSH1)) &&
      (required(JUMP) == 1 && change(JUMP) == -1 && required(JUMPI) == 2 && change(JUMPI) == -2) &&
      (required(JUMPC) == 1 && change(JUMPC) == -1 && cost(JUMPC) == cost(JUMP)) &&
      (required(JUMPCI) == 2 && change(JUMPCI) == -2 && cost(JUMPCI) == cost(JUMPI)) &&
      (forall op, pc, stack, gas, rest :: other(op, pc, stack, gas, rest).Go? ==>
        op != STOP && |other(op, pc, stack, gas, rest).results| == required(op) + change(op))
    }
  }

  /** The big-endian number in n bytes from p on. */
  function Constant(code: seq<Byte>, p: nat, n: nat): (v: nat)
    requires p + n <= |code|
    ensures v < Pow256(n)
  {
    if n == 0 then 0 else Constant(code, p, n - 1) * 256 + code[p + n - 1]
  }

  lemma PushFits(code: seq<Byte>, p: nat, n: nat)
    requires p + n <= |code| && n <= 32
    ensures Constant(code, p, n) < 0x1_0000000000000000_0000000000000000_0000000000000000_0000000000000000
  {
    Pow256Monotone(n, 32);
    Pow256At32();
  }

  /** The constant pushed at p. */
  function PushValue(code: seq<Byte>, p: nat): Word
    requires p + PADDING <= |code|
  {
    PushFits(code, p + 1, Pushed(code[p]));
    Constant(code, p + 1, Pushed(code[p]))
  }

  /** The two bytes behind a PUSHC. */
  function PoolOffset(code: seq<Byte>, p: nat): nat
    requires p + 2 < |code|
  {
    var high, low: int := code[p + 1], code[p + 2];
    high * 256 + low
  }

  predicate Verified(dests: seq<nat>, dest: Word)
  {
    dest <= 0x7FFF_FFFF_FFFF_FFFF && dest in dests
  }

  /** The prepared code a machine runs. */
  datatype Program = Program(code: seq<Byte>, size: nat, dests: seq<nat>, pool: seq<Word>)

  function Pay(s: State, cost: nat, pc: nat, stack: seq<Word>): Outcome
  {
    if s.gas < cost then OutOfGas else Next(State(pc, stack, s.gas - cost, s.rest))
  }

  /** One round of the interpreter loop. */
  function Step(env: Env, prog: Program, s: State): Outcome
  {
    if s.pc >= |prog.code| then Crash
    else
      var op := prog.code[s.pc];
      if |s.stack| < env.required(op) then StackUnderflow
      else if |s.stack| + env.change(op) > STACK_LIMIT then StackOverflow
      else Execute(env, prog, s, op)
  }

  function Execute(env: Env, prog: Program, s: State, op: Byte): Outcome
    requires s.pc < |prog.code| && op == prog.code[s.pc] && env.required(op) <= |s.stack|
  {
    if IsPush(op) then
      if s.pc + PADDING > |prog.code| then Crash
      else Pay(s, env.cost(op), s.pc + 1 + Pushed(op), [PushValue(prog.code, s.pc)] + s.stack)
    else if op == PUSHC then
      if s.pc + 3 >= |prog.code| || PoolOffset(prog.code, s.pc) >= |prog.pool| then Crash
      else Pay(s, env.cost(op), s.pc + 3 + prog.code[s.pc + 3], [prog.pool[PoolOffset(prog.code, s.pc)]] + s.stack)
    else if (op == JUMP || op == JUMPC) && |s.stack| >= 1 then
      if s.gas < env.cost(op) then OutOfGas
      else if op == JUMP && !Verified(prog.dests, s.stack[0]) then BadJump
      else Pay(s, env.cost(op), s.stack[0] % 0x1_0000_0000_0000_0000, s.stack[1..])
    else if (op == JUMPI || op == JUMPCI) && |s.stack| >= 2 then
      if s.gas < env.cost(op) then OutOfGas
      else if s.stack[1] == 0 then Pay(s, env.cost(op), s.pc + 1, s.stack[2..])
      else if op == JUMPI && !Verified(prog.dests, s.stack[0]) then BadJump
      else Pay(s, env.cost(op), s.stack[0] % 0x1_0000_0000_0000_0000, s.stack[2..])
    else
      match env.other(op, s.pc, s.stack, s.gas, s.rest)
      case Go(results, gas, rest) => Next(State(s.pc + 1, results + s.stack[env.required(op)..], gas, rest))
      case End(gas, rest) => Ended(gas, rest)
  }

  /** The state after n rounds, or how the run ended. */
  function Run(env: Env, prog: Program, s: State, n: nat): Outcome
    decreases n
  {
    if n == 0 then Next(s)
    else
      var r := Step(env, prog, s);
      if r.Next? then Run(env, prog, r.state, n - 1) else r
  }

  // ---- The unrewritten program --------------------------------------------------------------------

  /** The copied code is followed by zeros; synthetic opcodes are gone; the table is sorted and lists
      exactly the JUMPDEST bytes at instruction starts. */
  ghost predicate Prepared(prog: Program)
  {
    prog.size + PADDING == |prog.code| &&
    (forall p :: prog.size <= p < |prog.code| ==> prog.code[p] == 0) &&
    (forall p :: 0 <= p < prog.size && Start(prog.code, prog.size, p) ==> !IsSynthetic(prog.code[p])) &&
    (forall i, j :: 0 <= i < j < |prog.dests| ==> prog.dests[i] < prog.dests[j]) &&
    (forall p: nat :: p in prog.dests <==> p < prog.size && Start(prog.code, prog.size, p) && prog.code[p] == JUMPDEST)
  }

  /** The check succeeds exactly on JUMPDEST bytes at instruction starts. */
  lemma VerifiedExactly(prog: Program, dest: Word)
    requires Prepared(prog) && prog.size <= 0x8000_0000_0000_0000
    ensures Verified(prog.dests, dest) <==>
      dest < prog.size && Start(prog.code, prog.size, dest) && prog.code[dest] == JUMPDEST
  {
  }

  // ---- What pushes and jumps do -------------------------------------------------------------------

  /** d is a JUMPDEST byte at an instruction start. */
  ghost predicate IsDestination(prog: Program, d: Word)
    requires prog.size <= |prog.code|
  {
    d < prog.size && Start(prog.code, prog.size, d) && prog.code[d] == 0x5b
  }

  /** JUMP goes to the word on top of the stack and takes it off, if that is a destination. */
  lemma JumpStep(env: Env, prog: Program, s: State, d: Word, rest: seq<Word>)
    requires env.Valid() && Prepared(prog) && prog.size <= 0x8000_0000_0000_0000
    requires s.pc < |prog.code| && prog.code[s.pc] == 0x56 && s.stack == [d] + rest && |s.stack| <= 1024
    ensures s.gas < env.cost(0x56) ==> Step(env, prog, s) == OutOfGas
    ensures s.gas >= env.cost(0x56) && !IsDestination(prog, d) ==> Step(env, prog, s) == BadJump
    ensures s.gas >= env.cost(0x56) && IsDestination(prog, d) ==>
      Step(env, prog, s) == Next(State(d, rest, s.gas - env.cost(0x56), s.rest))
  {
    VerifiedExactly(prog, d);
    assert s.stack[1..] == rest;
  }

  /** JUMPI takes two words off the stack and goes to the first when the second is not zero, if that is a
      destination, and else to the next instruction. */
  lemma JumpIfStep(env: Env, prog: Program, s: State, d: Word, c: Word, rest: seq<Word>)
    requires env.Valid() && Prepared(prog) && prog.size <= 0x8000_0000_0000_0000
    requires s.pc < |prog.code| && prog.code[s.pc] == 0x57 && s.stack == [d, c] + rest && |s.stack| <= 1024
    ensures s.gas < env.cost(0x57) ==> Step(env, prog, s) == OutOfGas
    ensures s.gas >= env.cost(0x57) && c == 0 ==>
      Step(env, prog, s) == Next(State(s.pc + 1, rest, s.gas - env.cost(0x57), s.rest))
    ensures s.gas >= env.cost(0x57) && c != 0 && !IsDestination(prog, d) ==> Step(env, prog, s) == BadJump
    ensures s.gas >= env.cost(0x57) && c != 0 && IsDestination(prog, d) ==>
      Step(env, prog, s) == Next(State(d, rest, s.gas - env.cost(0x57), s.rest))
  {
    VerifiedExactly(prog, d);
    assert s.stack[2..] == rest;
  }

  /** Every instruction fails without the words that it requires, one for JUMP and two for JUMPI, and when
      it would leave more than 1024. */
  lemma StackChecks(env: Env, prog: Program, s: State)
    requires env.Valid() && s.pc < |prog.code|
    ensures |s.stack| < env.required(prog.code[s.pc]) ==> Step(env, prog, s) == StackUnderflow
    ensures |s.stack| >= env.required(prog.code[s.pc]) && |s.stack| + env.change(prog.code[s.pc]) > 1024 ==>
      Step(env, prog, s) == StackOverflow
    ensures env.required(0x56) == 1 && env.required(0x57) == 2
  {
  }

  /** Any other instruction replaces the words it requires by its results and goes on to the next byte,
      with the gas that it leaves. */
  lemma OtherStep(env: Env, prog: Program, s: State, args: seq<Word>, below: seq<Word>)
    requires env.Valid() && s.pc < |prog.code| && s.stack == args + below
    requires !(0x56 <= prog.code[s.pc] <= 0x57) && !(0x60 <= prog.code[s.pc] <= 0x7f) && !(0xac <= prog.code[s.pc] <= 0xae)
    requires |args| == env.required(prog.code[s.pc]) && |s.stack| + env.change(prog.code[s.pc]) <= 1024
    ensures var r := env.other(prog.code[s.pc], s.pc, s.stack, s.gas, s.rest);
      Step(env, prog, s) ==
        if r.Go? then Next(State(s.pc + 1, r.results + below, r.gas, r.rest)) else Ended(r.gas, r.rest)
  {
    assert s.stack[|args|..] == below;
  }

  /** The push opcode with 0x60 + n - 1 puts the constant in the next n bytes on the stack and goes on
      behind them. */
  lemma PushStep(env: Env, prog: Program, s: State, n: nat)
    requires env.Valid() && 1 <= n <= 32 && s.pc + PADDING <= |prog.code| && prog.code[s.pc] == 0x60 + n - 1
    ensures |s.stack| >= 1024 ==> Step(env, prog, s) == StackOverflow
    ensures |s.stack| < 1024 && s.gas < env.cost(0x60) ==> Step(env, prog, s) == OutOfGas
    ensures |s.stack| < 1024 && s.gas >= env.cost(0x60) ==>
      Step(env, prog, s) == Next(State(s.pc + 1 + n, [PushValue(prog.code, s.pc)] + s.stack, s.gas - env.cost(0x60), s.rest))
  {
    assert IsPush(prog.code[s.pc]) && Pushed(prog.code[s.pc]) == n;
  }

  /** The constant is below 256^n, and its bytes are those behind the opcode, the highest first. */
  lemma PushedByte(code: seq<Byte>, p: nat, n: nat, i: nat)
    requires 1 <= n <= 32 && p + PADDING <= |code| && code[p] == 0x60 + n - 1 && i < n
    ensures PushValue(code, p) < Pow256(n)
    ensures PushValue(code, p) / Pow256(n - 1 - i) % 256 == code[p + 1 + i]
  {
    assert Pushed(code[p]) == n;
    ConstantIsBigEndian(code, p + 1, n);
    FromBigEndianByte(code[p + 1..p + 1 + n], i);
  }

  lemma {:induction false} ConstantIsBigEndian(code: seq<Byte>, p: nat, n: nat)
    requires p + n <= |code|
    ensures Constant(code, p, n) == FromBigEndian(code[p..p + n])
    decreases n
  {
    if n > 0 {
      ConstantIsBigEndian(code, p, n - 1);
      assert code[p..p + n][..n - 1] == code[p..p + n - 1];
    }
  }

  /** The pc is an instruction start or in the padding right behind the last instruction. */
  ghost predicate Sound(prog: Program, s: State)
    requires prog.size <= |prog.code|
  {
    Start(prog.code, prog.size, s.pc) && s.pc <= prog.size + 32 && |s.stack| <= STACK_LIMIT
  }

  /** A step goes to the next instruction or to a verified destination. */
  lemma StepLands(env: Env, prog: Program, s: State)
    requires env.Valid() && s.pc < |prog.code| && |s.stack| <= STACK_LIMIT && !IsSynthetic(prog.code[s.pc])
    requires s.pc + PADDING <= |prog.code| || !IsPush(prog.code[s.pc])
    ensures !Step(env, prog, s).Crash?
    ensures Step(env, prog, s).Next? ==> prog.code[s.pc] != STOP && |Step(env, prog, s).state.stack| <= STACK_LIMIT
    ensures Step(env, prog, s).Next? ==>
      var pc := Step(env, prog, s).state.pc;
      pc == s.pc + 1 + Pushed(prog.code[s.pc]) || pc in prog.dests
  {
  }

  /** Every step from a sound state reads inside the code and leads to a sound state. */
  lemma SoundStep(env: Env, prog: Program, s: State)
    requires env.Valid() && Prepared(prog) && Sound(prog, s)
    ensures !Step(env, prog, s).Crash?
    ensures Step(env, prog, s).Next? ==> Sound(prog, Step(env, prog, s).state)
  {
    StepLands(env, prog, s);
    if Step(env, prog, s).Next? { SoundTarget(prog, s.pc, Step(env, prog, s).state.pc); }
  }

  lemma SoundTarget(prog: Program, p: nat, q: nat)
    requires Prepared(prog) && p < |prog.code| && Start(prog.code, prog.size, p) && prog.code[p] != STOP
    requires q == p + 1 + Pushed(prog.code[p]) || q in prog.dests
    ensures Start(prog.code, prog.size, q) && q <= prog.size + 32
  {
    if q == p + 1 + Pushed(prog.code[p]) {
      LeadsStep(prog.code, prog.size, 0, p);
      LeadsBound(prog.code, prog.size, 0, q);
    }
  }

  /** In every run of prepared code the pc stays on instruction starts or right behind the last
      instruction, all reads are inside the code, and the stack height within its limit. */
  lemma {:induction false} RunStaysSound(env: Env, prog: Program, s: State, n: nat)
    requires env.Valid() && Prepared(prog) && Sound(prog, s)
    ensures !Run(env, prog, s, n).Crash?
    ensures Run(env, prog, s, n).Next? ==> Sound(prog, Run(env, prog, s, n).state)
    decreases n
  {
    if n > 0 {
      SoundStep(env, prog, s);
      if Step(env, prog, s).Next? { RunStaysSound(env, prog, Step(env, prog, s).state, n - 1); }
    }
  }

  // ---- The rewriting pass ---------------------------------------------------------------------------

  predicate Wide(op: Byte) { Pushed(op) > 5 }

  /** The number of wide pushes on the walk from a before p. */
  function WideBefore(code: seq<Byte>, size: nat, a: nat, p: nat): nat
    requires size <= |code|
    decreases p - a
  {
    if a >= p || a >= size then 0
    else (if Wide(code[a]) then 1 else 0) + WideBefore(code, size, a + 1 + Pushed(code[a]), p)
  }

  lemma {:induction false} WideStep(code: seq<Byte>, size: nat, a: nat, p: nat)
    requires size <= |code| && Leads(code, size, a, p) && p < size
    ensures WideBefore(code, size, a, p + 1 + Pushed(code[p])) == WideBefore(code, size, a, p) + if Wide(code[p]) then 1 else 0
    decreases p - a
  {
    if a < p { WideStep(code, size, a + 1 + Pushed(code[a]), p); }
  }

  /** The push at q is directly before p. */
  predicate PushBefore(c: seq<Byte>, size: nat, q: nat, p: nat)
    requires size + PADDING == |c|
  {
    q < size && Start(c, size, q) && IsPush(c[q]) && q + 1 + Pushed(c[q]) == p
  }

  /** A jump at p to a constant that is a jump destination. */
  ghost predicate ConstantJump(c: seq<Byte>, size: nat, dests: seq<nat>, p: nat)
    requires size + PADDING == |c|
  {
    exists q :: PushBefore(c, size, q, p) && Verified(dests, PushValue(c, q))
  }

  ghost function RewrittenOp(c: seq<Byte>, size: nat, dests: seq<nat>, p: nat): Byte
    requires size + PADDING == |c| && p < |c|
  {
    if c[p] == JUMP && ConstantJump(c, size, dests, p) then JUMPC
    else if c[p] == JUMPI && ConstantJump(c, size, dests, p) then JUMPCI
    else c[p]
  }

  /** The pass has treated the push at p. */
  ghost predicate PushDone(c: seq<Byte>, size: nat, d: seq<Byte>, pool: seq<Word>, p: nat)
    requires size + PADDING == |c| == |d| && p < size
  {
    var n, w := Pushed(c[p]), WideBefore(c, size, 0, p);
    if Wide(c[p]) then
      d[p] == PUSHC && w < |pool| && PoolOffset(d, p) == w % 0x1_0000 && d[p + 3] == n - 2 && pool[w] == PushValue(c, p)
    else d[p..p + 1 + n] == c[p..p + 1 + n]
  }

  /** What the pass has done when it reaches pc: pushes before pc are treated, the other instructions
      up to pc have their final opcode, and nothing after pc has changed. */
  ghost predicate RewrittenUpTo(c: seq<Byte>, size: nat, dests: seq<nat>, d: seq<Byte>, pool: seq<Word>, pc: nat)
    requires size + PADDING == |c|
  {
    |d| == |c| && Start(c, size, pc) && pc < |c| &&
    |pool| == WideBefore(c, size, 0, pc) &&
    (forall p: nat :: p < pc && Start(c, size, p) && IsPush(c[p]) ==> p < size && PushDone(c, size, d, pool, p)) &&
    (forall p: nat :: p <= pc && Start(c, size, p) && !(p < pc && IsPush(c[p])) ==> d[p] == RewrittenOp(c, size, dests, p)) &&
    (forall p: nat :: pc < p < |c| ==> d[p] == c[p])
  }

  lemma PushBeforeUnique(c: seq<Byte>, size: nat, p: nat, q: nat, r: nat)
    requires size + PADDING == |c| && Start(c, size, q) && Start(c, size, r) && q < size && r < size
    requires q + 1 + Pushed(c[q]) == p && r + 1 + Pushed(c[r]) == p
    ensures q == r
  {
    if q < r { LeadsPast(c, size, 0, q, r); }
    if r < q { LeadsPast(c, size, 0, r, q); }
  }

  /** The instruction behind a push is a constant jump exactly when the pushed value is a destination;
      behind any other instruction it is not. */
  lemma ConstantJumpAfter(c: seq<Byte>, size: nat, dests: seq<nat>, q: nat)
    requires size + PADDING == |c| && Start(c, size, q) && q < size
    ensures ConstantJump(c, size, dests, q + 1 + Pushed(c[q])) <==> IsPush(c[q]) && Verified(dests, PushValue(c, q))
  {
    var p := q + 1 + Pushed(c[q]);
    forall r | PushBefore(c, size, r, p) ensures r == q {
      PushBeforeUnique(c, size, p, q, r);
    }
    if IsPush(c[q]) { assert PushBefore(c, size, q, p); }
  }

  /** What the pass meets at pc. */
  lemma NothingRewritten(prog: Program)
    requires Prepared(prog)
    ensures RewrittenUpTo(prog.code, prog.size, prog.dests, prog.code, [], 0)
  {
  }

  lemma HeadOf(c: seq<Byte>, size: nat, dests: seq<nat>, d: seq<Byte>, pool: seq<Word>, pc: nat)
    requires size + PADDING == |c| && RewrittenUpTo(c, size, dests, d, pool, pc) && pc < size
    ensures IsPush(d[pc]) == IsPush(c[pc]) && Pushed(d[pc]) == Pushed(c[pc])
    ensures pc + PADDING <= |d| && pc + 1 + Pushed(d[pc]) < |d|
  {
    LeadsStep(c, size, 0, pc);
    LeadsBound(c, size, 0, pc + 1 + Pushed(c[pc]));
  }

  lemma StepOver(c: seq<Byte>, size: nat, dests: seq<nat>, d: seq<Byte>, pool: seq<Word>, pc: nat)
    requires size + PADDING == |c| && RewrittenUpTo(c, size, dests, d, pool, pc) && pc < size && !IsPush(c[pc])
    ensures RewrittenUpTo(c, size, dests, d, pool, pc + 1)
  {
    LeadsStep(c, size, 0, pc);
    WideStep(c, size, 0, pc);
    ConstantJumpAfter(c, size, dests, pc);
    forall p: nat | p <= pc + 1 && Start(c, size, p) && p != pc + 1 ensures p <= pc {
    }
  }

  /** The bytes written for a push and for the jump behind it. */
  function PushWritten(d: seq<Byte>, pc: nat, off: nat): (e: seq<Byte>)
    requires pc + PADDING <= |d|
    ensures |e| == |d|
  {
    var n := Pushed(d[pc]);
    if Wide(d[pc]) then d[pc := PUSHC][pc + 3 := (n - 2) as Byte][pc + 2 := (off % 256) as Byte][pc + 1 := (off / 256 % 256) as Byte] else d
  }

  /** The opcode written behind a push of val. */
  function JumpWritten(op: Byte, dests: seq<nat>, val: Word): Byte
  {
    if op == JUMP && Verified(dests, val) then JUMPC
    else if op == JUMPI && Verified(dests, val) then JUMPCI
    else op
  }

  lemma {:induction false} SameConstant(c: seq<Byte>, d: seq<Byte>, p: nat, n: nat)
    requires p + n <= |c| && p + n <= |d| && forall q :: p <= q < p + n ==> c[q] == d[q]
    ensures Constant(c, p, n) == Constant(d, p, n)
    decreases n
  {
    if n > 0 { SameConstant(c, d, p, n - 1); }
  }

  lemma {:induction false} WrittenPush(d: seq<Byte>, pc: nat, w: nat)
    requires pc + PADDING <= |d| && Wide(d[pc])
    ensures var e := PushWritten(d, pc, w % 0x1_0000);
      e[pc] == PUSHC && PoolOffset(e, pc) == w % 0x1_0000 && e[pc + 3] == Pushed(d[pc]) - 2
    ensures forall q :: 0 <= q < |d| && !(pc <= q <= pc + 3) ==> PushWritten(d, pc, w % 0x1_0000)[q] == d[q]
  {
  }

  lemma FinalBytes(d: seq<Byte>, pc: nat, w: nat, f: seq<Byte>, dests: seq<nat>, val: Word)
    requires pc + PADDING <= |d| && IsPush(d[pc]) && pc + 1 + Pushed(d[pc]) < |d|
    requires var e, i := PushWritten(d, pc, w % 0x1_0000), pc + 1 + Pushed(d[pc]);
      f == e[i := JumpWritten(e[i], dests, val)]
    ensures |f| == |d| && f[pc + 1 + Pushed(d[pc])] == JumpWritten(d[pc + 1 + Pushed(d[pc])], dests, val)
    ensures forall q :: 0 <= q < pc || pc + 1 + Pushed(d[pc]) < q < |d| ==> f[q] == d[q]
    ensures forall q :: pc <= q <= pc + Pushed(d[pc]) ==> f[q] == PushWritten(d, pc, w % 0x1_0000)[q]
  {
    if Wide(d[pc]) { WrittenPush(d, pc, w); }
  }

  /** Treating the push at pc and the jump behind it carries the pass to the next instruction. */
  lemma {:induction false} PushOver(c: seq<Byte>, size: nat, dests: seq<nat>, d: seq<Byte>, pool: seq<Word>, pc: nat, f: seq<Byte>, val: Word)
    requires size + PADDING == |c| && RewrittenUpTo(c, size, dests, d, pool, pc) && pc < size && IsPush(d[pc])
    requires val == PushValue(d, pc)
    requires var e, i := PushWritten(d, pc, |pool| % 0x1_0000), pc + 1 + Pushed(d[pc]);
      f == e[i := JumpWritten(e[i], dests, val)]
    ensures c[pc] == d[pc] && val == PushValue(c, pc)
    ensures RewrittenUpTo(c, size, dests, f, if Wide(d[pc]) then pool + [val] else pool, pc + 1 + Pushed(d[pc]))
  {
    var i := pc + 1 + Pushed(d[pc]);
    var pool' := if Wide(d[pc]) then pool + [val] else pool;
    PushHead(c, size, dests, d, pool, pc);
    FinalBytes(d, pc, |pool|, f, dests, val);
    assert f[i] == RewrittenOp(c, size, dests, i);
    forall p: nat | p <= i && Start(c, size, p) ensures p <= pc || p == i {
      if pc < p { LeadsPast(c, size, 0, pc, p); }
    }
    PushTreated(c, size, d, f, pool, val, pc);
    forall p: nat | p < i && Start(c, size, p) && IsPush(c[p]) ensures p < size && PushDone(c, size, f, pool', p) {
      if p < pc { EarlierPushStays(c, size, dests, d, pool, pc, f, pool', p); }
    }
  }

  /** The push at pc and what follows it are as they were, and the instruction behind it is next. */
  lemma {:induction false} PushHead(c: seq<Byte>, size: nat, dests: seq<nat>, d: seq<Byte>, pool: seq<Word>, pc: nat)
    requires size + PADDING == |c| && RewrittenUpTo(c, size, dests, d, pool, pc) && pc < size && IsPush(d[pc])
    ensures c[pc] == d[pc] && PushValue(d, pc) == PushValue(c, pc)
    ensures var i := pc + 1 + Pushed(c[pc]);
      Start(c, size, i) && i < |c| &&
      WideBefore(c, size, 0, i) == (if Wide(c[pc]) then |pool| + 1 else |pool|) &&
      (ConstantJump(c, size, dests, i) <==> Verified(dests, PushValue(c, pc)))
  {
    SameConstant(c, d, pc + 1, Pushed(c[pc]));
    LeadsStep(c, size, 0, pc);
    LeadsBound(c, size, 0, pc + 1 + Pushed(c[pc]));
    WideStep(c, size, 0, pc);
    ConstantJumpAfter(c, size, dests, pc);
  }

  lemma EarlierPushStays(c: seq<Byte>, size: nat, dests: seq<nat>, d: seq<Byte>, pool: seq<Word>, pc: nat, f: seq<Byte>, pool': seq<Word>, p: nat)
    requires size + PADDING == |c| && RewrittenUpTo(c, size, dests, d, pool, pc) && |f| == |d| && pool <= pool'
    requires p < pc && Start(c, size, p) && IsPush(c[p]) && forall q :: 0 <= q < pc ==> f[q] == d[q]
    ensures p < size && PushDone(c, size, f, pool', p)
  {
    LeadsPast(c, size, 0, p, pc);
    PushStays(c, size, d, f, pool, pool', p);
  }

  lemma PushStays(c: seq<Byte>, size: nat, d: seq<Byte>, f: seq<Byte>, pool: seq<Word>, pool': seq<Word>, p: nat)
    requires size + PADDING == |c| == |d| == |f| && p < size && PushDone(c, size, d, pool, p)
    requires forall q :: p <= q <= p + Pushed(c[p]) ==> f[q] == d[q]
    requires pool <= pool'
    ensures PushDone(c, size, f, pool', p)
  {
    var n := Pushed(c[p]);
    assert f[p..p + 1 + n] == d[p..p + 1 + n];
  }

  lemma PushTreated(c: seq<Byte>, size: nat, d: seq<Byte>, f: seq<Byte>, pool: seq<Word>, val: Word, p: nat)
    requires size + PADDING == |c| == |d| == |f| && p < size && c[p] == d[p] && IsPush(c[p])
    requires forall q :: p <= q <= p + Pushed(c[p]) ==> d[q] == c[q]
    requires val == PushValue(c, p) && |pool| == WideBefore(c, size, 0, p)
    requires forall q :: p <= q <= p + Pushed(c[p]) ==> f[q] == PushWritten(d, p, |pool| % 0x1_0000)[q]
    ensures PushDone(c, size, f, if Wide(d[p]) then pool + [val] else pool, p)
  {
    var n := Pushed(c[p]);
    if Wide(d[p]) {
      WrittenPush(d, p, |pool|);
    } else {
      assert f[p..p + 1 + n] == c[p..p + 1 + n];
    }
  }

  // ---- The interpreter object --------------------------------------------------------------------------

  /** The code with synthetic opcodes at instruction starts made undefined. */
  ghost predicate Cleaned(o: seq<Byte>, size: nat, c: seq<Byte>, upTo: nat)
    requires size <= |o|
  {
    |c| == |o| &&
    forall p: nat :: p < |o| ==>
      c[p] == if p < upTo && p < size && Start(o, size, p) && IsSynthetic(o[p]) then UNDEFINED else o[p]
  }

  /** The table holds the JUMPDEST bytes at instruction starts before pc, in ascending order. */
  ghost predicate Table(o: seq<Byte>, size: nat, dests: seq<nat>, pc: nat)
    requires size <= |o|
  {
    (forall i, j :: 0 <= i < j < |dests| ==> dests[i] < dests[j]) &&
    (forall p: nat :: p in dests <==> p < pc && p < size && Start(o, size, p) && o[p] == JUMPDEST)
  }

  lemma TableStep(o: seq<Byte>, size: nat, dests: seq<nat>, pc: nat)
    requires size <= |o| && pc < size && Start(o, size, pc) && Table(o, size, dests, pc)
    ensures Start(o, size, pc + 1 + Pushed(o[pc]))
    ensures Table(o, size, if o[pc] == JUMPDEST then dests + [pc] else dests, pc + 1 + Pushed(o[pc]))
    ensures forall p :: pc < p < pc + 1 + Pushed(o[pc]) ==> !Start(o, size, p)
  {
    LeadsStep(o, size, 0, pc);
    forall p: nat | pc < p < pc + 1 + Pushed(o[pc]) ensures !Start(o, size, p) {
      if Start(o, size, p) { LeadsPast(o, size, 0, pc, p); }
    }
    var dests' := if o[pc] == JUMPDEST then dests + [pc] else dests;
    forall i | 0 <= i < |dests| ensures dests[i] < pc { assert dests[i] in dests; }
    forall p: nat ensures p in dests' <==> p in dests || (o[pc] == JUMPDEST && p == pc) { }
  }

  lemma CleanedWalk(o: seq<Byte>, size: nat, c: seq<Byte>, p: nat)
    requires size <= |o| && Cleaned(o, size, c, size)
    ensures Start(c, size, p) <==> Start(o, size, p)
  {
    if Start(o, size, p) { SameWalk(o, c, size, 0, p); }
    if Start(c, size, p) { SameWalk(c, o, size, 0, p); }
  }

  /** Preparation replaces the opcodes 0xac to 0xae at instruction starts by 0xaf, and nothing else. */
  lemma PreparedByte(o: seq<Byte>, size: nat, c: seq<Byte>, p: nat)
    requires size <= |o| && Cleaned(o, size, c, size) && p < |o|
    ensures |c| == |o|
    ensures c[p] == if p < size && Start(o, size, p) && 0xac <= o[p] <= 0xae then 0xaf else o[p]
  {
  }

  class Vm {
    const given: seq<Byte>
    var code: seq<Byte>
    var jumpDests: seq<nat>
    var pool: seq<Word>

    constructor (given: seq<Byte>)
      ensures this.given == given && code == [] && jumpDests == [] && pool == []
    {
      this.given := given;
      code, jumpDests, pool := [], [], [];
    }

    function Prog(): Program
      reads this
    {
      Program(code, |given|, jumpDests, pool)
    }

    method CopyCode(extra: nat)
      modifies this`code
      ensures code == given + Zeros(extra)
    {
      code := given + Zeros(extra);
    }

    /** The first loop of optimize. */
    method BuildTable()
      requires code == given + Zeros(PADDING) && jumpDests == []
      modifies this`code, this`jumpDests
      ensures Cleaned(old(code), |given|, code, |given|) && Table(old(code), |given|, jumpDests, |given|)
    {
      ghost var o := code;
      var n := |given|;
      var pc := 0;
      while pc < n
        invariant Start(o, n, pc)
        invariant Cleaned(o, n, code, pc) && Table(o, n, jumpDests, pc)
        decreases n - pc
      {
        var op := code[pc];
        TableStep(o, n, jumpDests, pc);
        if IsSynthetic(op) { code := code[pc := UNDEFINED]; }
        if op == JUMPDEST { jumpDests := jumpDests + [pc]; }
        pc := pc + 1 + Pushed(op);
      }
    }
  
    /** The bytes behind the push at pc as a number. */
    method Decode(pc: nat) returns (val: Word)
      requires pc + PADDING <= |code| && IsPush(code[pc])
      ensures val == PushValue(code, pc)
    {
      var n := Pushed(code[pc]);
      val := code[pc + 1];
      var k := 1;
      while k < n
        invariant 1 <= k <= n && val == Constant(code, pc + 1, k)
      {
        PushFits(code, pc + 1, k + 1);
        val := (val * 256) % 0x1_0000000000000000_0000000000000000_0000000000000000_0000000000000000 + code[pc + 1 + k];
        k := k + 1;
      }
    }

    /** Binary search in the table. */
    method VerifyJumpDest(dest: Word) returns (r: int)
      requires forall i, j :: 0 <= i < j < |jumpDests| ==> jumpDests[i] < jumpDests[j]
      ensures r == if Verified(jumpDests, dest) then dest else -1
    {
      if dest <= 0x7FFF_FFFF_FFFF_FFFF {
        var lo, hi := 0, |jumpDests|;
        while lo < hi
          invariant 0 <= lo <= hi <= |jumpDests|
          invariant forall i :: 0 <= i < lo ==> jumpDests[i] < dest
          invariant forall i :: hi <= i < |jumpDests| ==> jumpDests[i] > dest
        {
          var mid := (lo + hi) / 2;
          if jumpDests[mid] == dest { return dest; }
          if jumpDests[mid] < dest { lo := mid + 1; } else { hi := mid; }
        }
      }
      r := -1;
    }

    /** A jump at i to the constant val becomes a pre-verified one when val is a destination. */
    method RewriteJump(i: nat, val: Word)
      requires i < |code| && forall i, j :: 0 <= i < j < |jumpDests| ==> jumpDests[i] < jumpDests[j]
      modifies this`code
      ensures code == old(code)[i := JumpWritten(old(code)[i], jumpDests, val)]
    {
      if code[i] == JUMP {
        var r := VerifyJumpDest(val);
        if 0 <= r { code := code[i := JUMPC]; }
      } else if code[i] == JUMPI {
        var r := VerifyJumpDest(val);
        if 0 <= r { code := code[i := JUMPCI]; }
      }
    }

    /** One push: its constant goes to the pool when it is wide, and a jump behind it is verified. */
    method RewritePush(pc: nat) returns (val: Word)
      requires pc + PADDING <= |code| && IsPush(code[pc]) && pc + 1 + Pushed(code[pc]) < |code|
      requires forall i, j :: 0 <= i < j < |jumpDests| ==> jumpDests[i] < jumpDests[j]
      modifies this`code, this`pool
      ensures val == PushValue(old(code), pc)
      ensures pool == if Wide(old(code)[pc]) then old(pool) + [val] else old(pool)
      ensures var e, i := PushWritten(old(code), pc, |old(pool)| % 0x1_0000), pc + 1 + Pushed(old(code)[pc]);
        code == e[i := JumpWritten(e[i], jumpDests, val)]
    {
      var op := code[pc];
      val := Decode(pc);
      if Wide(op) {
        var off := |pool| % 0x1_0000;
        pool := pool + [val];
        code := PushWritten(code, pc, off);
      }
      RewriteJump(pc + Pushed(op) + 1, val);
    }

    /** The first pass: constants into the pool, jumps to constant destinations verified ahead. */
    method RewritePushes() returns (ghost end: nat)
      requires Prepared(Prog()) && pool == []
      modifies this`code, this`pool
      ensures end >= |given| && RewrittenUpTo(old(code), |given|, jumpDests, code, pool, end)
    {
      ghost var c := code;
      NothingRewritten(Prog());
      var pc := 0;
      while pc < |given|
        invariant RewrittenUpTo(c, |given|, jumpDests, code, pool, pc)
        decreases |given| - pc
      {
        pc := RewriteAt(pc, c);
      }
      end := pc;
    }

    /** One instruction of the pass. */
    method RewriteAt(pc: nat, ghost c: seq<Byte>) returns (next: nat)
      requires |given| + PADDING == |c| && pc < |given| && RewrittenUpTo(c, |given|, jumpDests, code, pool, pc)
      requires forall i, j :: 0 <= i < j < |jumpDests| ==> jumpDests[i] < jumpDests[j]
      modifies this`code, this`pool
      ensures next > pc && RewrittenUpTo(c, |given|, jumpDests, code, pool, next)
    {
      HeadOf(c, |given|, jumpDests, code, pool, pc);
      var op := code[pc];
      if IsPush(op) {
        ghost var d, before := code, pool;
        var val := RewritePush(pc);
        PushOver(c, |given|, jumpDests, d, before, pc, code, val);
        next := pc + Pushed(op) + 1;
      } else {
        StepOver(c, |given|, jumpDests, code, pool, pc);
        next := pc + 1;
      }
    }

    /** optimize: the pass is there when the code is built with it. */
    method Optimize(optimizing: bool) returns (ghost plain: Program, ghost end: nat)
      requires jumpDests == [] && pool == []
      modifies this
      ensures Prepared(plain) && plain.size == |given| && plain.dests == jumpDests && plain.pool == []
      ensures Cleaned(given + Zeros(PADDING), |given|, plain.code, |given|)
      ensures !optimizing ==> Prog() == plain
      ensures optimizing ==> end >= |given| && RewrittenUpTo(plain.code, |given|, jumpDests, code, pool, end)
    {
      CopyCode(PADDING);
      ghost var o := code;
      BuildTable();
      TableIsPrepared(o, |given|, Prog());
      plain, end := Prog(), 0;
      if optimizing { end := RewritePushes(); }
    }
  }

  lemma TableIsPrepared(o: seq<Byte>, size: nat, prog: Program)
    requires size + PADDING == |o| && prog.size == size && (forall p :: size <= p < |o| ==> o[p] == 0)
    requires Cleaned(o, size, prog.code, size) && Table(o, size, prog.dests, size)
    ensures Prepared(prog)
  {
    forall p: nat ensures Start(prog.code, size, p) <==> Start(o, size, p) { CleanedWalk(o, size, prog.code, p); }
  }

  // ---- The rewritten program runs as the original does -------------------------------------------------

  /** Behind a push, unless at a jump destination, the pushed constant is on top of the stack. */
  ghost predicate Primed(prog: Program, s: State)
    requires prog.size + PADDING == |prog.code|
  {
    forall q :: PushBefore(prog.code, prog.size, q, s.pc) && s.pc < |prog.code| && prog.code[s.pc] != JUMPDEST ==>
      s.stack != [] && s.stack[0] == PushValue(prog.code, q)
  }

  /** A rewritten jump is reached only from the push before it. */
  lemma PrimedStep(env: Env, prog: Program, s: State)
    requires env.Valid() && Prepared(prog) && Sound(prog, s)
    requires Step(env, prog, s).Next?
    ensures Primed(prog, Step(env, prog, s).state)
  {
    var t := Step(env, prog, s).state;
    forall q | PushBefore(prog.code, prog.size, q, t.pc) && t.pc < |prog.code| && prog.code[t.pc] != JUMPDEST
      ensures t.stack != [] && t.stack[0] == PushValue(prog.code, q)
    {
      PushBeforeUnique(prog.code, prog.size, t.pc, q, s.pc);
    }
  }

  /** The rewritten form of a prepared program. */
  ghost predicate Rewritten(prog: Program, new': Program, end: nat)
  {
    Prepared(prog) && new'.size == prog.size && new'.dests == prog.dests && end >= prog.size &&
    RewrittenUpTo(prog.code, prog.size, prog.dests, new'.code, new'.pool, end)
  }

  /** The bytes of a push in the rewritten code: as they were up to five, and else an opcode of its own,
      the number of the constant in two bytes, the higher first, and how many bytes of it are left. */
  lemma RewrittenPush(prog: Program, new': Program, end: nat, p: nat, n: nat)
    requires Rewritten(prog, new', end) && p < prog.size && Start(prog.code, prog.size, p)
    requires 1 <= n <= 32 && prog.code[p] == 0x60 + n - 1
    ensures |new'.code| == |prog.code|
    ensures n <= 5 ==> forall q :: p <= q <= p + n ==> new'.code[q] == prog.code[q]
    ensures n > 5 ==>
      var w := WideBefore(prog.code, prog.size, 0, p);
      w < |new'.pool| && new'.pool[w] == PushValue(prog.code, p) &&
      new'.code[p] == 0xac && new'.code[p + 1] == w / 256 % 256 && new'.code[p + 2] == w % 256 && new'.code[p + 3] == n - 2
  {
    StartsEnd(prog, new', end, p);
    if n <= 5 {
      NarrowPushKept(prog, new', end, p);
    } else {
      assert PushDone(prog.code, prog.size, new'.code, new'.pool, p);
      var w, high, low := WideBefore(prog.code, prog.size, 0, p), new'.code[p + 1], new'.code[p + 2];
      TwoBytes(w, high, low);
    }
  }

  lemma TwoBytes(w: nat, high: Byte, low: Byte)
    requires high * 256 + low == w % 0x1_0000
    ensures high == w / 256 % 256 && low == w % 256
  {
  }

  /** A jump has an opcode of its own in the rewritten code exactly when the instruction before it pushes a
      destination. */
  lemma RewrittenJump(prog: Program, new': Program, end: nat, p: nat)
    requires Rewritten(prog, new', end) && p < prog.size && Start(prog.code, prog.size, p) && prog.size <= 0x8000_0000_0000_0000
    requires prog.code[p] == 0x56 || prog.code[p] == 0x57
    ensures |new'.code| == |prog.code|
    ensures var constant := exists q :: PushBefore(prog.code, prog.size, q, p) && IsDestination(prog, PushValue(prog.code, q));
      new'.code[p] == if constant then (if prog.code[p] == 0x56 then 0xad else 0xae) else prog.code[p]
  {
    StartsEnd(prog, new', end, p);
    forall q | PushBefore(prog.code, prog.size, q, p)
      ensures IsDestination(prog, PushValue(prog.code, q)) == Verified(prog.dests, PushValue(prog.code, q))
    {
      VerifiedExactly(prog, PushValue(prog.code, q));
    }
  }

  /** Every constant is the one its 16-bit offset names. */
  ghost predicate PoolFits(pool: seq<Word>)
  {
    forall j :: 0 <= j < |pool| ==> pool[j] == pool[j % 0x1_0000]
  }

  /** The constants of the wide pushes of a code, in order. */
  function WideConstants(code: seq<Byte>, size: nat, a: nat): seq<Word>
    requires size + PADDING == |code|
    decreases |code| - a
  {
    if a >= size then []
    else (if Wide(code[a]) then [PushValue(code, a)] else []) + WideConstants(code, size, a + 1 + Pushed(code[a]))
  }

  /** The condition under which the rewriting is exact, on the code before it. */
  ghost predicate Fits(prog: Program)
  {
    prog.size + PADDING == |prog.code| && PoolFits(WideConstants(prog.code, prog.size, 0))
  }

  /** The constant of the wide push at p is the one its 16-bit offset names. */
  ghost predicate FitsAt(prog: Program, p: nat)
    requires prog.size + PADDING == |prog.code| && p < prog.size
  {
    var w, k := WideConstants(prog.code, prog.size, 0), WideBefore(prog.code, prog.size, 0, p);
    k < |w| && w[k % 0x1_0000] == PushValue(prog.code, p)
  }

  lemma FittingPush(prog: Program, p: nat)
    requires Fits(prog) && p < prog.size && Start(prog.code, prog.size, p) && Wide(prog.code[p])
    ensures FitsAt(prog, p)
  {
    ConstantAt(prog.code, prog.size, 0, p);
  }

  lemma {:induction false} ConstantAt(code: seq<Byte>, size: nat, a: nat, p: nat)
    requires size + PADDING == |code| && Leads(code, size, a, p) && p < size && Wide(code[p])
    ensures WideBefore(code, size, a, p) < |WideConstants(code, size, a)|
    ensures WideConstants(code, size, a)[WideBefore(code, size, a, p)] == PushValue(code, p)
    decreases p - a
  {
    if a < p {
      var b := a + 1 + Pushed(code[a]);
      ConstantAt(code, size, b, p);
      var first := if Wide(code[a]) then [PushValue(code, a)] else [];
      assert WideConstants(code, size, a) == first + WideConstants(code, size, b);
      assert WideBefore(code, size, a, p) == |first| + WideBefore(code, size, b, p);
    }
  }

  lemma {:induction false} ConstantsCount(code: seq<Byte>, size: nat, a: nat, end: nat)
    requires size + PADDING == |code| && Leads(code, size, a, end) && end >= size
    ensures |WideConstants(code, size, a)| == WideBefore(code, size, a, end)
    decreases end - a
  {
    if a < end { ConstantsCount(code, size, a + 1 + Pushed(code[a]), end); }
  }

  /** The pool that the pass fills holds the constants of the wide pushes. */
  lemma PoolIsConstants(prog: Program, new': Program, end: nat)
    requires Rewritten(prog, new', end)
    ensures new'.pool == WideConstants(prog.code, prog.size, 0)
  {
    var c, size := prog.code, prog.size;
    ConstantsCount(c, size, 0, end);
    forall j | 0 <= j < |new'.pool| ensures new'.pool[j] == WideConstants(c, size, 0)[j] {
      var p := PoolEntryHasPush(c, size, 0, end, j);
      ConstantAt(c, size, 0, p);
      StartsEnd(prog, new', end, p);
      assert PushDone(c, size, new'.code, new'.pool, p);
    }
  }

  lemma StartsEnd(prog: Program, new': Program, end: nat, p: nat)
    requires Rewritten(prog, new', end) && Start(prog.code, prog.size, p)
    ensures p <= end && (p < prog.size ==> p < end)
  {
    if end < p { LeadsPast(prog.code, prog.size, 0, end, p); }
  }

  /** A narrow push is as it was. */
  lemma NarrowPushAgrees(env: Env, prog: Program, new': Program, end: nat, s: State)
    requires env.Valid() && Rewritten(prog, new', end) && Sound(prog, s)
    requires s.pc < prog.size && IsPush(prog.code[s.pc]) && !Wide(prog.code[s.pc])
    ensures Step(env, new', s) == Step(env, prog, s)
  {
    NarrowPushKept(prog, new', end, s.pc);
    SamePush(prog.code, new'.code, s.pc);
  }

  lemma NarrowPushKept(prog: Program, new': Program, end: nat, p: nat)
    requires Rewritten(prog, new', end) && Start(prog.code, prog.size, p)
    requires p < prog.size && IsPush(prog.code[p]) && !Wide(prog.code[p])
    ensures |new'.code| == |prog.code|
    ensures forall q :: p <= q < p + 1 + Pushed(prog.code[p]) ==> new'.code[q] == prog.code[q]
  {
    var c, d, n := prog.code, new'.code, Pushed(prog.code[p]);
    StartsEnd(prog, new', end, p);
    assert PushDone(c, prog.size, d, new'.pool, p);
    forall q | p <= q < p + 1 + n ensures d[q] == c[q] {
      assert d[p..p + 1 + n][q - p] == c[p..p + 1 + n][q - p];
    }
  }

  lemma SamePush(c: seq<Byte>, d: seq<Byte>, p: nat)
    requires |c| == |d| && p + PADDING <= |c| && forall q :: p <= q < p + 1 + Pushed(c[p]) ==> d[q] == c[q]
    ensures d[p] == c[p] && PushValue(d, p) == PushValue(c, p)
  {
    SameConstant(c, d, p + 1, Pushed(c[p]));
  }

  /** A wide push puts the pool entry its offset names on the stack. */
  lemma WidePushSteps(env: Env, prog: Program, new': Program, end: nat, s: State)
    requires env.Valid() && Rewritten(prog, new', end) && Sound(prog, s)
    requires s.pc < prog.size && Wide(prog.code[s.pc])
    ensures WideBefore(prog.code, prog.size, 0, s.pc) < |new'.pool|
    ensures var w := WideBefore(prog.code, prog.size, 0, s.pc);
      new'.pool[w] == PushValue(prog.code, s.pc) &&
      Step(env, new', s) ==
        if |s.stack| >= STACK_LIMIT then StackOverflow
        else Pay(s, env.cost(PUSH1), s.pc + 1 + Pushed(prog.code[s.pc]), [new'.pool[w % 0x1_0000]] + s.stack)
    ensures Step(env, prog, s) ==
      if |s.stack| >= STACK_LIMIT then StackOverflow
      else Pay(s, env.cost(PUSH1), s.pc + 1 + Pushed(prog.code[s.pc]), [PushValue(prog.code, s.pc)] + s.stack)
  {
    StartsEnd(prog, new', end, s.pc);
    assert PushDone(prog.code, prog.size, new'.code, new'.pool, s.pc);
  }

  /** Any other instruction. */
  lemma OtherAgrees(env: Env, prog: Program, new': Program, end: nat, s: State)
    requires env.Valid() && Rewritten(prog, new', end) && Sound(prog, s) && Primed(prog, s)
    requires !IsPush(prog.code[s.pc])
    ensures Step(env, new', s) == Step(env, prog, s)
  {
    var c, p := prog.code, s.pc;
    StartsEnd(prog, new', end, p);
    assert new'.code[p] == RewrittenOp(c, prog.size, prog.dests, p);
    if new'.code[p] != c[p] {
      var q :| PushBefore(c, prog.size, q, p) && Verified(prog.dests, PushValue(c, q));
      assert s.stack[0] == PushValue(c, q);
    }
  }

  /** The state is at a wide push that goes through and whose constant does not fit. */
  ghost predicate Mispushes(env: Env, prog: Program, s: State)
    requires prog.size + PADDING == |prog.code|
  {
    s.pc < prog.size && Wide(prog.code[s.pc]) && !FitsAt(prog, s.pc) && Step(env, prog, s).Next?
  }

  /** Anywhere else both programs make the same step. */
  lemma StepAgreesHere(env: Env, prog: Program, new': Program, end: nat, s: State)
    requires env.Valid() && Rewritten(prog, new', end) && Sound(prog, s) && Primed(prog, s)
    requires !Mispushes(env, prog, s)
    ensures Step(env, new', s) == Step(env, prog, s)
  {
    if s.pc >= prog.size || !IsPush(prog.code[s.pc]) {
      OtherAgrees(env, prog, new', end, s);
    } else if Wide(prog.code[s.pc]) {
      PoolIsConstants(prog, new', end);
      WidePushSteps(env, prog, new', end, s);
    } else {
      NarrowPushAgrees(env, prog, new', end, s);
    }
  }

  lemma StepAgrees(env: Env, prog: Program, new': Program, end: nat, s: State)
    requires env.Valid() && Rewritten(prog, new', end) && Sound(prog, s) && Primed(prog, s) && Fits(prog)
    ensures Step(env, new', s) == Step(env, prog, s)
  {
    if s.pc < prog.size && Wide(prog.code[s.pc]) { FittingPush(prog, s.pc); }
    StepAgreesHere(env, prog, new', end, s);
  }

  /** There the rewritten program pushes another constant. */
  lemma MispushDiffers(env: Env, prog: Program, new': Program, end: nat, s: State)
    requires env.Valid() && Rewritten(prog, new', end) && Sound(prog, s) && Mispushes(env, prog, s)
    ensures Step(env, new', s) != Step(env, prog, s)
  {
    PoolIsConstants(prog, new', end);
    WidePushSteps(env, prog, new', end, s);
    var x, y := Step(env, new', s).state, Step(env, prog, s).state;
    assert x.stack[0] != y.stack[0];
  }

  /** After n rounds the original program is at such a push. */
  ghost predicate ComesToMispush(env: Env, prog: Program, s: State, n: nat)
    requires prog.size + PADDING == |prog.code|
  {
    Run(env, prog, s, n).Next? && Mispushes(env, prog, Run(env, prog, s, n).state)
  }

  lemma {:induction false} RunStaysPrimed(env: Env, prog: Program, s: State, n: nat)
    requires env.Valid() && Prepared(prog) && Sound(prog, s) && Primed(prog, s)
    ensures Run(env, prog, s, n).Next? ==> Primed(prog, Run(env, prog, s, n).state)
    decreases n
  {
    if n > 0 && Step(env, prog, s).Next? {
      SoundStep(env, prog, s);
      PrimedStep(env, prog, s);
      RunStaysPrimed(env, prog, Step(env, prog, s).state, n - 1);
    }
  }

  lemma {:induction false} RunSnoc(env: Env, prog: Program, s: State, n: nat)
    requires Run(env, prog, s, n).Next?
    ensures Run(env, prog, s, n + 1) == Step(env, prog, Run(env, prog, s, n).state)
    decreases n
  {
    if n > 0 { RunSnoc(env, prog, Step(env, prog, s).state, n - 1); }
  }

  lemma {:induction false} RunEnded(env: Env, prog: Program, s: State, n: nat)
    requires !Run(env, prog, s, n).Next?
    ensures Run(env, prog, s, n + 1) == Run(env, prog, s, n)
    decreases n
  {
    if Step(env, prog, s).Next? { RunEnded(env, prog, Step(env, prog, s).state, n - 1); }
  }

  ghost predicate SameAfter(env: Env, prog: Program, new': Program, s: State, n: nat)
  {
    Run(env, new', s, n) == Run(env, prog, s, n)
  }

  lemma NextRoundAgrees(env: Env, prog: Program, new': Program, end: nat, s: State, n: nat)
    requires env.Valid() && Rewritten(prog, new', end) && Sound(prog, s) && Primed(prog, s)
    requires !ComesToMispush(env, prog, s, n) && SameAfter(env, prog, new', s, n)
    ensures SameAfter(env, prog, new', s, n + 1)
  {
    if Run(env, prog, s, n).Next? {
      RunStaysSound(env, prog, s, n);
      RunStaysPrimed(env, prog, s, n);
      StepAgreesHere(env, prog, new', end, Run(env, prog, s, n).state);
      RunSnoc(env, prog, s, n);
      RunSnoc(env, new', s, n);
    } else {
      RunEnded(env, prog, s, n);
      RunEnded(env, new', s, n);
    }
  }

  lemma {:induction false} SameRounds(env: Env, prog: Program, new': Program, s: State, n: nat)
    requires forall m: nat :: m < n && SameAfter(env, prog, new', s, m) ==> SameAfter(env, prog, new', s, m + 1)
    ensures SameAfter(env, prog, new', s, n)
    decreases n
  {
    if n > 0 { SameRounds(env, prog, new', s, n - 1); }
  }

  lemma RunAgreesUntil(env: Env, prog: Program, new': Program, end: nat, s: State, n: nat)
    requires env.Valid() && Rewritten(prog, new', end) && Sound(prog, s) && Primed(prog, s)
    requires forall m: nat :: m < n ==> !ComesToMispush(env, prog, s, m)
    ensures SameAfter(env, prog, new', s, n)
  {
    forall m: nat | m < n && SameAfter(env, prog, new', s, m) ensures SameAfter(env, prog, new', s, m + 1) {
      NextRoundAgrees(env, prog, new', end, s, m);
    }
    SameRounds(env, prog, new', s, n);
  }

  lemma RunDiffersAfter(env: Env, prog: Program, new': Program, end: nat, s: State, n: nat)
    requires env.Valid() && Rewritten(prog, new', end) && Sound(prog, s)
    requires ComesToMispush(env, prog, s, n) && SameAfter(env, prog, new', s, n)
    ensures !SameAfter(env, prog, new', s, n + 1)
  {
    RunStaysSound(env, prog, s, n);
    RunSnoc(env, prog, s, n);
    RunSnoc(env, new', s, n);
    MispushDiffers(env, prog, new', end, Run(env, prog, s, n).state);
  }

  /** Both programs are in the same state after every number of rounds, or have ended in the same way,
      exactly when the original program never comes to a wide push whose constant does not fit. */
  lemma RunsAgreeIff(env: Env, prog: Program, new': Program, end: nat, s: State)
    requires env.Valid() && Rewritten(prog, new', end) && Sound(prog, s) && Primed(prog, s)
    ensures (forall n: nat :: SameAfter(env, prog, new', s, n)) <==> (forall n: nat :: !ComesToMispush(env, prog, s, n))
  {
    if n: nat :| ComesToMispush(env, prog, s, n) {
      if SameAfter(env, prog, new', s, n) {
        RunDiffersAfter(env, prog, new', end, s, n);
      }
    } else {
      forall n: nat ensures SameAfter(env, prog, new', s, n) { RunAgreesUntil(env, prog, new', end, s, n); }
    }
  }

  /** From any sound state, in particular the initial one, a code that fits runs as before. */
  lemma RunAgrees(env: Env, prog: Program, new': Program, end: nat, s: State, n: nat)
    requires env.Valid() && Rewritten(prog, new', end) && Sound(prog, s) && Primed(prog, s) && Fits(prog)
    ensures Run(env, new', s, n) == Run(env, prog, s, n)
  {
    forall m: nat ensures !ComesToMispush(env, prog, s, m) {
      if ComesToMispush(env, prog, s, m) {
        RunStaysSound(env, prog, s, m);
        FittingPush(prog, Run(env, prog, s, m).state.pc);
      }
    }
    RunAgreesUntil(env, prog, new', end, s, n);
  }

  lemma EntryIsSound(prog: Program, gas: nat, rest: Rest)
    requires Prepared(prog)
    ensures Sound(prog, State(0, [], gas, rest)) && Primed(prog, State(0, [], gas, rest))
  {
  }

  /** From the entry on: the rewritten code runs as the original, and no read is out of bounds. */
  lemma EntryRunAgrees(env: Env, prog: Program, new': Program, end: nat, gas: nat, rest: Rest, n: nat)
    requires env.Valid() && Rewritten(prog, new', end) && Fits(prog)
    ensures Run(env, new', State(0, [], gas, rest), n) == Run(env, prog, State(0, [], gas, rest), n)
    ensures !Run(env, new', State(0, [], gas, rest), n).Crash?
  {
    EntryIsSound(prog, gas, rest);
    RunAgrees(env, prog, new', end, State(0, [], gas, rest), n);
    RunStaysSound(env, prog, State(0, [], gas, rest), n);
  }

  /** Up to 65536 wide pushes every offset is exact. */
  lemma SmallCodeFits(prog: Program)
    requires prog.size + PADDING == |prog.code| && |WideConstants(prog.code, prog.size, 0)| <= 0x1_0000
    ensures Fits(prog)
  {
  }

  /** Every pool entry comes from a wide push. */
  lemma {:induction false} PoolEntryHasPush(code: seq<Byte>, size: nat, a: nat, end: nat, j: nat) returns (p: nat)
    requires size + PADDING == |code| && Leads(code, size, a, end) && j < WideBefore(code, size, a, end)
    ensures p < size && Leads(code, size, a, p) && Wide(code[p]) && WideBefore(code, size, a, p) == j
    decreases end - a
  {
    if Wide(code[a]) && j == 0 {
      p := a;
    } else {
      p := PoolEntryHasPush(code, size, a + 1 + Pushed(code[a]), end, if Wide(code[a]) then j - 1 else j);
    }
  }

  /** The rewriting keeps the meaning of every instruction exactly when the constant of every wide push
      is the one its 16-bit offset names. */
  lemma AgreesIffFits(env: Env, prog: Program, new': Program, end: nat, rest: Rest)
    requires env.Valid() && Rewritten(prog, new', end)
    ensures Fits(prog) <==>
      forall s :: Sound(prog, s) && Primed(prog, s) ==> Step(env, new', s) == Step(env, prog, s)
  {
    if Fits(prog) {
      forall s | Sound(prog, s) && Primed(prog, s) ensures Step(env, new', s) == Step(env, prog, s) {
        StepAgrees(env, prog, new', end, s);
      }
    } else {
      var s := MisfitState(env, prog, new', end, rest);
      assert Step(env, new', s) != Step(env, prog, s);
    }
  }

  /** At a push whose constant does not fit, the rewritten program pushes another one. */
  lemma MisfitState(env: Env, prog: Program, new': Program, end: nat, rest: Rest) returns (s: State)
    requires env.Valid() && Rewritten(prog, new', end) && !Fits(prog)
    ensures Sound(prog, s) && Primed(prog, s) && Step(env, new', s) != Step(env, prog, s)
  {
    PoolIsConstants(prog, new', end);
    var j: nat :| j < |new'.pool| && new'.pool[j] != new'.pool[j % 0x1_0000];
    var p := PoolEntryHasPush(prog.code, prog.size, 0, end, j);
    s := PrimedState(env, prog, p, rest);
    WidePushSteps(env, prog, new', end, s);
    var x, y := Step(env, new', s).state, Step(env, prog, s).state;
    assert x.stack[0] != y.stack[0];
  }

  /** A sound and primed state at an instruction start with gas for a push. */
  lemma PrimedState(env: Env, prog: Program, p: nat, rest: Rest) returns (s: State)
    requires Prepared(prog) && p < prog.size && Start(prog.code, prog.size, p)
    ensures s.pc == p && Sound(prog, s) && Primed(prog, s) && s.gas == env.cost(PUSH1) && |s.stack| <= 1
  {
    s := State(p, [], env.cost(PUSH1), rest);
    if q :| PushBefore(prog.code, prog.size, q, p) {
      s := State(p, [PushValue(prog.code, q)], env.cost(PUSH1), rest);
      forall r | PushBefore(prog.code, prog.size, r, p) ensures r == q {
        PushBeforeUnique(prog.code, prog.size, p, q, r);
      }
    }
  }

  // ---- A code that does not fit -----------------------------------------------------------------------

  const PUSH3: Byte := 0x62
  const PUSH6: Byte := 0x65

  /** So many six-byte pushes of zero. */
  function ZeroPushes(n: nat): (c: seq<Byte>)
    ensures |c| == 7 * n
  {
    if n == 0 then [] else ZeroPushes(n - 1) + [PUSH6, 0, 0, 0, 0, 0, 0]
  }

  /** A jump over so many pushes of zero, and behind them a push of one. */
  function Detour(n: nat): (c: seq<Byte>)
    ensures |c| == 7 * n + 13
  {
    [PUSH3, 7, 0, 5, JUMP] + ZeroPushes(n) + [JUMPDEST, PUSH6, 0, 0, 0, 0, 0, 1]
  }

  lemma {:induction false} ZeroPushAt(n: nat, i: nat)
    requires i < n
    ensures ZeroPushes(n)[7 * i] == PUSH6
    ensures forall q :: 7 * i < q < 7 * i + 7 ==> ZeroPushes(n)[q] == 0
  {
    if i < n - 1 { ZeroPushAt(n - 1, i); }
  }

  lemma {:induction false} NoSynthetic(n: nat, q: nat)
    requires q < 7 * n
    ensures !IsSynthetic(ZeroPushes(n)[q])
  {
    if q < 7 * (n - 1) { NoSynthetic(n - 1, q); }
  }

  lemma {:induction false} ZeroConstant(code: seq<Byte>, p: nat, n: nat)
    requires p + n <= |code| && forall q :: p <= q < p + n ==> code[q] == 0
    ensures Constant(code, p, n) == 0
    decreases n
  {
    if n > 0 { ZeroConstant(code, p, n - 1); }
  }

  /** A six-byte push of v. */
  ghost predicate SixPush(c: seq<Byte>, p: nat, v: nat)
  {
    p + PADDING <= |c| && c[p] == PUSH6 && PushValue(c, p) == v
  }

  ghost predicate SkippedPush(c: seq<Byte>, i: nat)
  {
    SixPush(c, 7 * i + 5, 0)
  }

  ghost predicate DetourShape(c: seq<Byte>, n: nat)
  {
    |c| == 7 * n + 13 + PADDING && c[0] == PUSH3 && PushValue(c, 0) == 7 * n + 5 && c[4] == JUMP &&
    (forall i: nat :: i < n ==> SkippedPush(c, i)) &&
    c[7 * n + 5] == JUMPDEST && SixPush(c, 7 * n + 6, 1)
  }

  lemma DetourIsShaped(n: nat, c: seq<Byte>)
    requires n == 0x1_0000 && c == Detour(n) + Zeros(PADDING)
    ensures DetourShape(c, n)
  {
    DetourTarget(c);
    forall i: nat | i < n ensures SkippedPush(c, i) { DetourPush(n, c, i); }
    ZeroConstant(c, 7 * n + 7, 5);
  }

  lemma DetourPush(n: nat, c: seq<Byte>, i: nat)
    requires i < n && c == Detour(n) + Zeros(PADDING)
    ensures SkippedPush(c, i)
  {
    ZeroPushAt(n, i);
    forall q | 7 * i <= q < 7 * i + 7 ensures c[q + 5] == ZeroPushes(n)[q] { }
    assert c[7 * i + 5] == PUSH6;
    forall q | 7 * i + 6 <= q < 7 * i + 12 ensures c[q] == 0 { assert c[q - 5 + 5] == ZeroPushes(n)[q - 5]; }
    ZeroConstant(c, 7 * i + 6, 6);
  }

  lemma DetourTarget(c: seq<Byte>)
    requires |c| > PADDING && c[0] == PUSH3 && c[1] == 7 && c[2] == 0 && c[3] == 5
    ensures PushValue(c, 0) == 0x7_0005
  {
    assert Constant(c, 1, 1) == 7;
    assert Constant(c, 1, 2) == 7 * 256;
  }

  /** The starts before the jump destination. */
  lemma {:induction false} DetourWalk(c: seq<Byte>, n: nat, i: nat)
    requires DetourShape(c, n) && i <= n
    ensures Start(c, 7 * n + 13, 7 * i + 5) && WideBefore(c, 7 * n + 13, 0, 7 * i + 5) == i
    decreases i
  {
    var size := 7 * n + 13;
    if i == 0 {
      LeadsStep(c, size, 0, 0);
      LeadsStep(c, size, 0, 4);
      WideStep(c, size, 0, 0);
      WideStep(c, size, 0, 4);
    } else {
      DetourWalk(c, n, i - 1);
      assert SkippedPush(c, i - 1);
      LeadsStep(c, size, 0, 7 * i - 2);
      WideStep(c, size, 0, 7 * i - 2);
    }
  }

  lemma DetourMisfits(prog: Program, n: nat)
    requires n == 0x1_0000 && prog.size == 7 * n + 13 && DetourShape(prog.code, n)
    ensures Start(prog.code, prog.size, 7 * n + 5) && Start(prog.code, prog.size, 7 * n + 6)
    ensures Wide(prog.code[7 * n + 6]) && !FitsAt(prog, 7 * n + 6)
  {
    var c, size, p := prog.code, prog.size, 7 * n + 5;
    DetourWalk(c, n, 0);
    DetourWalk(c, n, n);
    assert SkippedPush(c, 0);
    LeadsStep(c, size, 0, p);
    WideStep(c, size, 0, p);
    ConstantAt(c, size, 0, 5);
    assert n % 0x1_0000 == 0;
    assert WideConstants(c, size, 0)[0] == 0;
  }

  /** JUMPDEST does nothing and costs one unit of gas. */
  ghost predicate PlainJumpDest(env: Env)
  {
    env.required(JUMPDEST) == 0 && env.change(JUMPDEST) == 0 &&
    forall pc, stack, gas, rest :: gas >= 1 ==> env.other(JUMPDEST, pc, stack, gas, rest) == Go([], gas - 1, rest)
  }

  /** The original program jumps over the pushes and comes to the last one. */
  lemma DetourRun(env: Env, prog: Program, n: nat, gas: nat, rest: Rest)
    requires env.Valid() && PlainJumpDest(env) && gas >= 2 * env.cost(PUSH1) + env.cost(JUMP) + 1
    requires n == 0x1_0000 && Prepared(prog) && prog.size == 7 * n + 13 && DetourShape(prog.code, n)
    ensures var s := State(0, [], gas, rest);
      !ComesToMispush(env, prog, s, 0) && !ComesToMispush(env, prog, s, 1) && !ComesToMispush(env, prog, s, 2) &&
      ComesToMispush(env, prog, s, 3)
  {
    var c, p, g := prog.code, 7 * n + 5, gas - env.cost(PUSH1);
    var s, t := State(0, [], gas, rest), State(4, [p], g, rest);
    var u, v := State(p, [], g - env.cost(JUMP), rest), State(p + 1, [], g - env.cost(JUMP) - 1, rest);
    DetourMisfits(prog, n);
    assert Step(env, prog, s) == Next(t);
    assert Step(env, prog, t) == Next(u) by { VerifiedExactly(prog, p); }
    assert Step(env, prog, u) == Next(v);
    assert Step(env, prog, v).Next?;
    ThreeRounds(env, prog, s, t, u, v);
  }

  lemma ThreeRounds(env: Env, prog: Program, s: State, t: State, u: State, v: State)
    requires Step(env, prog, s) == Next(t) && Step(env, prog, t) == Next(u) && Step(env, prog, u) == Next(v)
    ensures Run(env, prog, s, 0) == Next(s) && Run(env, prog, s, 1) == Next(t)
    ensures Run(env, prog, s, 2) == Next(u) && Run(env, prog, s, 3) == Next(v)
  {
    RunSnoc(env, prog, s, 0);
    RunSnoc(env, prog, s, 1);
    RunSnoc(env, prog, s, 2);
  }

  /** Its rewritten form runs with it for three rounds and differs after the fourth. */
  lemma DetourDiffers(env: Env, prog: Program, new': Program, end: nat, n: nat, gas: nat, rest: Rest)
    requires env.Valid() && PlainJumpDest(env) && gas >= 2 * env.cost(PUSH1) + env.cost(JUMP) + 1
    requires n == 0x1_0000 && prog.code == Detour(n) + Zeros(PADDING) && Rewritten(prog, new', end)
    ensures Run(env, new', State(0, [], gas, rest), 3) == Run(env, prog, State(0, [], gas, rest), 3)
    ensures Run(env, new', State(0, [], gas, rest), 4) != Run(env, prog, State(0, [], gas, rest), 4)
  {
    var s := State(0, [], gas, rest);
    DetourIsShaped(n, prog.code);
    DetourRun(env, prog, n, gas, rest);
    EntryIsSound(prog, gas, rest);
    forall m: nat | m < 3 ensures !ComesToMispush(env, prog, s, m) { assert m == 0 || m == 1 || m == 2; }
    RunAgreesUntil(env, prog, new', end, s, 3);
    RunDiffersAfter(env, prog, new', end, s, 3);
  }

  /** The preparation makes such a pair of programs of that code. */
  method RewriteDetour(n: nat) returns (vm: Vm, ghost plain: Program, ghost end: nat)
    ensures fresh(vm) && Rewritten(plain, vm.Prog(), end)
    ensures plain.code == Detour(n) + Zeros(PADDING)
  {
    vm := new Vm(Detour(n));
    plain, end := vm.Optimize(true);
    NothingToClean(n, plain.code);
  }

  lemma NothingToClean(n: nat, c: seq<Byte>)
    requires Cleaned(Detour(n) + Zeros(PADDING), 7 * n + 13, c, 7 * n + 13)
    ensures c == Detour(n) + Zeros(PADDING)
  {
    var o := Detour(n) + Zeros(PADDING);
    forall q: nat | q < |o| ensures !IsSynthetic(o[q]) {
      if 5 <= q < 7 * n + 5 {
        NoSynthetic(n, q - 5);
        assert o[q] == ZeroPushes(n)[q - 5];
      }
    }
  }
}
