/** The expression machine of Gexpr.c (section 2.5 of DWARF v3), as a function of
    its state. */
module Expr {
  import opened Words
  import opened Leb128
  import opened Pointers

  const MAX_STACK: nat := 64

  /** The cursor's side: memory, register reads (through the DWARF-to-machine map),
      the register map itself, and the CFA. */
  datatype Env = Env(mem: Memory, readReg: Word -> Result<Word>, regMap: Word -> Word, cfa: Word)

  // ----- operands -----

  /** Operand types of the `operands` table. */
  datatype Operand = Val8 | Val16 | Val32 | Val64 | Uleb | Sleb | Offset

  /** The table; opcodes without an entry have no operands. */
  function Signature(op: Byte): (sig: seq<Operand>)
    ensures |sig| <= 2
  {
    match op
    case 0x03 => [Val64] // addr
    case 0x08 | 0x09 | 0x15 | 0x94 | 0x95 => [Val8] // const1u const1s pick deref_size xderef_size
    case 0x0a | 0x0b | 0x2f | 0x28 | 0x98 => [Val16] // const2u const2s skip bra call2
    case 0x0c | 0x0d | 0x99 => [Val32] // const4u const4s call4
    case 0x0e | 0x0f => [Val64] // const8u const8s
    case 0x23 | 0x90 | 0x93 => [Uleb] // plus_uconst regx piece
    case 0x91 => [Sleb] // fbreg
    case 0x92 => [Uleb, Sleb] // bregx
    case 0x9a => [Offset] // call_ref
    case _ => if 0x70 <= op <= 0x8f then [Sleb] else [] // breg0 to breg31
  }

  /** `read_operand`. */
  function ReadOperand(mem: Memory, addr: int, t: Operand): (r: Result<(Word, int)>)
    ensures r.Ok? ==> addr < r.value.1
  {
    match t
    case Val8 => Fixed(mem, addr, 1)
    case Val16 => Fixed(mem, addr, 2)
    case Val32 => Fixed(mem, addr, 4)
    case Val64 => Fixed(mem, addr, 8)
    case Uleb => ReadUleb(mem, addr)
    case Sleb => ReadSleb(mem, addr)
    case Offset => Err(Inval)
  }

  /** An operation and its operands; operands that the opcode does not have keep
      their previous values. */
  datatype Fetched = Fetched(op: Byte, op1: Word, op2: Word, next: int)

  function Fetch(mem: Memory, addr: int, op1: Word, op2: Word): (r: Result<Fetched>)
    ensures r.Ok? ==> addr < r.value.next
  {
    var op :- U8(mem, addr);
    var sig := Signature(op);
    if sig == [] then Ok(Fetched(op, op1, op2, addr + 1))
    else
      var (v1, a1) :- ReadOperand(mem, addr + 1, sig[0]);
      if |sig| == 1 then Ok(Fetched(op, v1, op2, a1))
      else
        var (v2, a2) :- ReadOperand(mem, a1, sig[1]);
        Ok(Fetched(op, v1, v2, a2))
  }

  // ----- arithmetic -----

  function Truth(b: bool): Word {
    if b then 1 else 0
  }

  /** C division: toward zero. */
  function Quotient(a: int, b: int): int
    requires b != 0
  {
    if (a >= 0) == (b > 0) then (if a < 0 then -a else a) / (if b < 0 then -b else b)
    else -((if a < 0 then -a else a) / (if b < 0 then -b else b))
  }

  /** Two popped operands, the top first. Division of the least number by -1 traps. */
  function Binary(op: Byte, top: Word, second: Word): Result<Word> {
    match op
    case 0x1a => Ok(BitOp(AndGate, top, second))
    case 0x1b =>
      if top == 0 then Ok(0)
      else if Signed(top) == -1 && Signed(second) == -TWO_63 then Err(Fault)
      else Ok(Wrap(Quotient(Signed(second), Signed(top))))
    case 0x1c => Ok(Wrap(second - top))
    case 0x1d => Ok(if top == 0 then 0 else second % top)
    case 0x1e => Ok(if top == 0 then 0 else Wrap(second * top))
    case 0x21 => Ok(BitOp(OrGate, top, second))
    case 0x22 => Ok(Wrap(top + second))
    case 0x24 => Ok(Shl(second, top))
    case 0x25 => Ok(Shr(second, top))
    case 0x26 => Ok(Wrap(Halve(Signed(second), top % 64)))
    case 0x27 => Ok(BitOp(XorGate, top, second))
    case 0x29 => Ok(Truth(Signed(top) == Signed(second)))
    case 0x2a => Ok(Truth(Signed(top) >= Signed(second)))
    case 0x2b => Ok(Truth(Signed(top) > Signed(second)))
    case 0x2c => Ok(Truth(Signed(top) <= Signed(second)))
    case 0x2d => Ok(Truth(Signed(top) < Signed(second)))
    case 0x2e => Ok(Truth(Signed(top) != Signed(second)))
    case _ => Err(Inval)
  }

  predicate IsBinary(op: Byte) {
    0x1a <= op <= 0x1e || 0x21 <= op <= 0x22 || 0x24 <= op <= 0x27 || 0x29 <= op <= 0x2e
  }

  /** Sign extension of an operand of `bits` bits, as const1s, const2s and const4s do it. */
  function ExtendConst(op: Byte, v: Word): Word {
    match op
    case 0x09 => if v / 0x80 % 2 == 1 then BitOp(OrGate, v, TWO_64 - TWO_8) else v
    case 0x0b => if v / 0x8000 % 2 == 1 then BitOp(OrGate, v, TWO_64 - TWO_16) else v
    case 0x0d => if v / 0x8000_0000 % 2 == 1 then BitOp(OrGate, v, TWO_64 - TWO_32) else v
    case _ => v
  }

  /** A 16-bit jump offset. */
  function JumpOffset(v: Word): int {
    SignExtend(v % TWO_16, 2)
  }

  /** `deref_size`: 5 to 7 bytes keep the high part of the word read. */
  function DerefSize(mem: Memory, addr: Word, size: Word): Result<Word> {
    match size
    case 1 => ReadUnsigned(mem, addr, 1)
    case 2 => ReadUnsigned(mem, addr, 2)
    case 3 =>
      var v :- ReadUnsigned(mem, addr, 4);
      Ok(v % 0x100_0000)
    case 4 => ReadUnsigned(mem, addr, 4)
    case 5 | 6 | 7 =>
      var v :- ReadUnsigned(mem, addr, 8);
      Ok(HighPart(v, size))
    case 8 => ReadUnsigned(mem, addr, 8)
    case _ => Err(Inval)
  }

  /** v & (~0 << 8 * size). */
  function HighPart(v: Word, size: nat): Word {
    BitOp(AndGate, v, Shl(ALL_ONES, 8 * size))
  }

  // ----- one step -----

  datatype State = State(addr: int, stack: seq<Word>, op1: Word, op2: Word)

  /** The value of an expression, and whether it names a register. */
  datatype Final = Final(value: Word, isRegister: bool)

  datatype Outcome = Running(s: State) | Halted(r: Result<Final>)

  function Push(s: State, v: Word): Outcome {
    if |s.stack| >= MAX_STACK then Halted(Err(Inval)) else Running(s.(stack := s.stack + [v]))
  }

  function Drop(s: State, n: nat): State
    requires n <= |s.stack|
  {
    s.(stack := s.stack[..|s.stack| - n])
  }

  /** The element `n` below the top. */
  function Top(s: State, n: nat): Word
    requires n < |s.stack|
  {
    s.stack[|s.stack| - 1 - n]
  }

  function PushResult(s: State, r: Result<Word>): Outcome {
    if r.Err? then Halted(Err(r.error)) else Push(s, r.value)
  }

  /** The effect of an operation, once its operands have been read. */
  function Exec(env: Env, op: Byte, s: State): Outcome {
    var n := |s.stack|;
    var bad := Halted(Err(Inval));
    if 0x30 <= op <= 0x4f then Push(s, op - 0x30) // lit
    else if 0x50 <= op <= 0x6f then Halted(Ok(Final(env.regMap(op - 0x50), true))) // reg
    else if 0x70 <= op <= 0x8f then // breg
      var r := env.readReg(op - 0x70);
      PushResult(s, if r.Err? then r else Ok(Wrap(r.value + s.op1)))
    else if IsBinary(op) then
      if n < 2 then bad else PushResult(Drop(s, 2), Binary(op, Top(s, 0), Top(s, 1)))
    else
      match op
      case 0x03 | 0x08 | 0x0a | 0x0c | 0x0e | 0x0f | 0x10 | 0x11 => Push(s, s.op1) // constants
      case 0x09 | 0x0b | 0x0d =>
        var v := ExtendConst(op, s.op1);
        Push(s.(op1 := v), v)
      case 0x06 => // deref
        if n < 1 then bad else PushResult(Drop(s, 1), ReadUnsigned(env.mem, Top(s, 0), 8))
      case 0x94 => // deref_size
        if n < 1 then bad else PushResult(Drop(s, 1), DerefSize(env.mem, Top(s, 0), s.op1))
      case 0x12 => if n >= MAX_STACK || n < 1 then bad else Push(s, Top(s, 0)) // dup
      case 0x13 => if n < 1 then bad else Running(Drop(s, 1)) // drop
      case 0x14 => if n >= MAX_STACK || n < 2 then bad else Push(s, Top(s, 1)) // over
      case 0x15 => if n >= MAX_STACK || n <= s.op1 then bad else Push(s, Top(s, s.op1)) // pick
      case 0x16 => // swap
        if n < 2 then bad else Running(s.(stack := s.stack[..n - 2] + [Top(s, 0), Top(s, 1)]))
      case 0x17 => // rot
        if n < 3 then bad else Running(s.(stack := s.stack[..n - 3] + [Top(s, 0), Top(s, 2), Top(s, 1)]))
      case 0x19 => // abs
        if n < 1 then bad
        else Push(Drop(s, 1), if Top(s, 0) >= TWO_63 then Wrap(0 - Top(s, 0)) else Top(s, 0))
      case 0x1f => // neg: the overflow check comes before the pop
        if n >= MAX_STACK || n < 1 then bad else Push(Drop(s, 1), Wrap(0 - Top(s, 0)))
      case 0x20 => // not
        if n >= MAX_STACK || n < 1 then bad else Push(Drop(s, 1), ALL_ONES - Top(s, 0))
      case 0x23 => // plus_uconst
        if n < 1 then bad else Push(Drop(s, 1), Wrap(Top(s, 0) + s.op1))
      case 0x2f => Running(s.(addr := s.addr + JumpOffset(s.op1))) // skip
      case 0x28 => // bra
        if n < 1 then bad
        else Running(Drop(s, 1).(addr := if Top(s, 0) != 0 then s.addr + JumpOffset(s.op1) else s.addr))
      case 0x90 => Halted(Ok(Final(env.regMap(s.op1), true))) // regx
      case 0x92 => // bregx
        var r := env.readReg(s.op1);
        PushResult(s, if r.Err? then r else Ok(Wrap(r.value + s.op2)))
      case 0x96 => Running(s) // nop
      case _ => bad
  }

  /** One iteration of the loop, or the final pop. */
  function Step(env: Env, end: int, s: State): Outcome {
    if s.addr >= end then
      if s.stack == [] then Halted(Err(Inval)) else Halted(Ok(Final(Top(s, 0), false)))
    else
      var f := Fetch(env.mem, s.addr, s.op1, s.op2);
      if f.Err? then Halted(Err(f.error))
      else Exec(env, f.value.op, State(f.value.next, s.stack, f.value.op1, f.value.op2))
  }

  /** At most `fuel` iterations. */
  function Run(env: Env, end: int, s: State, fuel: nat): Outcome
    decreases fuel
  {
    if fuel == 0 then Running(s)
    else
      var o := Step(env, end, s);
      if o.Halted? then o else Run(env, end, o.s, fuel - 1)
  }

  /** The CFA is pushed first. */
  function Start(env: Env, addr: int): State {
    State(addr, [env.cfa], 0, 0)
  }

  // ----- safety -----

  /** Every step keeps the stack within its 64 slots. */
  lemma StepBounded(env: Env, end: int, s: State)
    requires |s.stack| <= MAX_STACK
    ensures var o := Step(env, end, s); o.Running? ==> |o.s.stack| <= MAX_STACK
  {
    hide Fetch, Binary, DerefSize, ExtendConst, JumpOffset;
  }

  lemma {:induction false} RunBounded(env: Env, end: int, s: State, fuel: nat)
    requires |s.stack| <= MAX_STACK
    ensures var o := Run(env, end, s, fuel); o.Running? ==> |o.s.stack| <= MAX_STACK
    decreases fuel
  {
    hide Step;
    if fuel > 0 {
      StepBounded(env, end, s);
      if Step(env, end, s).Running? {
        RunBounded(env, end, Step(env, end, s).s, fuel - 1);
      }
    }
  }

  /** The jump instruction at an address, if there is one, does not go backward. */
  predicate ForwardAt(mem: Memory, addr: int) {
    var f := Fetch(mem, addr, 0, 0);
    f.Ok? && (f.value.op == 0x2f || f.value.op == 0x28) ==> JumpOffset(f.value.op1) >= 0
  }

  /** A step of a program without backward jumps moves forward. */
  lemma StepForward(env: Env, end: int, s: State)
    requires ForwardAt(env.mem, s.addr)
    ensures var o := Step(env, end, s); o.Running? ==> s.addr < o.s.addr && s.addr < end
  {
    hide Binary, DerefSize, ExtendConst, JumpOffset, ReadOperand;
  }

  /** Wherever the run from `s` executes an instruction, it does not jump backward. */
  ghost predicate ForwardRun(env: Env, end: int, s: State) {
    forall n: nat :: var o := Run(env, end, s, n); o.Running? && o.s.addr < end ==> ForwardAt(env.mem, o.s.addr)
  }

  lemma ForwardStep(env: Env, end: int, s: State)
    requires ForwardRun(env, end, s) && Step(env, end, s).Running?
    ensures ForwardRun(env, end, Step(env, end, s).s)
    ensures s.addr < end ==> ForwardAt(env.mem, s.addr)
  {
    hide Step, ForwardAt;
    var s' := Step(env, end, s).s;
    assert Run(env, end, s, 0) == Running(s);
    forall n: nat
      ensures Run(env, end, s', n) == Run(env, end, s, n + 1)
    {
    }
  }

  /** A run without backward jumps halts within as many iterations as it has bytes ahead,
      one more to deliver the result. */
  lemma {:induction false} ForwardHalts(env: Env, end: int, s: State, fuel: nat)
    requires ForwardRun(env, end, s)
    requires fuel > 0 && fuel > end - s.addr
    ensures Run(env, end, s, fuel).Halted?
    decreases fuel
  {
    hide Step, ForwardAt, ForwardRun;
    if s.addr >= end {
      EndHalts(env, end, s);
    } else if Step(env, end, s).Running? {
      ForwardStep(env, end, s);
      StepForward(env, end, s);
      ForwardHalts(env, end, Step(env, end, s).s, fuel - 1);
    }
  }

  lemma EndHalts(env: Env, end: int, s: State)
    requires s.addr >= end
    ensures Step(env, end, s).Halted?
  {
  }

  /** More fuel does not change a result. */
  lemma {:induction false} FuelMonotone(env: Env, end: int, s: State, n: nat, m: nat)
    requires n <= m && Run(env, end, s, n).Halted?
    ensures Run(env, end, s, m) == Run(env, end, s, n)
    decreases n
  {
    hide Step;
    if n > 0 && Step(env, end, s).Running? {
      FuelMonotone(env, end, Step(env, end, s).s, n - 1, m - 1);
    }
  }

  lemma {:induction false} RunSplit(env: Env, end: int, s: State, n: nat, m: nat)
    requires Run(env, end, s, n).Running?
    ensures Run(env, end, s, n + m) == Run(env, end, Run(env, end, s, n).s, m)
    decreases n
  {
    hide Step;
    if n > 0 {
      RunSplit(env, end, Step(env, end, s).s, n - 1, m);
    }
  }

  // ----- programs, seen without running them -----

  predicate IsJump(op: Byte) {
    op == 0x2f || op == 0x28
  }

  /** Where execution can go from the instruction at `addr`. */
  function Successors(mem: Memory, addr: int): set<int> {
    var f := Fetch(mem, addr, 0, 0);
    if f.Err? then {}
    else if IsJump(f.value.op) then {f.value.next, f.value.next + JumpOffset(f.value.op1)}
    else {f.value.next}
  }

  /** A set of instruction starts that execution does not leave before `end`. */
  ghost predicate Closed(mem: Memory, end: int, starts: set<int>) {
    forall a, b :: a in starts && a < end && b in Successors(mem, a) ==> b >= end || b in starts
  }

  /** Stale operands change neither what an instruction is nor where it ends. */
  lemma FetchStale(mem: Memory, addr: int, op1: Word, op2: Word)
    ensures var f, g := Fetch(mem, addr, op1, op2), Fetch(mem, addr, 0, 0);
            && (f.Ok? <==> g.Ok?)
            && (f.Ok? ==> f.value.op == g.value.op && f.value.next == g.value.next
                          && (IsJump(f.value.op) ==> f.value.op1 == g.value.op1))
  {
    hide ReadOperand;
  }

  lemma StepsToSuccessor(env: Env, end: int, s: State)
    requires s.addr < end && Step(env, end, s).Running?
    ensures Step(env, end, s).s.addr in Successors(env.mem, s.addr)
  {
    hide Fetch, Binary, DerefSize, ExtendConst, JumpOffset;
    FetchStale(env.mem, s.addr, s.op1, s.op2);
  }

  lemma {:induction false} StaysOnStarts(env: Env, end: int, starts: set<int>, s: State, n: nat)
    requires Closed(env.mem, end, starts) && (s.addr in starts || s.addr >= end)
    ensures var o := Run(env, end, s, n); o.Running? ==> o.s.addr in starts || o.s.addr >= end
    decreases n
  {
    hide Step, Successors;
    if n > 0 && Step(env, end, s).Running? {
      if s.addr >= end {
        EndHalts(env, end, s);
      } else {
        StepsToSuccessor(env, end, s);
      }
      StaysOnStarts(env, end, starts, Step(env, end, s).s, n - 1);
    }
  }

  /** A program none of whose instructions jumps backward halts from every start. What
      lies between the starts, operand bytes above all, does not matter. */
  lemma ForwardProgramHalts(env: Env, end: int, starts: set<int>, s: State, fuel: nat)
    requires Closed(env.mem, end, starts) && s.addr in starts
    requires forall a :: a in starts && a < end ==> ForwardAt(env.mem, a)
    requires fuel > 0 && fuel > end - s.addr
    ensures Run(env, end, s, fuel).Halted?
  {
    hide Step, ForwardAt, Closed, Run;
    forall n: nat
      ensures var o := Run(env, end, s, n); o.Running? && o.s.addr < end ==> ForwardAt(env.mem, o.s.addr)
    {
      StaysOnStarts(env, end, starts, s, n);
    }
    ForwardHalts(env, end, s, fuel);
  }

  /** The bytes from `addr` to `end` are instructions without jumps. */
  predicate JumpFree(mem: Memory, addr: int, end: int)
    decreases end - addr
  {
    addr == end ||
    (addr < end && var f := Fetch(mem, addr, 0, 0);
                   f.Ok? && !IsJump(f.value.op) && f.value.next <= end && JumpFree(mem, f.value.next, end))
  }

  /** How many instructions they are. */
  function Count(mem: Memory, addr: int, end: int): nat
    requires JumpFree(mem, addr, end)
    decreases end - addr
  {
    if addr == end then 0 else 1 + Count(mem, Fetch(mem, addr, 0, 0).value.next, end)
  }

  /** Jump-free programs compose: run in front of other code that ends at `end`, a
      jump-free block up to `mid` does what it does alone. If it stops alone, so does the
      whole; otherwise it arrives at `mid` and the rest runs from the state it left. */
  lemma {:induction false} Sequential(env: Env, mid: int, end: int, s: State, m: nat)
    requires JumpFree(env.mem, s.addr, mid) && mid <= end
    ensures var n := Count(env.mem, s.addr, mid);
            var o := Run(env, mid, s, n);
            if o.Running? then o.s.addr == mid && Run(env, end, s, n + m) == Run(env, end, o.s, m)
            else Run(env, end, s, n + m) == o
    decreases mid - s.addr
  {
    hide Step, Fetch;
    if s.addr < mid {
      SameStep(env, mid, end, s);
      var o := Step(env, mid, s);
      if o.Running? {
        StepsToSuccessor(env, mid, s);
        Sequential(env, mid, end, o.s, m);
      }
    }
  }

  lemma SameStep(env: Env, mid: int, end: int, s: State)
    requires s.addr < mid <= end
    ensures Step(env, mid, s) == Step(env, end, s)
  {
    hide Fetch, Exec;
  }

  /** A byte that looks like a jump is none when it is an operand: const4u 0x80002f. */
  lemma OperandIsNoJump(env: Env, s: State)
    requires env.mem == [0x0c, 0x2f, 0x00, 0x80, 0x00] && s.addr == 0
    ensures !ForwardAt(env.mem, 1) && JumpFree(env.mem, 0, 5)
  {
    var operand := env.mem[2..4];
    assert operand == [0x00, 0x80] && operand[1..] == [0x80] && operand[1..][1..] == [];
    assert LittleEndian(operand[1..]) == 0x80 + 0x100 * LittleEndian(operand[1..][1..]) == 0x80;
    assert LittleEndian(operand) == 0x8000;
    Scale8(TWO_8);
    ScaleTwice(1, 8, 7);
    ScaleTwice(1, 8, 8);
    Scale8(1);
    assert JumpOffset(0x8000) == -0x8000;
    assert Fetch(env.mem, 1, 0, 0) == Ok(Fetched(0x2f, 0x8000, 0, 4));
    assert env.mem[1..5] == [0x2f, 0x00, 0x80, 0x00];
    assert Fetch(env.mem, 0, 0, 0).Ok? && Fetch(env.mem, 0, 0, 0).value.next == 5;
  }
}
