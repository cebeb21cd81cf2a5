/** The operations of the expression machine that only move the stack about (section 2.5.1.3
    of DWARF v3), those that name registers, and those that it does not have. */
module ExprStack {
  import opened Words
  import opened Leb128
  import opened Expr
  import opened ExprCompiler

  const DUP: Byte := 0x12
  const DROP: Byte := 0x13
  const OVER: Byte := 0x14
  const PICK: Byte := 0x15
  const SWAP: Byte := 0x16
  const ROT: Byte := 0x17
  const NOP: Byte := 0x96
  const REGX: Byte := 0x90

  /** One step over `n` bytes leaves `stack`. */
  ghost predicate Leaves(env: Env, end: int, s: State, n: nat, stack: seq<Word>) {
    var o := Step(env, end, s);
    o.Running? && o.s.addr == s.addr + n && o.s.stack == stack
  }

  ghost predicate At(env: Env, end: int, s: State, op: Byte) {
    s.addr < end && Holds(env.mem, s.addr, [op])
  }

  lemma PlainStep(env: Env, end: int, s: State, op: Byte)
    requires At(env, end, s, op) && Signature(op) == []
    ensures Step(env, end, s) == Exec(env, op, s.(addr := s.addr + 1))
  {
    hide Signature, Holds, Fetch, Step, Exec;
    FetchPlain(env.mem, s.addr, op, s.op1, s.op2);
    StepExecutes(env, end, s);
  }

  /** How many values an operation works on. */
  function Arity(op: Byte): nat {
    if op == ROT then 3
    else if op == SWAP || op == OVER || IsBinary(op) then 2
    else if op in {DUP, DROP, 0x06, 0x19, 0x1f, 0x20} then 1
    else 0
  }

  predicate IsMove(op: Byte) {
    op in {DUP, DROP, OVER, SWAP, ROT, NOP}
  }

  /** What becomes of these values; the last is the top of the stack. */
  function Moved(op: Byte, top: seq<Word>): seq<Word>
    requires IsMove(op) && |top| == Arity(op)
  {
    if op == DUP then [top[0], top[0]]
    else if op == OVER then [top[0], top[1], top[0]]
    else if op == SWAP then [top[1], top[0]]
    else if op == ROT then [top[2], top[0], top[1]]
    else []
  }

  /** The operations without operands, on any values above any stack; copies need a slot. */
  lemma Moves(env: Env, end: int, s: State, op: Byte, base: seq<Word>, top: seq<Word>)
    requires At(env, end, s, op) && IsMove(op) && |top| == Arity(op) && s.stack == base + top
    requires |base| + |Moved(op, top)| <= MAX_STACK
    ensures Leaves(env, end, s, 1, base + Moved(op, top))
  {
    hide Step, Exec, At, Moved;
    PlainStep(env, end, s, op);
    MoveExec(env, s.(addr := s.addr + 1), op, base, top);
  }

  lemma MoveExec(env: Env, s: State, op: Byte, base: seq<Word>, top: seq<Word>)
    requires IsMove(op) && |top| == Arity(op) && s.stack == base + top && |base| + |Moved(op, top)| <= MAX_STACK
    ensures Exec(env, op, s) == Running(s.(stack := base + Moved(op, top)))
  {
    hide Binary, ExtendConst, JumpOffset, DerefSize;
    assert s.stack[..|s.stack| - Arity(op)] == base;
  }

  /** pick copies the value with that many above it. */
  lemma Picks(env: Env, end: int, s: State, base: seq<Word>, x: Word, above: seq<Word>)
    requires s.stack == base + [x] + above && |s.stack| < MAX_STACK && s.addr < end
    requires Holds(env.mem, s.addr, [PICK] + LittleBytes(|above|, 1))
    ensures Leaves(env, end, s, 2, base + [x] + above + [x])
  {
    hide Step, Holds, Fetch, Exec, LittleBytes, Pow2;
    ByteRange();
    FetchFixed(env.mem, s.addr, PICK, 1, |above|, s.op1, s.op2);
    StepExecutes(env, end, s);
    PickExec(env, State(s.addr + 2, s.stack, |above|, s.op2), base, x, above);
  }

  lemma ByteRange()
    ensures Pow2(8) == TWO_8
  {
    Scale8(1);
  }

  lemma PickExec(env: Env, s: State, base: seq<Word>, x: Word, above: seq<Word>)
    requires s.stack == base + [x] + above && |s.stack| < MAX_STACK && s.op1 == |above|
    ensures Exec(env, PICK, s) == Running(s.(stack := base + [x] + above + [x]))
  {
    hide Binary, ExtendConst, JumpOffset, DerefSize;
  }

  /** With too few values, or with no slot for a copy, the run ends. */
  lemma Refused(env: Env, end: int, s: State, op: Byte)
    requires At(env, end, s, op) && Arity(op) > 0
    requires |s.stack| < Arity(op) || (|s.stack| == MAX_STACK && op in {DUP, OVER})
    ensures Step(env, end, s) == Halted(Err(Inval))
  {
    hide Step, Holds, Binary, ExtendConst, JumpOffset, DerefSize;
    PlainStep(env, end, s, op);
  }

  /** Three rotations, or two exchanges, restore the stack. */
  lemma RotThrice(env: Env, end: int, s: State, base: seq<Word>, x: Word, y: Word, z: Word)
    requires s.stack == base + [x, y, z] && |s.stack| <= MAX_STACK && Holds(env.mem, s.addr, [ROT, ROT, ROT]) && s.addr + 3 <= end
    ensures var o := Run(env, end, s, 3); o.Running? && o.s.addr == s.addr + 3 && o.s.stack == s.stack
  {
    hide Step, Holds;
    Split3(env.mem, s.addr, ROT);
    Moves(env, end, s, ROT, base, [x, y, z]);
    var s1 := Step(env, end, s).s;
    Moves(env, end, s1, ROT, base, [z, x, y]);
    var s2 := Step(env, end, s1).s;
    Moves(env, end, s2, ROT, base, [y, z, x]);
    RunOne(env, end, s2);
    assert Run(env, end, s1, 2) == Run(env, end, s2, 1);
  }

  lemma Split3(mem: Memory, addr: int, op: Byte)
    requires Holds(mem, addr, [op, op, op])
    ensures Holds(mem, addr, [op]) && Holds(mem, addr + 1, [op]) && Holds(mem, addr + 2, [op])
  {
    assert [op, op, op] == [op] + ([op] + [op]);
    HoldsSplit(mem, addr, [op], [op] + [op]);
    HoldsSplit(mem, addr + 1, [op], [op]);
  }

  lemma SwapTwice(env: Env, end: int, s: State, base: seq<Word>, x: Word, y: Word)
    requires s.stack == base + [x, y] && |s.stack| <= MAX_STACK && Holds(env.mem, s.addr, [SWAP, SWAP]) && s.addr + 2 <= end
    ensures var o := Run(env, end, s, 2); o.Running? && o.s.addr == s.addr + 2 && o.s.stack == s.stack
  {
    hide Step, Holds;
    assert [SWAP, SWAP] == [SWAP] + [SWAP];
    HoldsSplit(env.mem, s.addr, [SWAP], [SWAP]);
    Moves(env, end, s, SWAP, base, [x, y]);
    var s1 := Step(env, end, s).s;
    Moves(env, end, s1, SWAP, base, [y, x]);
    RunOne(env, end, s1);
  }

  /** reg0 to reg31 and regx end the evaluation with a register, not with a value; what is on
      the stack does not matter. */
  lemma NamesRegister(env: Env, end: int, s: State, reg: Word, len: nat)
    requires s.addr < end && 0 < len <= 10 && reg < Pow2(7 * len)
    requires (reg < 32 && Holds(env.mem, s.addr, [0x50 + reg])) || Holds(env.mem, s.addr, [REGX] + EncodeLeb(reg, len))
    ensures Step(env, end, s) == Halted(Ok(Final(env.regMap(reg), true)))
  {
    hide Holds, Fetch, EncodeLeb, Pow2, Binary, ExtendConst, JumpOffset, DerefSize;
    if reg < 32 && Holds(env.mem, s.addr, [0x50 + reg]) {
      PlainStep(env, end, s, 0x50 + reg);
    } else {
      FetchUleb(env.mem, s.addr, REGX, reg, len, s.op1, s.op2);
    }
  }

  /** The opcodes that the machine executes. */
  predicate Known(op: Byte) {
    || 0x08 <= op <= 0x17 || 0x19 <= op <= 0x8f
    || op in {0x03, 0x06, 0x90, 0x92, 0x94, 0x96}
  }

  /** Any other ends the run: fbreg, piece, the calls, xderef, push_object_address and what
      is not assigned. */
  lemma Unknown(env: Env, end: int, s: State, op: Byte)
    requires s.addr < end && Fetch(env.mem, s.addr, s.op1, s.op2).Ok?
    requires op == Fetch(env.mem, s.addr, s.op1, s.op2).value.op && !Known(op)
    ensures Step(env, end, s) == Halted(Err(Inval))
  {
    hide Fetch, Binary, ExtendConst, JumpOffset, DerefSize;
  }
}
