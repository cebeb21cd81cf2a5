/** The expression machine as it runs: a 64-slot array, an unsigned stack pointer,
    and bounds tests that rely on unsigned wrap-around (`dwarf_eval_expr`). */
module ExprMachine {
  import opened Words
  import opened Expr

  type Exit = Option<Result<Final>>

  const FAILED: Exit := Some(Err(Inval))

  /** The locals of one call of `dwarf_eval_expr`. */
  class Evaluator {
    const stack: array<Word>
    var tos: nat // unsigned int
    var addr: int
    var operand1: Word
    var operand2: Word

    constructor (addr: int)
      ensures Valid() && fresh(stack) && Abs() == State(addr, [], 0, 0)
    {
      stack := new Word[MAX_STACK](_ => 0);
      tos, operand1, operand2 := 0, 0, 0;
      this.addr := addr;
    }

    ghost predicate Valid()
      reads this
    {
      stack.Length == MAX_STACK && tos <= MAX_STACK
    }

    ghost function Abs(): State
      reads this, stack
      requires Valid()
    {
      State(addr, stack[..tos], operand1, operand2)
    }

    /** The machine has exited with `h`, or goes on from `o`. */
    ghost predicate Matches(o: Outcome, h: Exit)
      reads this, stack
    {
      Valid() && if o.Running? then h.None? && Abs() == o.s else h == Some(o.r)
    }

    /** `pop`: the wrapped test fails exactly on an empty stack. */
    method Pop() returns (r: Result<Word>)
      requires Valid()
      modifies this`tos
      ensures Valid()
      ensures r.Ok? <==> old(tos) > 0
      ensures r.Ok? ==> Abs() == Drop(old(Abs()), 1) && r.value == Top(old(Abs()), 0)
      ensures r.Err? ==> r.error == Inval && tos == old(tos)
    {
      if (tos - 1) % TWO_32 >= MAX_STACK {
        return Err(Inval);
      }
      tos := tos - 1;
      r := Ok(stack[tos]);
    }

    /** `push`. */
    method PushWord(x: Word) returns (h: Exit)
      requires Valid()
      modifies this`tos, stack
      ensures Matches(Push(old(Abs()), x), h)
    {
      if tos >= MAX_STACK {
        return FAILED;
      }
      stack[tos] := x;
      tos := tos + 1;
      h := None;
    }

    /** `pick`: the wrapped index is in range exactly when the element exists. */
    method Pick(n: nat) returns (r: Result<Word>)
      requires Valid() && n < TWO_32 - MAX_STACK
      ensures r.Ok? <==> n < tos
      ensures r.Ok? ==> r.value == Top(Abs(), n)
      ensures r.Err? ==> r.error == Inval
    {
      var index := (tos - 1 - n) % TWO_32;
      if index >= MAX_STACK {
        return Err(Inval);
      }
      r := Ok(stack[index]);
    }

    /** The operators that pop two values and push one. */
    method PerformBinary(env: Env, op: Byte) returns (h: Exit)
      requires Valid() && IsBinary(op)
      modifies this`tos, stack
      ensures Matches(Exec(env, op, old(Abs())), h)
    {
      hide Binary;
      var tmp1 := Pop();
      if tmp1.Err? { return FAILED; }
      var tmp2 := Pop();
      if tmp2.Err? { return FAILED; }
      assert Abs() == Drop(old(Abs()), 2);
      var v := Binary(op, tmp1.value, tmp2.value);
      if v.Err? { return Some(Err(v.error)); }
      h := PushWord(v.value);
    }

    /** dup, drop, over, pick, swap and rot. */
    method PerformShuffle(env: Env, op: Byte) returns (h: Exit)
      requires Valid() && 0x12 <= op <= 0x17 && (op == 0x15 ==> operand1 < TWO_8)
      modifies this`tos, stack
      ensures Matches(Exec(env, op, old(Abs())), h)
    {
      hide Top, Drop, Push, Binary, DerefSize, ExtendConst, JumpOffset, Wrap;
      match op {
        case 0x13 =>
          var tmp1 := Pop();
          h := if tmp1.Err? then FAILED else None;
        case 0x16 =>
          h := Swap();
        case 0x17 =>
          h := Rotate();
        case _ =>
          // overflow is tested before the argument is evaluated
          if tos >= MAX_STACK { return FAILED; }
          var v := Pick(if op == 0x12 then 0 else if op == 0x14 then 1 else operand1);
          if v.Err? { return FAILED; }
          h := PushWord(v.value);
      }
    }

    method Swap() returns (h: Exit)
      requires Valid()
      modifies this`tos, stack
      ensures var s := old(Abs()); var n := |s.stack|;
              Matches(if n < 2 then Halted(Err(Inval))
                      else Running(s.(stack := s.stack[..n - 2] + [Top(s, 0), Top(s, 1)])), h)
    {
      var tmp1 := Pop();
      if tmp1.Err? { return FAILED; }
      var tmp2 := Pop();
      if tmp2.Err? { return FAILED; }
      h := PushWord(tmp1.value);
      h := PushWord(tmp2.value);
    }

    static lemma PushThree(s: State, x: Word, y: Word, z: Word)
      ensures |s.stack| + 3 <= MAX_STACK ==>
                && Push(s, x).Running? && Push(Push(s, x).s, y).Running?
                && Push(Push(Push(s, x).s, y).s, z) == Running(s.(stack := s.stack + [x, y, z]))
    {
    }

    method Rotate() returns (h: Exit)
      requires Valid()
      modifies this`tos, stack
      ensures var s := old(Abs()); var n := |s.stack|;
              Matches(if n < 3 then Halted(Err(Inval))
                      else Running(s.(stack := s.stack[..n - 3] + [Top(s, 0), Top(s, 2), Top(s, 1)])), h)
    {
      var tmp1 := Pop();
      if tmp1.Err? { return FAILED; }
      var tmp2 := Pop();
      if tmp2.Err? { return FAILED; }
      var tmp3 := Pop();
      if tmp3.Err? { return FAILED; }
      ghost var s := old(Abs());
      assert Abs() == Drop(s, 3);
      assert tmp1.value == Top(s, 0) && tmp2.value == Top(s, 1) && tmp3.value == Top(s, 2);
      hide Top, Drop, Push;
      h := PushWord(tmp1.value);
      h := PushWord(tmp3.value);
      h := PushWord(tmp2.value);
      PushThree(Drop(s, 3), tmp1.value, tmp3.value, tmp2.value);
    }

    /** The operators that replace the value on top. */
    method PerformUnary(env: Env, op: Byte) returns (h: Exit)
      requires Valid() && op in {0x06, 0x94, 0x19, 0x1f, 0x20, 0x23}
      modifies this`tos, stack
      ensures Matches(Exec(env, op, old(Abs())), h)
    {
      hide DerefSize, ReadUnsigned, Top, Drop, Push, Binary, ExtendConst, JumpOffset, Wrap;
      // neg and not test for overflow before they pop
      if (op == 0x1f || op == 0x20) && tos >= MAX_STACK { return FAILED; }
      var tmp := Pop();
      if tmp.Err? { return FAILED; }
      var tmp1 := tmp.value;
      match op {
        case 0x06 =>
          var v := ReadUnsigned(env.mem, tmp1, 8);
          if v.Err? { return Some(Err(v.error)); }
          h := PushWord(v.value);
        case 0x94 =>
          var v := DerefSize(env.mem, tmp1, operand1);
          if v.Err? { return Some(Err(v.error)); }
          h := PushWord(v.value);
        case 0x19 => h := PushWord(if tmp1 >= TWO_63 then Wrap(0 - tmp1) else tmp1);
        case 0x1f => h := PushWord(Wrap(0 - tmp1));
        case 0x20 => h := PushWord(TWO_64 - 1 - tmp1);
        case 0x23 => h := PushWord(Wrap(tmp1 + operand1));
      }
    }

    /** Constants, registers, jumps, nop, and everything unexpected. */
    method PerformOther(env: Env, op: Byte) returns (h: Exit)
      requires Valid() && !IsBinary(op) && !(0x12 <= op <= 0x17) && op !in {0x06, 0x94, 0x19, 0x1f, 0x20, 0x23}
      modifies this, stack
      ensures Matches(Exec(env, op, old(Abs())), h)
    {
      hide ExtendConst, JumpOffset;
      if 0x30 <= op <= 0x4f {
        h := PushWord(op - 0x30);
      } else if 0x50 <= op <= 0x6f {
        h := Some(Ok(Final(env.regMap(op - 0x50), true)));
      } else if 0x70 <= op <= 0x8f {
        var r := env.readReg(op - 0x70);
        if r.Err? { return Some(Err(r.error)); }
        h := PushWord(Wrap(r.value + operand1));
      } else {
        match op {
          case 0x03 | 0x08 | 0x0a | 0x0c | 0x0e | 0x0f | 0x10 | 0x11 => h := PushWord(operand1);
          case 0x09 | 0x0b | 0x0d =>
            operand1 := ExtendConst(op, operand1);
            h := PushWord(operand1);
          case 0x2f =>
            addr := addr + JumpOffset(operand1);
            h := None;
          case 0x28 =>
            var tmp1 := Pop();
            if tmp1.Err? { return FAILED; }
            if tmp1.value != 0 {
              addr := addr + JumpOffset(operand1);
            }
            h := None;
          case 0x90 => h := Some(Ok(Final(env.regMap(operand1), true)));
          case 0x92 =>
            var r := env.readReg(operand1);
            if r.Err? { return Some(Err(r.error)); }
            h := PushWord(Wrap(r.value + operand2));
          case 0x96 => h := None;
          case _ => h := FAILED;
        }
      }
    }

    /** One iteration of the loop, or the final pop. */
    method Iterate(env: Env, end: int) returns (h: Exit)
      requires Valid()
      modifies this, stack
      ensures Matches(Step(env, end, old(Abs())), h)
    {
      hide Exec, Signature, ReadOperand;
      if addr >= end {
        var top := Pop();
        return if top.Err? then FAILED else Some(Ok(Final(top.value, false)));
      }
      var f := Fetch(env.mem, addr, operand1, operand2);
      if f.Err? { return Some(Err(f.error)); }
      PickOperand(env.mem, addr, operand1, operand2);
      var op := f.value.op;
      addr, operand1, operand2 := f.value.next, f.value.op1, f.value.op2;
      if IsBinary(op) {
        h := PerformBinary(env, op);
      } else if 0x12 <= op <= 0x17 {
        h := PerformShuffle(env, op);
      } else if op in {0x06, 0x94, 0x19, 0x1f, 0x20, 0x23} {
        h := PerformUnary(env, op);
      } else {
        h := PerformOther(env, op);
      }
    }
  }

  /** The operand of pick is one byte. */
  lemma PickOperand(mem: Memory, addr: int, op1: Word, op2: Word)
    ensures var f := Fetch(mem, addr, op1, op2); f.Ok? && f.value.op == 0x15 ==> f.value.op1 < TWO_8
  {
    if 0 <= addr && addr + 2 <= |mem| {
      LittleEndianBound(mem[addr + 1..addr + 1 + 1]);
      Scale8(1);
    }
  }

  /** `dwarf_eval_expr`, for at most `fuel` iterations. */
  method EvalExpr(env: Env, addr: int, len: Word, fuel: nat) returns (h: Exit)
    ensures var o := Run(env, addr + len, Start(env, addr), fuel);
            if o.Running? then h.None? else h == Some(o.r)
  {
    hide Step;
    var end := addr + len;
    var m := new Evaluator(addr);
    h := m.PushWord(env.cfa);
    assert m.Abs() == Start(env, addr);
    var n := fuel;
    while n > 0
      invariant m.Valid() && h.None? && fresh(m) && fresh(m.stack)
      invariant Run(env, end, Start(env, addr), fuel) == Run(env, end, m.Abs(), n)
    {
      h := m.Iterate(env, end);
      if h.Some? { return; }
      n := n - 1;
    }
  }
}
