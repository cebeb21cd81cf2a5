/** Postfix code for arithmetic trees, and what the expression machine makes of it;
    and the operators on which the machine departs from DWARF v3. */
module ExprCompiler {
  import opened Words
  import opened Leb128
  import opened Pointers
  import opened Expr

  /** The ways to write a constant. */
  datatype Form = Lit | Addr | C1u | C1s | C2u | C2s | C4u | C4s | C8u | C8s

  datatype BinOp = And | Div | Minus | Mod | Mul | Or | Plus | LeftShift | RightShift | SignedShift | Xor | Eq | Ne

  datatype Tree =
    | Const(form: Form, v: Word)
    | Breg(reg: nat, off: int, len: nat) // register plus offset, encoded in `len` bytes
    | Bregx(regx: Word, regLen: nat, off: int, len: nat) // any register
    | Neg(t: Tree)
    | Not(t: Tree)
    | Abs(t: Tree)
    | Deref(t: Tree)
    | DerefSized(t: Tree, size: nat)
    | PlusConst(t: Tree, c: Word, len: nat)
    | Bin(op: BinOp, l: Tree, r: Tree)
    | If(cond: Tree, yes: Tree, no: Tree) // `yes` unless the condition is 0

  // ----- what a tree means -----

  function Meaning(op: BinOp, l: Word, r: Word): Option<Word> {
    match op
    case And => Some(BitOp(AndGate, l, r))
    case Div => // toward zero; 0 for a zero divisor, as for Mod
      if r == 0 then Some(0)
      else if Signed(l) == -TWO_63 && Signed(r) == -1 then None
      else Some(Wrap(Quotient(Signed(l), Signed(r))))
    case Minus => Some(Wrap(l - r))
    case Mod => if r == 0 then Some(0) else Some(l % r)
    case Mul => Some(Wrap(l * r))
    case Or => Some(BitOp(OrGate, l, r))
    case Plus => Some(Wrap(l + r))
    case LeftShift => if r >= 64 then None else Some(Wrap(Scale(l, r)))
    case RightShift => if r >= 64 then None else Some(Wrap(Halve(l, r)))
    case SignedShift => if r >= 64 then None else Some(Wrap(Halve(Signed(l), r)))
    case Xor => Some(BitOp(XorGate, l, r))
    case Eq => Some(if l == r then 1 else 0)
    case Ne => Some(if l != r then 1 else 0)
  }

  function Denote(env: Env, t: Tree): Option<Word> {
    match t
    case Const(_, v) => Some(v)
    case Breg(reg, off, _) => if reg < 32 && env.readReg(reg).Ok? then Some(Wrap(env.readReg(reg).value + off)) else None
    case Bregx(reg, _, off, _) => if env.readReg(reg).Ok? then Some(Wrap(env.readReg(reg).value + off)) else None
    case Bin(op, l, r) =>
      var x, y := Denote(env, l), Denote(env, r);
      if x.None? || y.None? then None else Meaning(op, x.value, y.value)
    case If(c, yes, no) =>
      (match Denote(env, c) case None => None case Some(x) => if x != 0 then Denote(env, yes) else Denote(env, no))
    case _ => (match Denote(env, t.t) case None => None case Some(x) => UnaryMeaning(env.mem, t, x))
  }

  /** An operation on one value. */
  predicate IsUnary(t: Tree) {
    t.Neg? || t.Not? || t.Abs? || t.Deref? || t.DerefSized? || t.PlusConst?
  }

  function UnaryMeaning(mem: Memory, t: Tree, x: Word): Option<Word>
    requires IsUnary(t)
  {
    match t
    case Neg(_) => Some(Wrap(0 - x))
    case Not(_) => Some(Wrap(-1 - x))
    case Abs(_) => Some(if Signed(x) < 0 then Wrap(-Signed(x)) else x)
    case Deref(_) => BytesAt(mem, x, 8, 8)
    case DerefSized(_, size) => BytesAt(mem, x, size, if size == 3 then 4 else size) // three are cut out of four
    case PlusConst(_, c, _) => Some(Wrap(x + c))
  }

  /** The number in the `n` bytes at `addr`, if `room` bytes are mapped there. */
  function BytesAt(mem: Memory, addr: nat, n: nat, room: nat): Option<Word> {
    if n <= room <= 8 && addr + room <= |mem| then
      LittleEndianBound(mem[addr..addr + n]);
      Pow2Grows(8 * n, 64);
      Scale64(1);
      Some(LittleEndian(mem[addr..addr + n]))
    else None
  }

  // ----- code -----

  function ConstCode(form: Form, v: Word): seq<Byte>
    requires ConstOk(form, v)
  {
    match form
    case Lit => [0x30 + v]
    case Addr => [0x03] + LittleBytes(v, 8)
    case C1u => [0x08] + LittleBytes(v, 1)
    case C1s => [0x09] + LittleBytes(v, 1)
    case C2u => [0x0a] + LittleBytes(v, 2)
    case C2s => [0x0b] + LittleBytes(v, 2)
    case C4u => [0x0c] + LittleBytes(v, 4)
    case C4s => [0x0d] + LittleBytes(v, 4)
    case C8u => [0x0e] + LittleBytes(v, 8)
    case C8s => [0x0f] + LittleBytes(v, 8)
  }

  predicate ConstOk(form: Form, v: Word) {
    match form
    case Lit => v < 32
    case C1u => v < TWO_8
    case C2u => v < TWO_16
    case C4u => v < TWO_32
    case C1s => v < 0x80 || v >= TWO_64 - 0x80
    case C2s => v < 0x8000 || v >= TWO_64 - 0x8000
    case C4s => v < 0x8000_0000 || v >= TWO_64 - 0x8000_0000
    case _ => true
  }

  function OpCode(op: BinOp): Byte {
    match op
    case And => 0x1a case Div => 0x1b case Minus => 0x1c case Mod => 0x1d case Mul => 0x1e
    case Or => 0x21 case Plus => 0x22 case LeftShift => 0x24 case RightShift => 0x25
    case SignedShift => 0x26 case Xor => 0x27 case Eq => 0x29 case Ne => 0x2e
  }

  predicate OffsetFits(off: int, len: nat) {
    0 < len <= 10 && -TWO_63 <= off < TWO_63 && -Pow2(7 * len - 1) <= off < Pow2(7 * len - 1)
  }

  predicate TreeOk(t: Tree) {
    match t
    case Const(form, v) => ConstOk(form, v)
    case Breg(reg, off, len) => reg < 32 && OffsetFits(off, len)
    case Bregx(reg, regLen, off, len) => 0 < regLen <= 10 && reg < Pow2(7 * regLen) && OffsetFits(off, len)
    case PlusConst(u, c, len) => TreeOk(u) && 0 < len <= 10 && c < Pow2(7 * len)
    case DerefSized(u, size) => TreeOk(u) && size in {1, 2, 3, 4, 8}
    case Bin(_, l, r) => TreeOk(l) && TreeOk(r)
    case If(c, yes, no) => TreeOk(c) && TreeOk(yes) && TreeOk(no) && Length(yes) < 0x8000 && Length(no) + 3 < 0x8000
    case Neg(u) => TreeOk(u)
    case Not(u) => TreeOk(u)
    case Abs(u) => TreeOk(u)
    case Deref(u) => TreeOk(u)
  }

  /** Bytes of code. */
  function Length(t: Tree): nat {
    match t
    case Const(form, _) =>
      (match form
       case Lit => 1
       case C1u | C1s => 2
       case C2u | C2s => 3
       case C4u | C4s => 5
       case _ => 9)
    case Breg(_, _, len) => 1 + len
    case Bregx(_, regLen, _, len) => 1 + regLen + len
    case Neg(u) => Length(u) + 1
    case Not(u) => Length(u) + 1
    case Abs(u) => Length(u) + 1
    case Deref(u) => Length(u) + 1
    case DerefSized(u, _) => Length(u) + 2
    case PlusConst(u, _, len) => Length(u) + 1 + len
    case Bin(_, l, r) => Length(l) + Length(r) + 1
    case If(c, yes, no) => Length(c) + 3 + Length(no) + 3 + Length(yes)
  }

  function UnaryOp(t: Tree): Byte
    requires IsUnary(t)
  {
    match t
    case Neg(_) => 0x1f
    case Not(_) => 0x20
    case Abs(_) => 0x19
    case Deref(_) => 0x06
    case DerefSized(_, _) => 0x94
    case PlusConst(_, _, _) => 0x23
  }

  function UnaryCode(t: Tree): (code: seq<Byte>)
    requires IsUnary(t) && TreeOk(t)
    ensures |code| == Length(t) - Length(t.t)
  {
    [UnaryOp(t)] + (if t.DerefSized? then LittleBytes(t.size, 1) else if t.PlusConst? then EncodeLeb(t.c, t.len) else [])
  }

  /** A jump by an offset from the instruction behind it. */
  function Jump(op: Byte, off: int): (code: seq<Byte>)
    ensures |code| == 3
  {
    [op] + LittleBytes(off % TWO_16, 2)
  }

  /** Postfix; of a conditional, the code for 0 comes first. */
  function Code(t: Tree): (code: seq<Byte>)
    requires TreeOk(t)
    ensures |code| == Length(t) > 0
  {
    match t
    case Const(form, v) => ConstCode(form, v)
    case Breg(reg, off, len) => [0x70 + reg] + EncodeLeb(off, len)
    case Bregx(reg, regLen, off, len) => [0x92] + (EncodeLeb(reg, regLen) + EncodeLeb(off, len))
    case Bin(op, l, r) => Code(l) + Code(r) + [OpCode(op)]
    case If(c, yes, no) =>
      Code(c) + (Jump(0x28, Length(no) + 3) + (Code(no) + (Jump(0x2f, Length(yes)) + Code(yes))))
    case _ => Code(t.t) + UnaryCode(t)
  }

  /** Operations executed. */
  function Steps(env: Env, t: Tree): nat {
    match t
    case Const(_, _) => 1
    case Breg(_, _, _) => 1
    case Bregx(_, _, _, _) => 1
    case Bin(_, l, r) => Steps(env, l) + Steps(env, r) + 1
    case If(c, yes, no) =>
      Steps(env, c) + 1 + (if Denote(env, c) != Some(0) then Steps(env, yes) else Steps(env, no) + 1)
    case _ => Steps(env, t.t) + 1
  }

  /** Stack slots needed; neg and not want a spare one. */
  function Need(env: Env, t: Tree): (n: nat)
    ensures n > 0
  {
    match t
    case Const(_, _) => 1
    case Breg(_, _, _) => 1
    case Bregx(_, _, _, _) => 1
    case Neg(u) => Max(Need(env, u), 2)
    case Not(u) => Max(Need(env, u), 2)
    case Abs(u) => Need(env, u)
    case Deref(u) => Need(env, u)
    case DerefSized(u, _) => Need(env, u)
    case PlusConst(u, _, _) => Need(env, u)
    case Bin(_, l, r) => Max(Need(env, l), 1 + Need(env, r))
    case If(c, yes, no) => Max(Need(env, c), Need(env, if Denote(env, c) != Some(0) then yes else no))
  }

  function Max(a: nat, b: nat): nat {
    if a < b then b else a
  }

  // ----- operators -----

  lemma {:induction false} BitwiseCommutes(g: Gate, a: nat, b: nat)
    ensures Bitwise(g, a, b) == Bitwise(g, b, a)
    decreases a + b
  {
    if a != 0 || b != 0 {
      BitwiseCommutes(g, a / 2, b / 2);
    }
  }

  lemma SignedInjective(a: Word, b: Word)
    ensures Signed(a) == Signed(b) <==> a == b
  {
  }

  function Magnitude(x: int): nat {
    if x < 0 then -x else x
  }

  /** A quotient rounded toward zero: what is left is smaller than the divisor and has the
      sign of the dividend. */
  ghost predicate RoundsToZero(l: int, r: int, q: int) {
    var m := l - q * r;
    Magnitude(m) < Magnitude(r) && (m > 0 ==> l > 0) && (m < 0 ==> l < 0)
  }

  lemma QuotientRounds(l: int, r: int)
    requires r != 0
    ensures RoundsToZero(l, r, Quotient(l, r)) && Magnitude(Quotient(l, r)) <= Magnitude(l)
    ensures Magnitude(r) > 1 && l != 0 ==> Magnitude(Quotient(l, r)) < Magnitude(l)
  {
    hide Quotient;
    Division(Magnitude(l), Magnitude(r));
    QuotientOf(l, r);
  }

  lemma QuotientOf(l: int, r: int)
    requires r != 0
    ensures var k: int := Magnitude(l) / Magnitude(r);
            && Magnitude(Quotient(l, r)) == k
            && Quotient(l, r) * r == if l >= 0 then k * Magnitude(r) else -(k * Magnitude(r))
  {
    var x, y := Magnitude(l), Magnitude(r);
    var k: int := x / y;
    Division(x, y);
    Products(k, y);
  }

  lemma Division(x: nat, y: nat)
    requires y > 0
    ensures 0 <= x - (x / y) * y < y && x / y <= x && (y > 1 && x > 0 ==> x / y < x)
  {
    var k := x / y;
    assert x == y * k + x % y;
    Swapped(y, k);
    AtLeastTimes(k, 1, y);
    if y > 1 {
      AtLeastTimes(k, 2, y);
    }
  }

  lemma Swapped(a: int, b: int)
    ensures a * b == b * a
  {
  }

  lemma AtLeastTimes(k: nat, n: nat, y: nat)
    requires n <= y
    ensures k * n <= k * y
  {
  }

  lemma Products(k: int, y: int)
    ensures (-k) * y == -(k * y) && k * (-y) == -(k * y) && (-k) * (-y) == k * y
  {
  }

  /** div: the quotient of the signed numbers, rounded toward zero; 0 for a zero divisor; and
      the one quotient that does not fit traps. */
  lemma DivMeaning(l: Word, r: Word)
    ensures r == 0 ==> Binary(0x1b, r, l) == Ok(0)
    ensures r != 0 ==> (Binary(0x1b, r, l).Err? <==> Signed(l) == -TWO_63 && Signed(r) == -1)
    ensures r != 0 && Binary(0x1b, r, l).Ok? ==> RoundsToZero(Signed(l), Signed(r), Signed(Binary(0x1b, r, l).value))
  {
    if r != 0 && !(Signed(l) == -TWO_63 && Signed(r) == -1) {
      var a, b := Signed(l), Signed(r);
      assert b != 0;
      QuotientRounds(a, b);
      if a == -TWO_63 && Magnitude(b) == 1 {
        assert b == 1;
      }
      hide RoundsToZero;
      var q := Quotient(a, b);
      assert -TWO_63 <= q < TWO_63;
      assert Signed(Wrap(q)) == q;
    }
  }

  /** The machine's operator, with the right operand on top, has the tree's meaning. */
  lemma BinaryMeaning(op: BinOp, l: Word, r: Word)
    requires Meaning(op, l, r).Some?
    ensures IsBinary(OpCode(op)) && Binary(OpCode(op), r, l) == Ok(Meaning(op, l, r).value)
  {
    hide Bitwise, Scale, Halve;
    BitwiseCommutes(AndGate, l, r);
    BitwiseCommutes(OrGate, l, r);
    BitwiseCommutes(XorGate, l, r);
    SignedInjective(l, r);
    if op.RightShift? {
      HalveBound(l, r);
    }
  }

  // ----- single instructions -----

  /** `o` is a running machine, past the code, with `v` pushed. */
  predicate Pushed(o: Outcome, s: State, n: nat, v: Word) {
    o.Running? && o.s.addr == s.addr + n && o.s.stack == s.stack + [v]
  }

  lemma FetchFixed(mem: Memory, addr: int, op: Byte, n: nat, v: nat, op1: Word, op2: Word)
    requires n == 1 || n == 2 || n == 4 || n == 8
    requires Signature(op) == [if n == 1 then Val8 else if n == 2 then Val16 else if n == 4 then Val32 else Val64]
    requires v < Pow2(8 * n) && v < TWO_64
    requires Holds(mem, addr, [op] + LittleBytes(v, n))
    ensures Fetch(mem, addr, op1, op2) == Ok(Fetched(op, v, op2, addr + 1 + n))
  {
    hide LittleBytes, LittleEndian, Pow2, Signature;
    HoldsSplit(mem, addr, [op], LittleBytes(v, n));
    assert mem[addr] == mem[addr..addr + 1][0];
    LittleRoundTrip(v, n);
  }

  lemma FetchPlain(mem: Memory, addr: int, op: Byte, op1: Word, op2: Word)
    requires Signature(op) == [] && Holds(mem, addr, [op])
    ensures Fetch(mem, addr, op1, op2) == Ok(Fetched(op, op1, op2, addr + 1))
  {
    assert mem[addr] == mem[addr..addr + 1][0];
  }

  lemma FetchUleb(mem: Memory, addr: int, op: Byte, c: Word, len: nat, op1: Word, op2: Word)
    requires Signature(op) == [Uleb] && 0 < len <= 10 && c < Pow2(7 * len)
    requires Holds(mem, addr, [op] + EncodeLeb(c, len))
    ensures Fetch(mem, addr, op1, op2) == Ok(Fetched(op, c, op2, addr + 1 + len))
  {
    hide Signature, EncodeLeb, ReadUleb, Pow2;
    HoldsSplit(mem, addr, [op], EncodeLeb(c, len));
    assert mem[addr] == mem[addr..addr + 1][0];
    UnsignedRoundTrip(mem, addr + 1, c, len);
  }

  lemma FetchSleb(mem: Memory, addr: int, op: Byte, off: int, len: nat, op1: Word, op2: Word)
    requires Signature(op) == [Sleb] && 0 < len <= 10
    requires -TWO_63 <= off < TWO_63 && -Pow2(7 * len - 1) <= off < Pow2(7 * len - 1)
    requires Holds(mem, addr, [op] + EncodeLeb(off, len))
    ensures Fetch(mem, addr, op1, op2) == Ok(Fetched(op, Wrap(off), op2, addr + 1 + len))
  {
    hide Signature, EncodeLeb, ReadSleb, Pow2, Wrap;
    HoldsSplit(mem, addr, [op], EncodeLeb(off, len));
    assert mem[addr] == mem[addr..addr + 1][0];
    SignedRoundTrip(mem, addr + 1, off, len);
  }

  lemma FetchTwo(mem: Memory, addr: int, reg: Word, regLen: nat, off: int, len: nat, op1: Word, op2: Word)
    requires 0 < regLen <= 10 && reg < Pow2(7 * regLen) && OffsetFits(off, len)
    requires Holds(mem, addr, [0x92] + (EncodeLeb(reg, regLen) + EncodeLeb(off, len)))
    ensures Fetch(mem, addr, op1, op2) == Ok(Fetched(0x92, reg, Wrap(off), addr + 1 + regLen + len))
  {
    hide EncodeLeb, ReadUleb, ReadSleb, Pow2, Wrap, Signature;
    BregxOperands();
    HoldsSplit(mem, addr, [0x92], EncodeLeb(reg, regLen) + EncodeLeb(off, len));
    HoldsSplit(mem, addr + 1, EncodeLeb(reg, regLen), EncodeLeb(off, len));
    assert mem[addr] == mem[addr..addr + 1][0];
    UnsignedRoundTrip(mem, addr + 1, reg, regLen);
    SignedRoundTrip(mem, addr + 1 + regLen, off, len);
  }

  lemma BregxOperands()
    ensures Signature(0x92) == [Uleb, Sleb]
  {
  }

  /** Setting all bits from `k` up adds them. */
  lemma OnesAbove(b: nat, k: nat)
    requires k < 64 && b < Pow2(k)
    ensures 0 <= TWO_64 - Pow2(k) && Bitwise(OrGate, b, TWO_64 - Pow2(k)) == b + (TWO_64 - Pow2(k))
  {
    hide Scale, Bitwise;
    OnesShifted(k);
    Pow2Grows(k, 64);
    Scale64(1);
    OrDisjoint(b, Pow2(64 - k) - 1, k);
  }

  /** The signed constants undo the truncation to their operand size. */
  lemma ConstExtended(form: Form, v: Word)
    requires ConstOk(form, v) && (form.C1s? || form.C2s? || form.C4s?)
    ensures form.C1s? ==> ExtendConst(0x09, v % TWO_8) == v
    ensures form.C2s? ==> ExtendConst(0x0b, v % TWO_16) == v
    ensures form.C4s? ==> ExtendConst(0x0d, v % TWO_32) == v
  {
    hide Scale, Bitwise;
    if form.C1s? {
      Scale8(1);
      OnesAbove(v % TWO_8, 8);
      LowHalf(v, 0x80);
    } else if form.C2s? {
      Scale64(1);
      OnesAbove(v % TWO_16, 16);
      LowHalf(v, 0x8000);
    } else {
      Scale32(1);
      OnesAbove(v % TWO_32, 32);
      LowHalf(v, 0x8000_0000);
    }
  }

  /** The sign bit of a small or nearly wrapped word. */
  lemma LowHalf(v: Word, half: nat)
    requires half in {0x80, 0x8000, 0x8000_0000}
    requires v < half || v >= TWO_64 - half
    ensures v < half ==> v % (2 * half) == v && v / half % 2 == 0
    ensures v >= TWO_64 - half ==> v % (2 * half) == v - (TWO_64 - 2 * half) && v % (2 * half) / half % 2 == 1
  {
  }

  /** Operand bytes of a constant: those of its low part. */
  lemma ConstBytes(v: Word, n: nat, low: nat)
    requires (n == 1 && low == v % TWO_8) || (n == 2 && low == v % TWO_16) || (n == 4 && low == v % TWO_32)
    ensures LittleBytes(v, n) == LittleBytes(low, n) && low < Pow2(8 * n)
  {
    hide Scale, LittleBytes;
    Scale8(1);
    Scale64(1);
    if n == 1 {
      Scale8(v / TWO_8);
      TruncatedBytes(v, low, v / TWO_8, n);
    } else if n == 2 {
      Scale64(v / TWO_16);
      TruncatedBytes(v, low, v / TWO_16, n);
    } else {
      Scale64(v / TWO_32);
      TruncatedBytes(v, low, v / TWO_32, n);
    }
  }

  lemma ConstFetch(form: Form, v: Word, mem: Memory, addr: int, op1: Word, op2: Word)
    requires ConstOk(form, v) && !form.Lit? && Holds(mem, addr, ConstCode(form, v))
    ensures var f := Fetch(mem, addr, op1, op2);
            && f.Ok? && f.value.next == addr + |ConstCode(form, v)| && f.value.op == ConstCode(form, v)[0]
            && (form.C1s? ==> f.value.op1 == v % TWO_8)
            && (form.C2s? ==> f.value.op1 == v % TWO_16)
            && (form.C4s? ==> f.value.op1 == v % TWO_32)
            && (!form.C1s? && !form.C2s? && !form.C4s? ==> f.value.op1 == v)
  {
    hide Scale, LittleBytes, Fetch;
    Scale8(1);
    Scale64(1);
    match form {
      case Addr => FetchFixed(mem, addr, 0x03, 8, v, op1, op2);
      case C1u => FetchFixed(mem, addr, 0x08, 1, v, op1, op2);
      case C2u => FetchFixed(mem, addr, 0x0a, 2, v, op1, op2);
      case C4u => FetchFixed(mem, addr, 0x0c, 4, v, op1, op2);
      case C8u => FetchFixed(mem, addr, 0x0e, 8, v, op1, op2);
      case C8s => FetchFixed(mem, addr, 0x0f, 8, v, op1, op2);
      case C1s =>
        ConstBytes(v, 1, v % TWO_8);
        FetchFixed(mem, addr, 0x09, 1, v % TWO_8, op1, op2);
      case C2s =>
        ConstBytes(v, 2, v % TWO_16);
        FetchFixed(mem, addr, 0x0b, 2, v % TWO_16, op1, op2);
      case C4s =>
        ConstBytes(v, 4, v % TWO_32);
        FetchFixed(mem, addr, 0x0d, 4, v % TWO_32, op1, op2);
    }
  }

  lemma ConstStep(env: Env, end: int, form: Form, v: Word, s: State)
    requires ConstOk(form, v) && Holds(env.mem, s.addr, ConstCode(form, v))
    requires s.addr < end && |s.stack| < MAX_STACK
    ensures Pushed(Step(env, end, s), s, |ConstCode(form, v)|, v)
  {
    hide Fetch, ExtendConst, LittleBytes;
    if form.Lit? {
      FetchPlain(env.mem, s.addr, 0x30 + v, s.op1, s.op2);
    } else {
      ConstFetch(form, v, env.mem, s.addr, s.op1, s.op2);
      if form.C1s? || form.C2s? || form.C4s? {
        ConstExtended(form, v);
      }
    }
  }

  lemma BregStep(env: Env, end: int, reg: nat, off: int, len: nat, s: State)
    requires TreeOk(Breg(reg, off, len)) && Denote(env, Breg(reg, off, len)).Some?
    requires Holds(env.mem, s.addr, Code(Breg(reg, off, len))) && s.addr < end && |s.stack| < MAX_STACK
    ensures Pushed(Step(env, end, s), s, 1 + len, Denote(env, Breg(reg, off, len)).value)
  {
    hide Fetch, EncodeLeb, Pow2;
    FetchSleb(env.mem, s.addr, 0x70 + reg, off, len, s.op1, s.op2);
    WrapAdd(off, env.readReg(reg).value);
  }

  lemma BregxStep(env: Env, end: int, t: Tree, s: State)
    requires t.Bregx? && TreeOk(t) && Denote(env, t).Some?
    requires Holds(env.mem, s.addr, Code(t)) && s.addr < end && |s.stack| < MAX_STACK
    ensures Pushed(Step(env, end, s), s, Length(t), Denote(env, t).value)
  {
    hide Fetch, EncodeLeb, Pow2;
    FetchTwo(env.mem, s.addr, t.regx, t.regLen, t.off, t.len, s.op1, s.op2);
    WrapAdd(t.off, env.readReg(t.regx).value);
  }

  /** Operations on the value on top. */
  lemma UnaryStep(env: Env, end: int, t: Tree, x: Word, base: seq<Word>, s: State)
    requires IsUnary(t) && TreeOk(t)
    requires s.stack == base + [x] && UnaryMeaning(env.mem, t, x).Some?
    requires Holds(env.mem, s.addr, UnaryCode(t)) && s.addr < end
    requires |base| < MAX_STACK && (t.Neg? || t.Not? ==> |base| + 1 < MAX_STACK)
    ensures var o := Step(env, end, s);
            && o.Running? && o.s.addr == s.addr + |UnaryCode(t)|
            && o.s.stack == base + [UnaryMeaning(env.mem, t, x).value]
  {
    hide Fetch, Step, UnaryCode, Exec, TreeOk, Holds, UnaryMeaning;
    UnaryFetch(env.mem, t, s);
    StepExecutes(env, end, s);
    var f := Fetch(env.mem, s.addr, s.op1, s.op2).value;
    assert t.DerefSized? ==> t.size in {1, 2, 3, 4, 8} by { SizeOk(t); }
    UnaryExec(env, t, x, base, State(f.next, s.stack, f.op1, f.op2));
  }

  lemma SizeOk(t: Tree)
    requires TreeOk(t)
    ensures t.DerefSized? ==> t.size in {1, 2, 3, 4, 8}
  {
  }

  lemma UnaryFetch(mem: Memory, t: Tree, s: State)
    requires IsUnary(t) && TreeOk(t) && Holds(mem, s.addr, UnaryCode(t))
    ensures var f := Fetch(mem, s.addr, s.op1, s.op2);
            && f.Ok? && f.value.op == UnaryOp(t) && f.value.next == s.addr + |UnaryCode(t)|
            && (t.PlusConst? ==> f.value.op1 == t.c) && (t.DerefSized? ==> f.value.op1 == t.size)
  {
    assert TWO_8 == Pow2(8) by { Scale8(1); }
    hide Fetch, EncodeLeb, LittleBytes, Pow2, Holds;
    if t.PlusConst? {
      FetchUleb(mem, s.addr, 0x23, t.c, t.len, s.op1, s.op2);
    } else if t.DerefSized? {
      FetchFixed(mem, s.addr, 0x94, 1, t.size, s.op1, s.op2);
    } else {
      assert UnaryCode(t) == [UnaryOp(t)];
      FetchPlain(mem, s.addr, UnaryOp(t), s.op1, s.op2);
    }
  }

  lemma StepExecutes(env: Env, end: int, s: State)
    requires s.addr < end && Fetch(env.mem, s.addr, s.op1, s.op2).Ok?
    ensures var f := Fetch(env.mem, s.addr, s.op1, s.op2).value;
            Step(env, end, s) == Exec(env, f.op, State(f.next, s.stack, f.op1, f.op2))
  {
    hide Fetch, Exec;
  }

  lemma UnaryExec(env: Env, t: Tree, x: Word, base: seq<Word>, s: State)
    requires IsUnary(t) && (t.PlusConst? ==> s.op1 == t.c) && (t.DerefSized? ==> s.op1 == t.size && t.size in {1, 2, 3, 4, 8})
    requires s.stack == base + [x] && UnaryMeaning(env.mem, t, x).Some?
    requires |base| < MAX_STACK && (t.Neg? || t.Not? ==> |base| + 1 < MAX_STACK)
    ensures var o := Exec(env, UnaryOp(t), s);
            o.Running? && o.s.addr == s.addr && o.s.stack == base + [UnaryMeaning(env.mem, t, x).value]
  {
    hide Binary, ExtendConst, JumpOffset, DerefSize, BytesAt, Wrap, Signed;
    assert Drop(s, 1).stack == base;
    AbsMeans(x);
    NotMeans(x);
    if t.Deref? {
      WordAt(env.mem, x);
    } else if t.DerefSized? {
      DerefSizedMeans(env.mem, x, t.size);
    }
  }

  lemma AbsMeans(x: Word)
    ensures (if x >= TWO_63 then Wrap(0 - x) else x) == if Signed(x) < 0 then Wrap(-Signed(x)) else x
  {
  }

  lemma NotMeans(x: Word)
    ensures ALL_ONES - x == Wrap(-1 - x)
  {
  }

  lemma WordAt(mem: Memory, x: Word)
    requires BytesAt(mem, x, 8, 8).Some?
    ensures ReadUnsigned(mem, x, 8) == Ok(BytesAt(mem, x, 8, 8).value)
  {
    hide LittleEndian;
  }

  /** deref_size of 1 to 4 and of 8 bytes reads the number in that many bytes. */
  lemma DerefSizedMeans(mem: Memory, x: Word, size: nat)
    requires size in {1, 2, 3, 4, 8} && BytesAt(mem, x, size, if size == 3 then 4 else size).Some?
    ensures DerefSize(mem, x, size) == Ok(BytesAt(mem, x, size, if size == 3 then 4 else size).value)
  {
    hide LittleEndian;
    if size == 3 {
      ThreeOfFour(mem[x..x + 4]);
      assert mem[x..x + 4][..3] == mem[x..x + 3];
    }
  }

  lemma ThreeOfFour(b: seq<Byte>)
    requires |b| == 4
    ensures LittleEndian(b) % 0x100_0000 == LittleEndian(b[..3])
  {
    hide LittleEndian;
    var c := b[..3];
    LowFirst(b, b[1..]);
    LowFirst(b[1..], b[2..]);
    LowFirst(b[2..], b[3..]);
    LowFirst(b[3..], []);
    LowFirst(c, c[1..]);
    LowFirst(c[1..], [b[2]]);
    LowFirst([b[2]], []);
    LowFirst([], []);
    CutByte(b[0], b[1], b[2], b[3]);
  }

  lemma CutByte(b0: Byte, b1: Byte, b2: Byte, b3: Byte)
    ensures (b0 as int + 0x100 * (b1 as int + 0x100 * (b2 as int + 0x100 * b3 as int))) % 0x100_0000
            == b0 as int + 0x100 * (b1 as int + 0x100 * b2 as int)
  {
    var low := b0 as int + 0x100 * (b1 as int + 0x100 * b2 as int);
    assert 0 <= low < 0x100_0000;
    LowPart(low, b3);
  }

  lemma LowPart(low: nat, high: nat)
    requires low < 0x100_0000
    ensures (low + 0x100_0000 * high) % 0x100_0000 == low
  {
  }

  lemma LowFirst(b: seq<Byte>, rest: seq<Byte>)
    requires b != [] ==> b[1..] == rest
    ensures LittleEndian(b) == if b == [] then 0 else b[0] + 0x100 * LittleEndian(rest)
  {
  }

  lemma BinStep(env: Env, end: int, op: BinOp, l: Word, r: Word, base: seq<Word>, s: State)
    requires s.stack == base + [l] + [r] && Meaning(op, l, r).Some?
    requires Holds(env.mem, s.addr, [OpCode(op)]) && s.addr < end && |base| < MAX_STACK
    ensures var o := Step(env, end, s);
            o.Running? && o.s.addr == s.addr + 1 && o.s.stack == base + [Meaning(op, l, r).value]
  {
    hide Fetch, Binary, Meaning, BitOp;
    FetchPlain(env.mem, s.addr, OpCode(op), s.op1, s.op2);
    BinaryMeaning(op, l, r);
    assert Drop(s, 2).stack == base;
  }

  // ----- jumps -----

  lemma JumpBack(off: int)
    requires -0x8000 <= off < 0x8000
    ensures JumpOffset(off % TWO_16) == off
  {
    hide Scale;
    ScaleTwice(1, 8, 7);
    ScaleTwice(1, 8, 8);
    Scale8(1);
    Scale8(TWO_8);
  }

  /** skip always jumps, and bra exactly if the value that it pops is not 0. */
  lemma JumpStep(env: Env, end: int, op: Byte, off: int, s: State)
    requires IsJump(op) && -0x8000 <= off < 0x8000 && Holds(env.mem, s.addr, Jump(op, off)) && s.addr < end
    requires op == 0x28 ==> s.stack != []
    ensures var o := Step(env, end, s);
            && o.Running?
            && o.s.stack == (if op == 0x28 then s.stack[..|s.stack| - 1] else s.stack)
            && o.s.addr == s.addr + 3 + if op == 0x28 && s.stack[|s.stack| - 1] == 0 then 0 else off
  {
    hide Fetch, LittleBytes, Step, Exec, Pow2, Signature, Holds;
    JumpRange();
    JumpOperand(op);
    FetchFixed(env.mem, s.addr, op, 2, off % TWO_16, s.op1, s.op2);
    StepExecutes(env, end, s);
    JumpExec(env, op, off, State(s.addr + 3, s.stack, off % TWO_16, s.op2));
  }

  lemma JumpOperand(op: Byte)
    requires IsJump(op)
    ensures Signature(op) == [Val16]
  {
  }

  lemma JumpExec(env: Env, op: Byte, off: int, s: State)
    requires IsJump(op) && -0x8000 <= off < 0x8000 && s.op1 == off % TWO_16
    requires op == 0x28 ==> s.stack != []
    ensures var o := Exec(env, op, s);
            && o.Running?
            && o.s.stack == (if op == 0x28 then s.stack[..|s.stack| - 1] else s.stack)
            && o.s.addr == s.addr + if op == 0x28 && s.stack[|s.stack| - 1] == 0 then 0 else off
  {
    hide Binary, ExtendConst, JumpOffset, DerefSize;
    JumpBack(off);
  }

  lemma JumpRange()
    ensures Pow2(16) == TWO_16
  {
    hide Scale;
    ScaleTwice(1, 8, 8);
    Scale8(1);
    Scale8(TWO_8);
  }

  /** A condition and a conditional jump leave the stack as it was. */
  lemma CondThenBra(env: Env, end: int, c: Tree, off: int, s: State)
    requires TreeOk(c) && Denote(env, c).Some? && -0x8000 <= off < 0x8000
    requires Holds(env.mem, s.addr, Code(c) + Jump(0x28, off)) && s.addr + Length(c) + 3 <= end
    requires |s.stack| + Need(env, c) <= MAX_STACK
    ensures var o := Run(env, end, s, Steps(env, c) + 1);
            && o.Running? && o.s.stack == s.stack
            && o.s.addr == s.addr + Length(c) + 3 + if Denote(env, c).value == 0 then 0 else off
    decreases c, 2
  {
    hide Step, Code, Jump;
    HoldsSplit(env.mem, s.addr, Code(c), Jump(0x28, off));
    CodeRuns(env, end, c, s);
    var s1 := Run(env, end, s, Steps(env, c)).s;
    JumpStep(env, end, 0x28, off, s1);
    RunOne(env, end, s1);
    RunSplit(env, end, s, Steps(env, c), 1);
  }

  /** The bytes are `count` instructions without jumps. */
  ghost predicate Block(mem: Memory, addr: int, end: int, count: nat) {
    JumpFree(mem, addr, end) && count == Count(mem, addr, end)
  }

  /** A condition, a bra over a jump-free block of `n` bytes, and the block, which has `count`
      instructions: it is run exactly if the condition is 0. Either way the rest runs on from
      its end. */
  lemma Conditional(env: Env, end: int, c: Tree, n: nat, s: State, m: nat, block: int, k: nat, count: nat) returns (s1: State)
    requires TreeOk(c) && Denote(env, c).Some? && |s.stack| + Need(env, c) <= MAX_STACK
    requires block == s.addr + Length(c) + 3 && k == Steps(env, c) + 1
    requires n < 0x8000 && block + n <= end && Holds(env.mem, s.addr, Code(c) + Jump(0x28, n))
    requires Block(env.mem, block, block + n, count)
    ensures Run(env, end, s, k) == Running(s1) && s1.stack == s.stack
    ensures Denote(env, c).value != 0 ==> s1.addr == block + n && Run(env, end, s, k + m) == Run(env, end, s1, m)
    ensures Denote(env, c).value == 0 ==>
              s1.addr == block &&
              var b := Run(env, block + n, s1, count);
              if b.Running? then b.s.addr == block + n && Run(env, end, s, k + (count + m)) == Run(env, end, b.s, m)
              else Run(env, end, s, k + (count + m)) == b
  {
    hide Step, Code, Jump, Fetch, Need, Denote, Steps, Run, Count, JumpFree, TreeOk, Holds;
    CondThenBra(env, end, c, n, s);
    s1 := Run(env, end, s, k).s;
    RunSplit(env, end, s, k, m);
    if Denote(env, c).value == 0 {
      RunSplit(env, end, s, k, count + m);
      Sequential(env, block + n, end, s1, m);
    }
  }

  // ----- the main result -----

  /** Running the code of a tree leaves exactly the tree's value above the stack that
      was there, if the stack has room for it. */
  lemma {:induction false} CodeRuns(env: Env, end: int, t: Tree, s: State)
    requires TreeOk(t) && Denote(env, t).Some?
    requires Holds(env.mem, s.addr, Code(t)) && s.addr + |Code(t)| <= end
    requires |s.stack| + Need(env, t) <= MAX_STACK
    ensures Pushed(Run(env, end, s, Steps(env, t)), s, |Code(t)|, Denote(env, t).value)
    decreases t, 1
  {
    hide Step, Run, Code, Denote, Steps, Need, TreeOk, Pushed;
    if t.Bin? {
      BinRuns(env, end, t.op, t.l, t.r, s);
    } else if t.If? {
      IfRuns(env, end, t.cond, t.yes, t.no, s);
    } else if IsUnary(t) {
      UnaryRuns(env, end, t, s);
    } else {
      LeafRuns(env, end, t, s);
    }
  }

  predicate IsLeaf(t: Tree) {
    t.Const? || t.Breg? || t.Bregx?
  }

  lemma LeafRuns(env: Env, end: int, t: Tree, s: State)
    requires IsLeaf(t) && TreeOk(t) && Denote(env, t).Some?
    requires Holds(env.mem, s.addr, Code(t)) && s.addr + |Code(t)| <= end
    requires |s.stack| + Need(env, t) <= MAX_STACK
    ensures Pushed(Run(env, end, s, Steps(env, t)), s, |Code(t)|, Denote(env, t).value)
  {
    hide Step, EncodeLeb, Pow2, ConstCode, Run;
    if t.Const? {
      ConstStep(env, end, t.form, t.v, s);
    } else if t.Breg? {
      BregStep(env, end, t.reg, t.off, t.len, s);
    } else {
      BregxStep(env, end, t, s);
    }
    RunOne(env, end, s);
  }

  lemma RunOne(env: Env, end: int, s: State)
    requires Step(env, end, s).Running?
    ensures Run(env, end, s, 1) == Step(env, end, s)
  {
    hide Step;
    assert Run(env, end, Step(env, end, s).s, 0) == Step(env, end, s);
  }

  lemma UnaryParts(env: Env, t: Tree)
    requires IsUnary(t) && TreeOk(t)
    ensures TreeOk(t.t) && Code(t) == Code(t.t) + UnaryCode(t) && |UnaryCode(t)| > 0
    ensures Denote(env, t).Some? ==>
              Denote(env, t.t).Some? && Denote(env, t) == UnaryMeaning(env.mem, t, Denote(env, t.t).value)
    ensures Steps(env, t) == Steps(env, t.t) + 1
    ensures Need(env, t) == if t.Neg? || t.Not? then Max(Need(env, t.t), 2) else Need(env, t.t)
  {
    hide EncodeLeb, Pow2;
  }

  lemma {:induction false} UnaryRuns(env: Env, end: int, t: Tree, s: State)
    requires IsUnary(t) && TreeOk(t) && Denote(env, t).Some?
    requires Holds(env.mem, s.addr, Code(t)) && s.addr + |Code(t)| <= end
    requires |s.stack| + Need(env, t) <= MAX_STACK
    ensures Pushed(Run(env, end, s, Steps(env, t)), s, |Code(t)|, Denote(env, t).value)
    decreases t, 0
  {
    hide Step, Code, UnaryCode, Denote, UnaryMeaning, Need, Steps, TreeOk;
    UnaryParts(env, t);
    var u := t.t;
    HoldsSplit(env.mem, s.addr, Code(u), UnaryCode(t));
    CodeRuns(env, end, u, s);
    var s1 := Run(env, end, s, Steps(env, u)).s;
    UnaryStep(env, end, t, Denote(env, u).value, s.stack, s1);
    RunOne(env, end, s1);
    RunSplit(env, end, s, Steps(env, u), 1);
  }

  lemma BinParts(env: Env, op: BinOp, l: Tree, r: Tree)
    requires TreeOk(Bin(op, l, r))
    ensures var t := Bin(op, l, r);
            && TreeOk(l) && TreeOk(r) && Code(t) == Code(l) + Code(r) + [OpCode(op)]
            && (Denote(env, t).Some? ==>
                  (&& Denote(env, l).Some? && Denote(env, r).Some?
                   && Denote(env, t) == Meaning(op, Denote(env, l).value, Denote(env, r).value)))
            && Steps(env, t) == Steps(env, l) + Steps(env, r) + 1
            && Need(env, t) == Max(Need(env, l), 1 + Need(env, r))
  {
    hide Meaning, Code, OpCode, Max;
    CodeOfBin(op, l, r);
  }

  lemma CodeOfBin(op: BinOp, l: Tree, r: Tree)
    requires TreeOk(Bin(op, l, r))
    ensures TreeOk(l) && TreeOk(r) && Code(Bin(op, l, r)) == Code(l) + Code(r) + [OpCode(op)]
  {
    hide OpCode, Length, UnaryCode, ConstCode;
  }

  lemma {:induction false} BinRuns(env: Env, end: int, op: BinOp, l: Tree, r: Tree, s: State)
    requires TreeOk(Bin(op, l, r)) && Denote(env, Bin(op, l, r)).Some?
    requires Holds(env.mem, s.addr, Code(Bin(op, l, r))) && s.addr + |Code(Bin(op, l, r))| <= end
    requires |s.stack| + Need(env, Bin(op, l, r)) <= MAX_STACK
    ensures Pushed(Run(env, end, s, Steps(env, Bin(op, l, r))), s, |Code(Bin(op, l, r))|, Denote(env, Bin(op, l, r)).value)
    decreases Bin(op, l, r), 0
  {
    hide Step, Code, Denote, Meaning, OpCode, Need, Steps, TreeOk, Holds;
    BinParts(env, op, l, r);
    HoldsSplit(env.mem, s.addr, Code(l) + Code(r), [OpCode(op)]);
    HoldsSplit(env.mem, s.addr, Code(l), Code(r));
    CodeRuns(env, end, l, s);
    var s1 := Run(env, end, s, Steps(env, l)).s;
    CodeRuns(env, end, r, s1);
    var s2 := Run(env, end, s1, Steps(env, r)).s;
    BinStep(env, end, op, Denote(env, l).value, Denote(env, r).value, s.stack, s2);
    RunOne(env, end, s2);
    RunSplit(env, end, s1, Steps(env, r), 1);
    RunSplit(env, end, s, Steps(env, l), Steps(env, r) + 1);
  }

  /** Where the parts of a conditional are. */
  lemma IfParts(mem: Memory, addr: int, c: Tree, yes: Tree, no: Tree)
    requires TreeOk(If(c, yes, no)) && Holds(mem, addr, Code(If(c, yes, no)))
    ensures TreeOk(c) && TreeOk(yes) && TreeOk(no) && Length(yes) < 0x8000 && Length(no) + 3 < 0x8000
    ensures Length(If(c, yes, no)) == Length(c) + 3 + Length(no) + 3 + Length(yes)
    ensures Holds(mem, addr, Code(c) + Jump(0x28, Length(no) + 3))
    ensures Holds(mem, addr + Length(c) + 3, Code(no))
    ensures Holds(mem, addr + Length(c) + 3 + Length(no), Jump(0x2f, Length(yes)))
    ensures Holds(mem, addr + Length(c) + 3 + Length(no) + 3, Code(yes))
  {
    hide Jump, Holds, Code, Length, TreeOk;
    CodeOfIf(c, yes, no);
    var bra, skip := Jump(0x28, Length(no) + 3), Jump(0x2f, Length(yes));
    var first, second, third, fourth := Code(c) + bra, Code(no), skip, Code(yes);
    HoldsSplit(mem, addr, first, second + (third + fourth));
    HoldsSplit(mem, addr + |first|, second, third + fourth);
    HoldsSplit(mem, addr + |first| + |second|, third, fourth);
  }

  lemma CodeOfIf(c: Tree, yes: Tree, no: Tree)
    requires TreeOk(If(c, yes, no))
    ensures TreeOk(c) && TreeOk(yes) && TreeOk(no) && Length(yes) < 0x8000 && Length(no) + 3 < 0x8000
    ensures Length(If(c, yes, no)) == Length(c) + 3 + Length(no) + 3 + Length(yes)
    ensures Code(If(c, yes, no))
            == Code(c) + Jump(0x28, Length(no) + 3) + (Code(no) + (Jump(0x2f, Length(yes)) + Code(yes)))
  {
    hide Jump, UnaryCode, ConstCode;
    Regroup(Code(c), Jump(0x28, Length(no) + 3), Code(no) + (Jump(0x2f, Length(yes)) + Code(yes)));
  }

  lemma Regroup(a: seq<Byte>, b: seq<Byte>, c: seq<Byte>)
    ensures a + (b + c) == a + b + c
  {
  }

  lemma IfPath(env: Env, c: Tree, yes: Tree, no: Tree)
    ensures var t := If(c, yes, no);
            && (Denote(env, t).Some? ==> Denote(env, c).Some?)
            && (Denote(env, t).Some? ==> Denote(env, t) == Denote(env, if Denote(env, c).value != 0 then yes else no))
            && (Denote(env, c).Some? ==>
                  && Steps(env, t) == Steps(env, c) + 1 + (if Denote(env, c).value != 0 then Steps(env, yes) else Steps(env, no) + 1)
                  && Need(env, t) == Max(Need(env, c), Need(env, if Denote(env, c).value != 0 then yes else no)))
  {
  }

  /** Running code from a state that a run arrives at. */
  lemma {:induction false} ThenRuns(env: Env, end: int, s: State, k: nat, s1: State, t: Tree)
    requires Run(env, end, s, k) == Running(s1) && TreeOk(t) && Denote(env, t).Some?
    requires Holds(env.mem, s1.addr, Code(t)) && s1.addr + Length(t) <= end && |s1.stack| + Need(env, t) <= MAX_STACK
    ensures Pushed(Run(env, end, s, k + Steps(env, t)), s1, Length(t), Denote(env, t).value)
    decreases t, 2
  {
    hide Step, Code, Jump, Denote, Need, Steps, TreeOk, Holds, Length;
    CodeRuns(env, end, t, s1);
    hide Run;
    RunSplit(env, end, s, k, Steps(env, t));
  }

  lemma ThenJumps(env: Env, end: int, s: State, k: nat, s1: State, off: int)
    requires Run(env, end, s, k) == Running(s1) && -0x8000 <= off < 0x8000
    requires Holds(env.mem, s1.addr, Jump(0x2f, off)) && s1.addr < end
    ensures var o := Run(env, end, s, k + 1);
            o.Running? && o.s.stack == s1.stack && o.s.addr == s1.addr + 3 + off
  {
    hide Step, Jump, Holds;
    JumpStep(env, end, 0x2f, off, s1);
    RunOne(env, end, s1);
    hide Run;
    RunSplit(env, end, s, k, 1);
  }

  lemma {:induction false} IfRuns(env: Env, end: int, c: Tree, yes: Tree, no: Tree, s: State)
    requires TreeOk(If(c, yes, no)) && Denote(env, If(c, yes, no)).Some?
    requires Holds(env.mem, s.addr, Code(If(c, yes, no))) && s.addr + Length(If(c, yes, no)) <= end
    requires |s.stack| + Need(env, If(c, yes, no)) <= MAX_STACK
    ensures Pushed(Run(env, end, s, Steps(env, If(c, yes, no))), s, Length(If(c, yes, no)), Denote(env, If(c, yes, no)).value)
    decreases If(c, yes, no), 0
  {
    hide Step, Run, Code, Jump, Denote, Need, Steps, TreeOk, Holds, Length;
    IfParts(env.mem, s.addr, c, yes, no);
    IfPath(env, c, yes, no);
    var k := Steps(env, c) + 1;
    CondThenBra(env, end, c, Length(no) + 3, s);
    var s1 := Run(env, end, s, k).s;
    if Denote(env, c).value != 0 {
      ThenRuns(env, end, s, k, s1, yes);
    } else {
      ThenRuns(env, end, s, k, s1, no);
      ThenJumps(env, end, s, k + Steps(env, no), Run(env, end, s, k + Steps(env, no)).s, Length(yes));
    }
  }

  /** Evaluating an expression block that is the code of a tree yields the tree's
      value, if it fits in the 63 slots above the CFA. */
  lemma EvaluatesTree(env: Env, addr: int, t: Tree)
    requires TreeOk(t) && Denote(env, t).Some? && Need(env, t) < MAX_STACK
    requires Holds(env.mem, addr, Code(t))
    ensures Run(env, addr + |Code(t)|, Start(env, addr), Steps(env, t) + 1)
            == Halted(Ok(Final(Denote(env, t).value, false)))
  {
    hide Step, Code, Denote, Steps, Need, TreeOk, Holds;
    var end, s := addr + |Code(t)|, Start(env, addr);
    CodeRuns(env, end, t, s);
    var s1 := Run(env, end, s, Steps(env, t)).s;
    Delivers(env, end, s1);
    RunSplit(env, end, s, Steps(env, t), 1);
  }

  /** The CFA lies beneath: an operation behind the tree applies to the CFA and the value. An
      empty expression yields the CFA itself. */
  lemma CfaBeneath(env: Env, addr: int, t: Tree, op: BinOp)
    requires TreeOk(t) && Denote(env, t).Some? && Need(env, t) < MAX_STACK
    requires Holds(env.mem, addr, Code(t) + [OpCode(op)])
    requires Meaning(op, env.cfa, Denote(env, t).value).Some?
    ensures Run(env, addr + Length(t) + 1, Start(env, addr), Steps(env, t) + 1 + 1)
            == Halted(Ok(Final(Meaning(op, env.cfa, Denote(env, t).value).value, false)))
    ensures Run(env, addr, Start(env, addr), 1) == Halted(Ok(Final(env.cfa, false)))
  {
    hide Step, Code, Denote, Meaning, OpCode, Steps, Need, TreeOk, Holds, Run;
    var end, s := addr + Length(t) + 1, Start(env, addr);
    HoldsSplit(env.mem, addr, Code(t), [OpCode(op)]);
    CodeRuns(env, end, t, s);
    var s1 := Run(env, end, s, Steps(env, t)).s;
    BinStep(env, end, op, env.cfa, Denote(env, t).value, [], s1);
    RunOne(env, end, s1);
    RunSplit(env, end, s, Steps(env, t), 1);
    Delivers(env, end, Step(env, end, s1).s);
    RunSplit(env, end, s, Steps(env, t) + 1, 1);
    Delivers(env, addr, s);
  }

  lemma Delivers(env: Env, end: int, s: State)
    requires s.addr >= end && s.stack != []
    ensures Run(env, end, s, 1) == Halted(Ok(Final(s.stack[|s.stack| - 1], false)))
  {
    hide Step;
    FinalStep(env, end, s);
    assert Run(env, end, s, 1) == Step(env, end, s);
  }

  /** The need is exact: with one slot less the run ends in stack overflow. */
  lemma {:induction false} CodeOverflows(env: Env, end: int, t: Tree, s: State)
    requires TreeOk(t) && Denote(env, t).Some?
    requires Holds(env.mem, s.addr, Code(t)) && s.addr + |Code(t)| <= end
    requires |s.stack| <= MAX_STACK < |s.stack| + Need(env, t)
    ensures Run(env, end, s, Steps(env, t)) == Halted(Err(Inval))
    decreases t
  {
    hide Step, Run, Code, Denote, Steps, Need, TreeOk;
    if t.Bin? {
      BinOverflows(env, end, t.op, t.l, t.r, s);
    } else if t.If? {
      IfOverflows(env, end, t.cond, t.yes, t.no, s);
    } else if IsUnary(t) {
      UnaryOverflows(env, end, t, s);
    } else {
      LeafOverflows(env, end, t, s);
    }
  }

  lemma {:induction false} BinOverflows(env: Env, end: int, op: BinOp, l: Tree, r: Tree, s: State)
    requires TreeOk(Bin(op, l, r)) && Denote(env, Bin(op, l, r)).Some?
    requires Holds(env.mem, s.addr, Code(Bin(op, l, r))) && s.addr + |Code(Bin(op, l, r))| <= end
    requires |s.stack| <= MAX_STACK < |s.stack| + Need(env, Bin(op, l, r))
    ensures Run(env, end, s, Steps(env, Bin(op, l, r))) == Halted(Err(Inval))
    decreases Bin(op, l, r), 0
  {
    hide Step, Code, Denote, Meaning, OpCode, Need, Steps, TreeOk, Holds;
    BinParts(env, op, l, r);
    HoldsSplit(env.mem, s.addr, Code(l) + Code(r), [OpCode(op)]);
    HoldsSplit(env.mem, s.addr, Code(l), Code(r));
    var total := Steps(env, Bin(op, l, r));
    if |s.stack| + Need(env, l) > MAX_STACK {
      CodeOverflows(env, end, l, s);
      FuelMonotone(env, end, s, Steps(env, l), total);
    } else {
      CodeRuns(env, end, l, s);
      var s1 := Run(env, end, s, Steps(env, l)).s;
      CodeOverflows(env, end, r, s1);
      FuelMonotone(env, end, s1, Steps(env, r), Steps(env, r) + 1);
      RunSplit(env, end, s, Steps(env, l), Steps(env, r) + 1);
    }
  }

  lemma {:induction false} IfOverflows(env: Env, end: int, c: Tree, yes: Tree, no: Tree, s: State)
    requires TreeOk(If(c, yes, no)) && Denote(env, If(c, yes, no)).Some?
    requires Holds(env.mem, s.addr, Code(If(c, yes, no))) && s.addr + Length(If(c, yes, no)) <= end
    requires |s.stack| <= MAX_STACK < |s.stack| + Need(env, If(c, yes, no))
    ensures Run(env, end, s, Steps(env, If(c, yes, no))) == Halted(Err(Inval))
    decreases If(c, yes, no), 0
  {
    hide Step, Run, Code, Jump, Denote, Need, Steps, TreeOk, Holds, Length;
    IfParts(env.mem, s.addr, c, yes, no);
    IfPath(env, c, yes, no);
    var total := Steps(env, If(c, yes, no));
    if |s.stack| + Need(env, c) > MAX_STACK {
      HoldsSplit(env.mem, s.addr, Code(c), Jump(0x28, Length(no) + 3));
      CodeOverflows(env, end, c, s);
      FuelMonotone(env, end, s, Steps(env, c), total);
    } else {
      var k := Steps(env, c) + 1;
      CondThenBra(env, end, c, Length(no) + 3, s);
      var s1 := Run(env, end, s, k).s;
      var chosen := if Denote(env, c).value != 0 then yes else no;
      CodeOverflows(env, end, chosen, s1);
      FuelMonotone(env, end, s1, Steps(env, chosen), total - k);
      RunSplit(env, end, s, k, total - k);
    }
  }

  lemma {:induction false} UnaryOverflows(env: Env, end: int, t: Tree, s: State)
    requires IsUnary(t) && TreeOk(t) && Denote(env, t).Some?
    requires Holds(env.mem, s.addr, Code(t)) && s.addr + |Code(t)| <= end
    requires |s.stack| <= MAX_STACK < |s.stack| + Need(env, t)
    ensures Run(env, end, s, Steps(env, t)) == Halted(Err(Inval))
    decreases t, 0
  {
    hide Step, Code, UnaryCode, Denote, Need, Steps, TreeOk, Holds;
    UnaryParts(env, t);
    SpareFetched(t);
    var u := t.t;
    HoldsSplit(env.mem, s.addr, Code(u), UnaryCode(t));
    if |s.stack| + Need(env, u) > MAX_STACK {
      CodeOverflows(env, end, u, s);
      FuelMonotone(env, end, s, Steps(env, u), Steps(env, t));
    } else {
      CodeRuns(env, end, u, s);
      var s1 := Run(env, end, s, Steps(env, u)).s;
      SpareOverflows(env, end, UnaryOp(t), s1);
      assert Run(env, end, s1, 1) == Step(env, end, s1);
      RunSplit(env, end, s, Steps(env, u), 1);
    }
  }

  lemma SpareFetched(t: Tree)
    requires IsUnary(t) && TreeOk(t)
    ensures t.Neg? || t.Not? ==> UnaryCode(t) == [UnaryOp(t)] && 0x1f <= UnaryOp(t) <= 0x20
  {
    hide EncodeLeb;
  }

  lemma LeafOverflows(env: Env, end: int, t: Tree, s: State)
    requires IsLeaf(t) && TreeOk(t) && Denote(env, t).Some?
    requires Holds(env.mem, s.addr, Code(t)) && s.addr + |Code(t)| <= end
    requires |s.stack| <= MAX_STACK < |s.stack| + Need(env, t)
    ensures Run(env, end, s, Steps(env, t)) == Halted(Err(Inval))
  {
    hide Fetch, Step, Code, Holds, TreeOk, Exec, Denote;
    assert Need(env, t) == 1 && Steps(env, t) == 1;
    assert Run(env, end, s, 1) == Step(env, end, s);
    LeafFetch(env.mem, t, s);
    StepExecutes(env, end, s);
    var f := Fetch(env.mem, s.addr, s.op1, s.op2).value;
    FullStack(env, f.op, State(f.next, s.stack, f.op1, f.op2));
    ReadsRegister(env, t);
  }

  lemma LeafFetch(mem: Memory, t: Tree, s: State)
    requires TreeOk(t) && IsLeaf(t) && Holds(mem, s.addr, Code(t))
    ensures var f := Fetch(mem, s.addr, s.op1, s.op2);
            f.Ok? && if t.Breg? then f.value.op == 0x70 + t.reg && t.reg < 32
                     else if t.Bregx? then f.value.op == 0x92 && f.value.op1 == t.regx
                     else IsConst(f.value.op)
  {
    hide Fetch, LittleBytes, EncodeLeb, Pow2;
    if t.Breg? {
      FetchSleb(mem, s.addr, 0x70 + t.reg, t.off, t.len, s.op1, s.op2);
    } else if t.Bregx? {
      FetchTwo(mem, s.addr, t.regx, t.regLen, t.off, t.len, s.op1, s.op2);
    } else if t.form.Lit? {
      FetchPlain(mem, s.addr, 0x30 + t.v, s.op1, s.op2);
    } else {
      ConstFetch(t.form, t.v, mem, s.addr, s.op1, s.op2);
    }
  }

  predicate IsConst(op: Byte) {
    0x30 <= op <= 0x4f || op in {0x03, 0x08, 0x09, 0x0a, 0x0b, 0x0c, 0x0d, 0x0e, 0x0f}
  }

  lemma FullStack(env: Env, op: Byte, s: State)
    requires |s.stack| == MAX_STACK
    ensures IsConst(op) ==> Exec(env, op, s) == Halted(Err(Inval))
    ensures 0x70 <= op <= 0x8f && env.readReg(op - 0x70).Ok? ==> Exec(env, op, s) == Halted(Err(Inval))
    ensures op == 0x92 && env.readReg(s.op1).Ok? ==> Exec(env, op, s) == Halted(Err(Inval))
  {
    hide Binary, ExtendConst, JumpOffset, DerefSize;
  }

  lemma ReadsRegister(env: Env, t: Tree)
    ensures t.Breg? && Denote(env, t).Some? ==> env.readReg(t.reg).Ok?
    ensures t.Bregx? && Denote(env, t).Some? ==> env.readReg(t.regx).Ok?
  {
  }

  lemma SpareOverflows(env: Env, end: int, op: Byte, s: State)
    requires 0x1f <= op <= 0x20 && Holds(env.mem, s.addr, [op]) && s.addr < end && |s.stack| == MAX_STACK
    ensures Step(env, end, s) == Halted(Err(Inval))
  {
    hide Fetch;
    FetchPlain(env.mem, s.addr, op, s.op1, s.op2);
  }

  lemma FinalStep(env: Env, end: int, s: State)
    requires s.addr >= end && s.stack != []
    ensures Step(env, end, s) == Halted(Ok(Final(Top(s, 0), false)))
  {
  }

  // ----- departures from DWARF v3 -----

  /** The comparisons of section 2.5.1.5, which put the second entry on the left. */
  function StandardCompare(op: Byte, top: Word, second: Word): Word {
    match op
    case 0x2a => Truth(Signed(second) >= Signed(top))
    case 0x2b => Truth(Signed(second) > Signed(top))
    case 0x2c => Truth(Signed(second) <= Signed(top))
    case _ => Truth(Signed(second) < Signed(top))
  }

  /** ge, gt, le and lt compare the other way round; they agree with the standard
      exactly on equal operands. */
  lemma ComparisonsReversed(op: Byte, top: Word, second: Word)
    requires 0x2a <= op <= 0x2d
    ensures Binary(op, top, second) == Ok(StandardCompare(op, top, second)) <==> top == second
    ensures Binary(op, top, second) == Ok(StandardCompare(op, second, top))
  {
    SignedInjective(top, second);
  }

  /** `deref_size` should yield the low `size` bytes of the word at the address. */
  function StandardDerefSize(v: Word, size: nat): Word {
    BitOp(AndGate, v, Wrap(Pow2(8 * size) - 1))
  }

  /** With sizes 5 to 7 it yields the high part instead; the two agree only on 0. */
  lemma DerefSizeKeepsHighPart(v: Word, size: nat)
    requires 5 <= size <= 7
    ensures HighPart(v, size) == StandardDerefSize(v, size) <==> v == 0
  {
    hide Bitwise, Scale;
    OnesShifted(8 * size);
    Scale64(1);
    Pow2Grows(0, 8 * size);
    Pow2Grows(8 * size, 64);
    MaskParts(v, 8 * size);
  }

  /** The two masks split a word into disjoint parts. */
  lemma MaskParts(v: Word, k: nat)
    requires 0 < k < 64 && 0 <= Pow2(k) - 1 && 0 <= TWO_64 - Pow2(k)
    ensures (Bitwise(AndGate, v, TWO_64 - Pow2(k)) == Bitwise(AndGate, v, Pow2(k) - 1)) <==> v == 0
  {
    hide Bitwise, Scale;
    Scale64(1);
    var h := Halve(v, k);
    HalveBound(v, k);
    LowMask(v, k);
    HighMask(v, k, 64);
    if h > 0 {
      if h > 1 {
        ScaleOrder(1, h, k);
      }
    } else {
      ScaleZero(k);
    }
  }

  lemma {:induction false} LowMask(v: nat, k: nat)
    ensures 0 < Pow2(k)
    ensures Bitwise(AndGate, v, Pow2(k) - 1) == v - Scale(Halve(v, k), k)
    ensures 0 <= v - Scale(Halve(v, k), k) < Pow2(k)
    decreases k
  {
    Pow2Grows(0, k);
    if k == 0 {
      AndZero(v);
    } else {
      LowMask(v / 2, k - 1);
    }
  }

  lemma {:induction false} AndZero(v: nat)
    ensures Bitwise(AndGate, v, 0) == 0
  {
    if v > 0 {
      AndZero(v / 2);
    }
  }

  lemma {:induction false} HighMask(v: nat, k: nat, n: nat)
    requires v < Pow2(n) && k <= n
    ensures 0 <= Pow2(n) - Pow2(k)
    ensures Bitwise(AndGate, v, Pow2(n) - Pow2(k)) == Scale(Halve(v, k), k)
    decreases n
  {
    Pow2Grows(k, n);
    if k == 0 {
      AndAll(v, n);
    } else {
      HighMask(v / 2, k - 1, n - 1);
    }
  }

  lemma {:induction false} AndAll(v: nat, n: nat)
    requires v < Pow2(n)
    ensures 0 <= Pow2(n) - 1
    ensures Bitwise(AndGate, v, Pow2(n) - 1) == v
    decreases n
  {
    Pow2Grows(0, n);
    if n > 0 {
      AndAll(v / 2, n - 1);
    }
  }

  /** What constu and consts should do with an operand of `len` bytes: push it and go on
      behind it. */
  ghost predicate StandardConst(s: State, o: Outcome, v: int, len: nat) {
    o.Running? && o.s.addr == s.addr + 1 + len && o.s.stack == s.stack + [Wrap(v)]
  }

  /** They have no entry in the operand table: they push whatever operand was read last and
      go on at their own operand. So they never do what they should; even the value is
      right only if the operand read last happens to be the same. */
  lemma ConstuPushesStale(env: Env, end: int, s: State, v: int, len: nat)
    requires s.addr < end && len > 0 && |s.stack| < MAX_STACK
    requires Holds(env.mem, s.addr, [0x10] + EncodeLeb(v, len)) || Holds(env.mem, s.addr, [0x11] + EncodeLeb(v, len))
    ensures var o := Step(env, end, s);
            && o == Running(State(s.addr + 1, s.stack + [s.op1], s.op1, s.op2))
            && !StandardConst(s, o, v, len)
            && (o.s.stack == s.stack + [Wrap(v)] <==> s.op1 == Wrap(v))
  {
    hide EncodeLeb, Wrap;
    var op: Byte := if Holds(env.mem, s.addr, [0x10] + EncodeLeb(v, len)) then 0x10 else 0x11;
    HoldsSplit(env.mem, s.addr, [op], EncodeLeb(v, len));
    FetchPlain(env.mem, s.addr, op, s.op1, s.op2);
    StepExecutes(env, end, s);
    hide Fetch, Step, Holds;
    PushesOp1(env, op, State(s.addr + 1, s.stack, s.op1, s.op2));
    assert (s.stack + [s.op1])[|s.stack|] == s.op1 && (s.stack + [Wrap(v)])[|s.stack|] == Wrap(v);
  }

  lemma PushesOp1(env: Env, op: Byte, s: State)
    requires 0x10 <= op <= 0x11 && |s.stack| < MAX_STACK
    ensures Exec(env, op, s) == Running(s.(stack := s.stack + [s.op1]))
  {
    hide Binary, ExtendConst, JumpOffset, DerefSize;
  }
}
