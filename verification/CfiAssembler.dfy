/** Assembling call-frame instructions by the table of section 6.4.2 of DWARF v3, and
    the call-frame machine on assembled programs. */
module CfiAssembler {
  import opened Words
  import opened Rules
  import opened Leb128
  import opened Pointers
  import opened Cfi

  /** A number in LEB128 form, in `len` bytes. */
  datatype Leb = Leb(value: int, len: nat)

  /** The instructions of section 6.4.2 and two GNU extensions, in each of their forms. */
  datatype Asm =
    | AdvanceLoc(delta: nat)
    | AdvanceLocN(delta: nat, size: nat)
    | SetLoc(target: Word)
    | DefCfa(reg: Leb, off: Leb)
    | DefCfaSf(reg: Leb, off: Leb)
    | DefCfaRegister(reg: Leb)
    | DefCfaOffset(off: Leb)
    | DefCfaOffsetSf(off: Leb)
    | DefCfaExpression(len: Leb, block: seq<Byte>)
    | Undefined(reg: Leb)
    | SameValue(reg: Leb)
    | OffsetShort(low: nat, off: Leb)
    | OffsetExtended(reg: Leb, off: Leb)
    | OffsetExtendedSf(reg: Leb, off: Leb)
    | NegativeOffset(reg: Leb, off: Leb)
    | ValOffset(reg: Leb, off: Leb)
    | ValOffsetSf(reg: Leb, off: Leb)
    | RegisterRule(reg: Leb, other: Leb)
    | Expression(reg: Leb, len: Leb, block: seq<Byte>)
    | ValExpression(reg: Leb, len: Leb, block: seq<Byte>)
    | RestoreShort(low: nat)
    | RestoreExtended(reg: Leb)
    | RememberState
    | RestoreTheState
    | GnuArgsSize(args: Leb)
    | Padding

  predicate UnsignedOk(x: Leb) {
    0 < x.len <= 10 && 0 <= x.value < TWO_64 && x.value < Pow2(7 * x.len)
  }

  predicate SignedOk(x: Leb) {
    0 < x.len <= 10 && -TWO_63 <= x.value < TWO_63 && -Pow2(7 * x.len - 1) <= x.value < Pow2(7 * x.len - 1)
  }

  /** A number of a register that the row has. */
  predicate RegOk(x: Leb) {
    UnsignedOk(x) && x.value < NUM_REGS
  }

  /** The operands fit their fields. */
  predicate AsmOk(env: Env, a: Asm, addr: int) {
    match a
    case AdvanceLoc(delta) => delta < 0x40
    case AdvanceLocN(delta, size) => (size == 1 || size == 2 || size == 4) && delta < Pow2(8 * size)
    case SetLoc(target) => Writable(target, addr + 1, env.encoding)
    case DefCfa(reg, off) => UnsignedOk(reg) && UnsignedOk(off)
    case DefCfaSf(reg, off) => UnsignedOk(reg) && SignedOk(off)
    case DefCfaRegister(reg) => UnsignedOk(reg)
    case DefCfaOffset(off) => UnsignedOk(off)
    case DefCfaOffsetSf(off) => SignedOk(off)
    case DefCfaExpression(len, block) => UnsignedOk(len) && len.value == |block|
    case Undefined(reg) => UnsignedOk(reg)
    case SameValue(reg) => UnsignedOk(reg)
    case OffsetShort(low, off) => low < 0x40 && UnsignedOk(off)
    case OffsetExtended(reg, off) => UnsignedOk(reg) && UnsignedOk(off)
    case OffsetExtendedSf(reg, off) => UnsignedOk(reg) && SignedOk(off)
    case NegativeOffset(reg, off) => UnsignedOk(reg) && UnsignedOk(off)
    case ValOffset(reg, off) => UnsignedOk(reg) && UnsignedOk(off)
    case ValOffsetSf(reg, off) => UnsignedOk(reg) && SignedOk(off)
    case RegisterRule(reg, other) => UnsignedOk(reg) && UnsignedOk(other)
    case Expression(reg, len, block) => UnsignedOk(reg) && UnsignedOk(len) && len.value == |block|
    case ValExpression(reg, len, block) => UnsignedOk(reg) && UnsignedOk(len) && len.value == |block|
    case RestoreShort(low) => low < 0x40
    case RestoreExtended(reg) => UnsignedOk(reg)
    case GnuArgsSize(args) => UnsignedOk(args)
    case _ => true
  }

  /** The register whose rule or whose value an instruction names first; 0 if none. */
  function RegisterOf(a: Asm): int {
    match a
    case DefCfa(reg, _) => reg.value
    case DefCfaSf(reg, _) => reg.value
    case DefCfaRegister(reg) => reg.value
    case Undefined(reg) => reg.value
    case SameValue(reg) => reg.value
    case OffsetShort(low, _) => low
    case OffsetExtended(reg, _) => reg.value
    case OffsetExtendedSf(reg, _) => reg.value
    case NegativeOffset(reg, _) => reg.value
    case ValOffset(reg, _) => reg.value
    case ValOffsetSf(reg, _) => reg.value
    case RegisterRule(reg, _) => reg.value
    case Expression(reg, _, _) => reg.value
    case ValExpression(reg, _, _) => reg.value
    case RestoreShort(low) => low
    case RestoreExtended(reg) => reg.value
    case _ => 0
  }

  /** It is one that the row has. The standard sets no bound. */
  predicate RegistersOk(a: Asm) {
    0 <= RegisterOf(a) < NUM_REGS
  }

  /** A set_loc whose target is stored as 0 although it is not 0. */
  predicate LostLoc(env: Env, a: Asm, addr: int) {
    a.SetLoc? && a.target != 0 && Stored(a.target, addr + 1, env.encoding) == 0
  }

  /** The three instructions of section 6.4.2.3 that describe a value rather than where it
      is saved; the switch has no case for them. */
  predicate DescribesValue(a: Asm) {
    a.ValOffset? || a.ValOffsetSf? || a.ValExpression?
  }

  function Uleb(x: Leb): seq<Byte>
    requires UnsignedOk(x)
  {
    EncodeLeb(x.value, x.len)
  }

  function Sleb(x: Leb): seq<Byte>
    requires SignedOk(x)
  {
    EncodeLeb(x.value, x.len)
  }

  function Opcode(a: Asm): int {
    match a
    case AdvanceLoc(delta) => 0x40 + delta
    case AdvanceLocN(_, size) => if size == 1 then 0x02 else if size == 2 then 0x03 else 0x04
    case SetLoc(_) => 0x01
    case DefCfa(_, _) => 0x0c
    case DefCfaSf(_, _) => 0x12
    case DefCfaRegister(_) => 0x0d
    case DefCfaOffset(_) => 0x0e
    case DefCfaOffsetSf(_) => 0x13
    case DefCfaExpression(_, _) => 0x0f
    case Undefined(_) => 0x07
    case SameValue(_) => 0x08
    case OffsetShort(low, _) => 0x80 + low
    case OffsetExtended(_, _) => 0x05
    case OffsetExtendedSf(_, _) => 0x11
    case NegativeOffset(_, _) => 0x2f
    case ValOffset(_, _) => 0x14
    case ValOffsetSf(_, _) => 0x15
    case RegisterRule(_, _) => 0x09
    case Expression(_, _, _) => 0x10
    case ValExpression(_, _, _) => 0x16
    case RestoreShort(low) => 0xc0 + low
    case RestoreExtended(_) => 0x06
    case RememberState => 0x0a
    case RestoreTheState => 0x0b
    case GnuArgsSize(_) => 0x2e
    case Padding => 0x00
  }

  function Operands(env: Env, a: Asm, addr: int): seq<Byte>
    requires AsmOk(env, a, addr)
  {
    match a
    case AdvanceLocN(delta, size) => LittleBytes(delta, size)
    case SetLoc(target) => WritePointer(target, addr + 1, env.encoding)
    case DefCfa(reg, off) => Uleb(reg) + Uleb(off)
    case DefCfaSf(reg, off) => Uleb(reg) + Sleb(off)
    case DefCfaRegister(reg) => Uleb(reg)
    case DefCfaOffset(off) => Uleb(off)
    case DefCfaOffsetSf(off) => Sleb(off)
    case DefCfaExpression(len, block) => Uleb(len) + block
    case Undefined(reg) => Uleb(reg)
    case SameValue(reg) => Uleb(reg)
    case OffsetShort(_, off) => Uleb(off)
    case OffsetExtended(reg, off) => Uleb(reg) + Uleb(off)
    case OffsetExtendedSf(reg, off) => Uleb(reg) + Sleb(off)
    case NegativeOffset(reg, off) => Uleb(reg) + Uleb(off)
    case ValOffset(reg, off) => Uleb(reg) + Uleb(off)
    case ValOffsetSf(reg, off) => Uleb(reg) + Sleb(off)
    case RegisterRule(reg, other) => Uleb(reg) + Uleb(other)
    case Expression(reg, len, block) => Uleb(reg) + (Uleb(len) + block)
    case ValExpression(reg, len, block) => Uleb(reg) + (Uleb(len) + block)
    case RestoreExtended(reg) => Uleb(reg)
    case GnuArgsSize(args) => Uleb(args)
    case _ => []
  }

  /** The bytes of an instruction at `addr`: the opcode, then the operands. */
  function Assemble(env: Env, a: Asm, addr: int): (bytes: seq<Byte>)
    requires AsmOk(env, a, addr)
  {
    [Opcode(a)] + Operands(env, a, addr)
  }

  /** The address behind an instruction. */
  function Next(env: Env, a: Asm, addr: int): int
    requires AsmOk(env, a, addr)
  {
    addr + |Assemble(env, a, addr)|
  }

  /** Exactly the instructions that the code understands. */
  predicate Understood(env: Env, a: Asm, addr: int) {
    !DescribesValue(a) && RegistersOk(a) && !LostLoc(env, a, addr)
  }

  /** What the standard says an instruction does: one of the model's instructions, a rule
      for the value of a register, or something about a register that has no column here. */
  datatype Meant =
    | Known(instr: Instr)
    | ValueOffset(reg: int, offset: Word)
    | ValueExpression(reg: int, block: Word)
    | OtherRegister(reg: int)

  /** Factored offsets are products of signed numbers, `factor` being the data alignment
      factor of the CIE. */
  function Standard(a: Asm, addr: int, factor: int): Meant {
    match a
    case ValOffset(reg, off) => ValueOffset(reg.value, Factored(off.value, factor))
    case ValOffsetSf(reg, off) => ValueOffset(reg.value, Factored(off.value, factor))
    case ValExpression(reg, _, _) => ValueExpression(reg.value, Wrap(addr + 1 + reg.len))
    case _ => if RegistersOk(a) then Known(Meaning(a, addr, factor)) else OtherRegister(RegisterOf(a))
  }

  function Meaning(a: Asm, addr: int, factor: int): Instr
    requires RegistersOk(a) && !DescribesValue(a)
  {
    match a
    case AdvanceLoc(delta) => Advance(Wrap(delta))
    case AdvanceLocN(delta, _) => Advance(Wrap(delta))
    case SetLoc(target) => Goto(target)
    case DefCfa(reg, off) => SetCfa(reg.value, Wrap(off.value))
    case DefCfaSf(reg, off) => SetCfa(reg.value, Factored(off.value, factor))
    case DefCfaRegister(reg) => SetRule(CFA_REG_COLUMN, SaveLoc(Reg, reg.value))
    case DefCfaOffset(off) => SetRule(CFA_OFF_COLUMN, SaveLoc(Undef, Wrap(off.value)))
    case DefCfaOffsetSf(off) => SetRule(CFA_OFF_COLUMN, SaveLoc(Undef, Factored(off.value, factor)))
    case DefCfaExpression(_, _) => SetRule(CFA_REG_COLUMN, SaveLoc(Expr, Wrap(addr + 1)))
    case Undefined(reg) => SetRule(reg.value, SaveLoc(Undef, 0))
    case SameValue(reg) => SetRule(reg.value, SaveLoc(Same, 0))
    case OffsetShort(low, off) => SetRule(low, SaveLoc(CfaRel, Factored(off.value, factor)))
    case OffsetExtended(reg, off) => SetRule(reg.value, SaveLoc(CfaRel, Factored(off.value, factor)))
    case OffsetExtendedSf(reg, off) => SetRule(reg.value, SaveLoc(CfaRel, Factored(off.value, factor)))
    case NegativeOffset(reg, off) => SetRule(reg.value, SaveLoc(CfaRel, Negated(Factored(off.value, factor))))
    case RegisterRule(reg, other) => SetRule(reg.value, SaveLoc(Reg, Wrap(other.value)))
    case Expression(reg, _, _) => SetRule(reg.value, SaveLoc(Expr, Wrap(addr + 1 + reg.len)))
    case RestoreShort(low) => Restore(low)
    case RestoreExtended(reg) => Restore(reg.value)
    case RememberState => Remember
    case RestoreTheState => RestoreState
    case GnuArgsSize(args) => ArgsSize(Wrap(args.value))
    case Padding => Nop
  }

  // ----- reading operands back -----

  lemma UnsignedRead(mem: Memory, addr: int, x: Leb)
    requires UnsignedOk(x) && Holds(mem, addr, Uleb(x))
    ensures ReadUleb(mem, addr) == Ok((x.value, addr + x.len)) && Wrap(x.value) == x.value && |Uleb(x)| == x.len
  {
    hide ReadUleb, Pow2, EncodeLeb;
    UnsignedRoundTrip(mem, addr, x.value, x.len);
  }

  lemma SignedRead(mem: Memory, addr: int, x: Leb)
    requires SignedOk(x) && Holds(mem, addr, Sleb(x))
    ensures ReadSleb(mem, addr) == Ok((Wrap(x.value), addr + x.len)) && |Sleb(x)| == x.len
  {
    hide ReadSleb, Pow2, EncodeLeb;
    SignedRoundTrip(mem, addr, x.value, x.len);
  }

  lemma RegRead(mem: Memory, addr: int, reg: Leb)
    requires RegOk(reg) && Holds(mem, addr, Uleb(reg))
    ensures ReadUleb(mem, addr) == Ok((reg.value, addr + reg.len))
    ensures ReadRegnum(mem, addr) == Ok((reg.value, addr + reg.len)) && |Uleb(reg)| == reg.len
  {
    hide ReadUleb, UnsignedOk, Uleb;
    UnsignedRead(mem, addr, reg);
  }

  lemma RegUnsignedRead(mem: Memory, addr: int, reg: Leb, x: Leb)
    requires RegOk(reg) && UnsignedOk(x) && Holds(mem, addr, Uleb(reg) + Uleb(x))
    ensures RegUnsigned(mem, addr) == Ok((reg.value, x.value, addr + reg.len + x.len)) && Wrap(x.value) == x.value
    ensures |Uleb(reg)| == reg.len && |Uleb(x)| == x.len
  {
    hide ReadUleb, ReadRegnum, UnsignedOk, Uleb;
    HoldsSplit(mem, addr, Uleb(reg), Uleb(x));
    RegRead(mem, addr, reg);
    UnsignedRead(mem, addr + reg.len, x);
  }

  lemma RegSignedRead(mem: Memory, addr: int, reg: Leb, x: Leb)
    requires RegOk(reg) && SignedOk(x) && Holds(mem, addr, Uleb(reg) + Sleb(x))
    ensures RegSigned(mem, addr) == Ok((reg.value, Wrap(x.value), addr + reg.len + x.len))
    ensures |Uleb(reg)| == reg.len && |Sleb(x)| == x.len
  {
    hide ReadSleb, ReadRegnum, UnsignedOk, SignedOk, Uleb, Sleb, Wrap;
    HoldsSplit(mem, addr, Uleb(reg), Sleb(x));
    RegRead(mem, addr, reg);
    SignedRead(mem, addr + reg.len, x);
  }

  lemma BlockRead(mem: Memory, addr: int, x: Leb, block: seq<Byte>)
    requires UnsignedOk(x) && x.value == |block| && Holds(mem, addr, Uleb(x) + block)
    ensures SkipBlock(mem, addr) == Ok(addr + |Uleb(x) + block|)
  {
    hide ReadUleb, UnsignedOk, Uleb;
    HoldsSplit(mem, addr, Uleb(x), block);
    UnsignedRead(mem, addr, x);
  }

  /** Products modulo 2^64 are those of the signed numbers. */
  lemma FactoredSigned(x: int, y: int)
    ensures Factored(Wrap(x), Wrap(y)) == Factored(x, y)
  {
    var a, b := x / TWO_64, y / TWO_64;
    var u, v := Wrap(x), Wrap(y);
    assert x == u + a * TWO_64 && y == v + b * TWO_64;
    Distribute(u, a, v, b);
    WrapShift(u * v, a * v + b * u + a * b * TWO_64);
  }

  lemma Distribute(u: int, a: int, v: int, b: int)
    ensures (u + a * TWO_64) * (v + b * TWO_64) == u * v + (a * v + b * u + a * b * TWO_64) * TWO_64
  {
  }

  // ----- main results -----

  /** An assembled instruction decodes to what the standard means, and ends where it ends. */
  ghost predicate DecodesAsMeant(env: Env, a: Asm, addr: int, factor: int)
    requires AsmOk(env, a, addr)
  {
    var d := Decode(env, addr);
    d.Ok? && Standard(a, addr, factor) == Known(d.value.0) && d.value.1 == Next(env, a, addr)
  }

  /** What an assembled instruction decodes to: of one that describes a value the opcode is
      a no-op, and what follows is decoded at the operands; a register without a column is
      an error; a lost target is 0. */
  function AsDecoded(env: Env, a: Asm, addr: int, factor: int): Result<(Instr, int)>
    requires AsmOk(env, a, addr)
  {
    if DescribesValue(a) then Ok((Nop, addr + 1))
    else if !RegistersOk(a) then Err(if a.RestoreShort? || a.RestoreExtended? then Inval else BadReg)
    else
      Ok((if LostLoc(env, a, addr) then Goto(0) else Meaning(a, addr, factor), Next(env, a, addr)))
  }

  /** Decoding undoes assembling, for every instruction in every form, exactly if the code
      understands the instruction: it does not describe a value, its register has a column,
      and its target is not lost. */
  lemma DecodeAssembled(env: Env, a: Asm, addr: int, factor: int)
    requires AsmOk(env, a, addr) && env.dataAlign == Wrap(factor)
    requires Holds(env.mem, addr, Assemble(env, a, addr))
    ensures Decode(env, addr) == AsDecoded(env, a, addr, factor)
    ensures DecodesAsMeant(env, a, addr, factor) <==> Understood(env, a, addr)
  {
    StandardMeaning(a, addr, factor);
    hide Opcode, Operands, Assemble, Next, Decode, Meaning, Standard, AsmOk, RegistersOk, DescribesValue, LostLoc, Wrap, Holds;
    if DescribesValue(a) {
      DecodeValue(env, a, addr);
    } else if !RegistersOk(a) {
      DecodeRejected(env, a, addr);
    } else if LostLoc(env, a, addr) {
      DecodeLost(env, a, addr);
      LostMeaning(env, a, addr, factor);
    } else {
      DecodeMeaning(env, a, addr, factor);
    }
  }

  lemma StandardMeaning(a: Asm, addr: int, factor: int)
    ensures !DescribesValue(a) && RegistersOk(a) ==> Standard(a, addr, factor) == Known(Meaning(a, addr, factor))
    ensures DescribesValue(a) || !RegistersOk(a) ==> !Standard(a, addr, factor).Known?
  {
  }

  lemma LostMeaning(env: Env, a: Asm, addr: int, factor: int)
    requires LostLoc(env, a, addr)
    ensures !DescribesValue(a) && RegistersOk(a) && Meaning(a, addr, factor) != Goto(0)
  {
  }

  /** The bytes begin with a register number without a column. */
  ghost predicate RejectedAt(mem: Memory, addr: int, reg: Leb, rest: seq<Byte>) {
    UnsignedOk(reg) && NUM_REGS <= reg.value && Holds(mem, addr, Uleb(reg) + rest)
  }

  lemma RejectPlain(env: Env, op: nat, addr: int, reg: Leb, rest: seq<Byte>)
    requires RejectedAt(env.mem, addr, reg, rest)
    ensures op in {0x05, 0x07, 0x08, 0x09, 0x0c, 0x0d, 0x10, 0x11, 0x12, 0x2f} ==> DecodePlain(env, op, addr) == Err(BadReg)
    ensures op == 0x06 ==> DecodePlain(env, op, addr) == Err(Inval)
  {
    hide ReadUleb, ReadSleb, Uleb, UnsignedOk, Fixed, ReadEncodedPointer, Wrap;
    HoldsSplit(env.mem, addr, Uleb(reg), rest);
    UnsignedRead(env.mem, addr, reg);
  }

  lemma DecodeRejected(env: Env, a: Asm, addr: int)
    requires AsmOk(env, a, addr) && !DescribesValue(a) && !RegistersOk(a)
    requires Holds(env.mem, addr, Assemble(env, a, addr))
    ensures Decode(env, addr) == Err(if a.RestoreShort? || a.RestoreExtended? then Inval else BadReg)
  {
    OpcodeByte(env, a, addr);
    OpcodeThere(env, a, addr);
    DecodeOpcode(env, Opcode(a), addr);
    RejectedFrom(env, a, addr);
  }

  lemma RejectedFrom(env: Env, a: Asm, addr: int)
    requires AsmOk(env, a, addr) && !DescribesValue(a) && !RegistersOk(a)
    requires Holds(env.mem, addr + 1, Operands(env, a, addr))
    ensures 0 <= Opcode(a) < 0x100
    ensures DecodeFrom(env, Opcode(a), addr + 1) == Err(if a.RestoreShort? || a.RestoreExtended? then Inval else BadReg)
  {
    hide DecodePlain, Uleb, Sleb, UnsignedOk, SignedOk, Holds;
    if !a.OffsetShort? && !a.RestoreShort? {
      var reg, rest := RejectedOperand(env, a, addr);
      RejectPlain(env, Opcode(a), addr + 1, reg, rest);
    }
  }

  lemma RejectedOperand(env: Env, a: Asm, addr: int) returns (reg: Leb, rest: seq<Byte>)
    requires AsmOk(env, a, addr) && !DescribesValue(a) && !RegistersOk(a) && !a.OffsetShort? && !a.RestoreShort?
    requires Holds(env.mem, addr + 1, Operands(env, a, addr))
    ensures RejectedAt(env.mem, addr + 1, reg, rest)
  {
    hide Uleb, Sleb, SignedOk, Holds, Pow2;
    match a
    case DefCfa(r, off) => reg, rest := r, Uleb(off);
    case DefCfaSf(r, off) => reg, rest := r, Sleb(off);
    case OffsetExtended(r, off) => reg, rest := r, Uleb(off);
    case OffsetExtendedSf(r, off) => reg, rest := r, Sleb(off);
    case NegativeOffset(r, off) => reg, rest := r, Uleb(off);
    case RegisterRule(r, other) => reg, rest := r, Uleb(other);
    case Expression(r, len, block) => reg, rest := r, Uleb(len) + block;
    case DefCfaRegister(r) =>
      reg, rest := r, [];
      assert Uleb(r) + [] == Uleb(r);
    case Undefined(r) =>
      reg, rest := r, [];
      assert Uleb(r) + [] == Uleb(r);
    case SameValue(r) =>
      reg, rest := r, [];
      assert Uleb(r) + [] == Uleb(r);
    case RestoreExtended(r) =>
      reg, rest := r, [];
      assert Uleb(r) + [] == Uleb(r);
    case _ =>
      assert false;
  }

  /** Exactly the pc-relative targets that are the operand's own address are lost. */
  lemma LostLocs(env: Env, target: Word, addr: int)
    requires AsmOk(env, SetLoc(target), addr)
    ensures LostLoc(env, SetLoc(target), addr) <==> target != 0 && env.encoding / 0x10 == 1 && target == Wrap(addr + 1)
  {
    hide Fits, Stored;
    if target != 0 {
      LostPointer(addr + 1, target, env.encoding);
    }
  }

  lemma DecodeLost(env: Env, a: Asm, addr: int)
    requires AsmOk(env, a, addr) && LostLoc(env, a, addr) && Holds(env.mem, addr, Assemble(env, a, addr))
    ensures Decode(env, addr) == Ok((Goto(0), Next(env, a, addr)))
  {
    OpcodeByte(env, a, addr);
    OpcodeThere(env, a, addr);
    DecodeOpcode(env, Opcode(a), addr);
    hide Holds, Writable, ReadEncodedPointer, LittleBytes, Stored, Decode;
    PointerRoundTrip(env.mem, addr + 1, a.target, env.encoding, env.bases);
  }

  /** Decoding, once the opcode has been read. */
  function DecodeFrom(env: Env, op: Byte, addr: int): Result<(Instr, int)> {
    if op >= 0x40 then DecodePacked(env, op / 0x40, op % 0x40, addr) else DecodePlain(env, op, addr)
  }

  lemma DecodeOpcode(env: Env, op: Byte, addr: int)
    requires U8(env.mem, addr) == Ok(op)
    ensures Decode(env, addr) == DecodeFrom(env, op, addr + 1)
  {
    hide DecodePacked, DecodePlain;
  }

  lemma DecodeMeaning(env: Env, a: Asm, addr: int, factor: int)
    requires AsmOk(env, a, addr) && Understood(env, a, addr) && env.dataAlign == Wrap(factor)
    requires Holds(env.mem, addr, Assemble(env, a, addr))
    ensures Decode(env, addr) == Ok((Meaning(a, addr, factor), Next(env, a, addr)))
  {
    OpcodeByte(env, a, addr);
    hide *;
    OpcodeThere(env, a, addr);
    DecodeOpcode(env, Opcode(a), addr);
    OperandsDecode(env, a, addr, factor);
  }

  lemma OperandsDecode(env: Env, a: Asm, addr: int, factor: int)
    requires AsmOk(env, a, addr) && Understood(env, a, addr) && env.dataAlign == Wrap(factor)
    requires Holds(env.mem, addr + 1, Operands(env, a, addr))
    ensures 0 <= Opcode(a) < 0x100
    ensures DecodeFrom(env, Opcode(a), addr + 1) == Ok((Meaning(a, addr, factor), Next(env, a, addr)))
  {
    MeaningThere(env, a, addr, factor);
    hide *;
    OperandsRead(env, a, addr, factor);
    MeaningRead(env, a, addr, factor);
  }

  lemma MeaningThere(env: Env, a: Asm, addr: int, factor: int)
    requires AsmOk(env, a, addr) && Understood(env, a, addr) && env.dataAlign == Wrap(factor)
    requires Holds(env.mem, addr + 1, Operands(env, a, addr))
    ensures OperandsThere(env, a, addr, factor)
  {
    hide AsmOk, Operands, Holds, DescribesValue, Wrap;
  }

  lemma MeaningRead(env: Env, a: Asm, addr: int, factor: int)
    requires AsmOk(env, a, addr) && Understood(env, a, addr) && OperandsMean(env, a, addr, factor)
    ensures 0 <= Opcode(a) < 0x100
    ensures DecodeFrom(env, Opcode(a), addr + 1) == Ok((Meaning(a, addr, factor), Next(env, a, addr)))
  {
    OpcodeByte(env, a, addr);
    hide AsmOk, Operands, Assemble, Next, Opcode, DecodeFrom, Meaning, Understood, Wrap;
  }

  lemma DecodeValue(env: Env, a: Asm, addr: int)
    requires AsmOk(env, a, addr) && DescribesValue(a) && Holds(env.mem, addr, Assemble(env, a, addr))
    ensures Decode(env, addr) == Ok((Nop, addr + 1))
  {
    hide Operands, AsmOk, DecodePlain, Holds;
    OpcodeThere(env, a, addr);
    ValueOpcodes(a);
    NoCase(env, Opcode(a), addr + 1);
  }

  lemma OpcodeThere(env: Env, a: Asm, addr: int)
    requires AsmOk(env, a, addr) && Holds(env.mem, addr, Assemble(env, a, addr))
    ensures U8(env.mem, addr) == Ok(Opcode(a)) && Holds(env.mem, addr + 1, Operands(env, a, addr))
  {
    OpcodeByte(env, a, addr);
    hide Opcode, Operands, AsmOk, RegistersOk;
    HoldsSplit(env.mem, addr, [Opcode(a)], Operands(env, a, addr));
    assert env.mem[addr] == env.mem[addr..addr + 1][0];
  }

  lemma ValueOpcodes(a: Asm)
    ensures DescribesValue(a) ==> 0x14 <= Opcode(a) <= 0x16
  {
  }

  lemma NoCase(env: Env, op: nat, addr: int)
    requires 0x14 <= op <= 0x16
    ensures DecodePlain(env, op, addr) == Ok((Nop, addr))
  {
  }

  /** A val_offset of register 6 resets register 10 to its initial rule and leaves register
      6 alone: its operands are executed as a restore_extended. */
  lemma ValOffsetMisread(env: Env, initial: Row, ip: Word, addr: int, s: State)
    requires Holds(env.mem, addr, Assemble(env, ValOffset(Leb(6, 1), Leb(10, 1)), addr)) && s.loc <= ip
    requires AsmOk(env, ValOffset(Leb(6, 1), Leb(10, 1)), addr)
    ensures RunFrom(env, initial, ip, addr, addr + 3, s) == Ok(s.(row := s.row[10 := initial[10]]))
  {
    assert Assemble(env, ValOffset(Leb(6, 1), Leb(10, 1)), addr) == [0x14, 6, 10];
    RestoreAt(env, addr);
    RunTwo(env, initial, ip, addr, addr + 3, s);
  }

  lemma RestoreAt(env: Env, addr: int)
    requires Holds(env.mem, addr, [0x14, 6, 10])
    ensures Decode(env, addr) == Ok((Nop, addr + 1)) && Decode(env, addr + 1) == Ok((Restore(10), addr + 3))
  {
    HoldsSplit(env.mem, addr, [0x14], [6, 10]);
    HoldsSplit(env.mem, addr + 1, [6], [10]);
    assert env.mem[addr] == env.mem[addr..addr + 1][0] && env.mem[addr + 1] == env.mem[addr + 1..addr + 2][0];
    OneUleb(10);
    hide Uleb, Holds, DecodePlain, DecodePacked, Decode;
    DecodeOpcode(env, 0x14, addr);
    NoCase(env, 0x14, addr + 1);
    DecodeOpcode(env, 0x06, addr + 1);
    RestorePlain(env, addr + 2, Leb(10, 1));
  }

  lemma OneUleb(x: nat)
    requires x < 0x40
    ensures UnsignedOk(Leb(x, 1)) && Uleb(Leb(x, 1)) == [x]
  {
    Scale8(1);
    hide Scale;
  }

  lemma RestorePlain(env: Env, addr: int, reg: Leb)
    requires RegOk(reg) && Holds(env.mem, addr, Uleb(reg))
    ensures DecodePlain(env, 0x06, addr) == Ok((Restore(reg.value), addr + reg.len))
  {
    hide ReadUleb, Uleb, UnsignedOk, Holds, Pow2;
    RegRead(env.mem, addr, reg);
  }

  lemma RunTwo(env: Env, initial: Row, ip: Word, addr: int, end: int, s: State)
    requires s.loc <= ip && addr + 1 < end
    requires Decode(env, addr) == Ok((Nop, addr + 1)) && Decode(env, addr + 1) == Ok((Restore(10), end))
    ensures RunFrom(env, initial, ip, addr, end, s) == Ok(s.(row := s.row[10 := initial[10]]))
  {
    hide Decode;
    var t := s.(row := s.row[10 := initial[10]]);
    assert RunFrom(env, initial, ip, end, end, t) == Ok(t);
    assert RunFrom(env, initial, ip, addr + 1, end, s) == Ok(t);
  }

  lemma OpcodeByte(env: Env, a: Asm, addr: int)
    requires AsmOk(env, a, addr)
    ensures 0 <= Opcode(a) < 0x100
  {
    hide Pow2, SignedOk, Writable, Stored;
  }

  /** The operands of an instruction stand after its opcode. */
  ghost predicate OperandsThere(env: Env, a: Asm, addr: int, factor: int) {
    && AsmOk(env, a, addr) && Understood(env, a, addr) && env.dataAlign == Wrap(factor)
    && Holds(env.mem, addr + 1, Operands(env, a, addr))
  }

  /** And decoding the opcode reads them and gives the meaning. */
  ghost predicate OperandsMean(env: Env, a: Asm, addr: int, factor: int)
    requires AsmOk(env, a, addr) && Understood(env, a, addr)
  {
    OpcodeByte(env, a, addr);
    var op := Opcode(a);
    DecodeFrom(env, op, addr + 1) == Ok((Meaning(a, addr, factor), Next(env, a, addr)))
  }

  lemma OperandsRead(env: Env, a: Asm, addr: int, factor: int)
    requires OperandsThere(env, a, addr, factor)
    ensures OperandsMean(env, a, addr, factor)
  {
    hide OperandsMean, AsmOk, Holds, Operands, Wrap;
    match a
    case DefCfa(_, _) => RegUnsignedMeans(env, a, addr, factor);
    case OffsetExtended(_, _) => RegUnsignedMeans(env, a, addr, factor);
    case NegativeOffset(_, _) => RegUnsignedMeans(env, a, addr, factor);
    case RegisterRule(_, _) => RegUnsignedMeans(env, a, addr, factor);
    case DefCfaSf(_, _) => SignedMeans(env, a, addr, factor);
    case OffsetExtendedSf(_, _) => SignedMeans(env, a, addr, factor);
    case DefCfaOffsetSf(_) => SignedMeans(env, a, addr, factor);
    case DefCfaOffset(_) => UnsignedMeans(env, a, addr, factor);
    case OffsetShort(_, _) => UnsignedMeans(env, a, addr, factor);
    case GnuArgsSize(_) => UnsignedMeans(env, a, addr, factor);
    case DefCfaExpression(_, _) => BlockMeans(env, a, addr, factor);
    case Expression(_, _, _) => BlockMeans(env, a, addr, factor);
    case DefCfaRegister(_) => RegMeans(env, a, addr, factor);
    case Undefined(_) => RegMeans(env, a, addr, factor);
    case SameValue(_) => RegMeans(env, a, addr, factor);
    case RestoreExtended(_) => RegMeans(env, a, addr, factor);
    case AdvanceLocN(_, _) => AdvanceMeans(env, a, addr, factor);
    case SetLoc(_) => SetLocMeans(env, a, addr, factor);
    case _ => PlainMeans(env, a, addr, factor);
  }

  lemma DecodeRegUnsigned(env: Env, op: Byte, addr: int, reg: Leb, x: Leb, factor: int)
    requires env.dataAlign == Wrap(factor)
    requires RegOk(reg) && UnsignedOk(x) && Holds(env.mem, addr, Uleb(reg) + Uleb(x))
    ensures var next := addr + |Uleb(reg) + Uleb(x)|;
            && (op == 0x0c ==> DecodePlain(env, op, addr) == Ok((SetCfa(reg.value, Wrap(x.value)), next)))
            && (op == 0x05 ==> DecodePlain(env, op, addr) == Ok((SetRule(reg.value, SaveLoc(CfaRel, Factored(x.value, factor))), next)))
            && (op == 0x2f ==> DecodePlain(env, op, addr) == Ok((SetRule(reg.value, SaveLoc(CfaRel, Negated(Factored(x.value, factor)))), next)))
            && (op == 0x09 ==> DecodePlain(env, op, addr) == Ok((SetRule(reg.value, SaveLoc(Reg, Wrap(x.value))), next)))
  {
    hide ReadUleb, ReadSleb, RegUnsigned, RegSigned, ReadRegnum, Uleb, Sleb, UnsignedOk, SignedOk, Wrap, Factored, Negated;
    RegUnsignedRead(env.mem, addr, reg, x);
    FactoredSigned(x.value, factor);
  }

  lemma DecodeRegSigned(env: Env, op: Byte, addr: int, reg: Leb, x: Leb, factor: int)
    requires env.dataAlign == Wrap(factor)
    requires RegOk(reg) && SignedOk(x) && Holds(env.mem, addr, Uleb(reg) + Sleb(x))
    ensures var next := addr + |Uleb(reg) + Sleb(x)|;
            && (op == 0x12 ==> DecodePlain(env, op, addr) == Ok((SetCfa(reg.value, Factored(x.value, factor)), next)))
            && (op == 0x11 ==> DecodePlain(env, op, addr) == Ok((SetRule(reg.value, SaveLoc(CfaRel, Factored(x.value, factor))), next)))
  {
    hide ReadUleb, ReadSleb, RegUnsigned, RegSigned, ReadRegnum, Uleb, Sleb, UnsignedOk, SignedOk, Wrap, Factored, Negated;
    RegSignedRead(env.mem, addr, reg, x);
    FactoredSigned(x.value, factor);
  }

  lemma DecodeSigned(env: Env, addr: int, x: Leb, factor: int)
    requires env.dataAlign == Wrap(factor) && SignedOk(x) && Holds(env.mem, addr, Sleb(x))
    ensures DecodePlain(env, 0x13, addr)
            == Ok((SetRule(CFA_OFF_COLUMN, SaveLoc(Undef, Factored(x.value, factor))), addr + |Sleb(x)|))
  {
    hide ReadUleb, ReadSleb, RegUnsigned, RegSigned, ReadRegnum, Uleb, Sleb, UnsignedOk, SignedOk, Wrap, Factored, Negated;
    SignedRead(env.mem, addr, x);
    FactoredSigned(x.value, factor);
  }

  lemma DecodeUnsigned(env: Env, op: Byte, addr: int, reg: nat, x: Leb, factor: int)
    requires env.dataAlign == Wrap(factor) && UnsignedOk(x) && Holds(env.mem, addr, Uleb(x)) && reg < NUM_REGS
    ensures var next := addr + |Uleb(x)|;
            && (op == 0x0e ==> DecodePlain(env, op, addr) == Ok((SetRule(CFA_OFF_COLUMN, SaveLoc(Undef, Wrap(x.value))), next)))
            && (op == 0x2e ==> DecodePlain(env, op, addr) == Ok((ArgsSize(Wrap(x.value)), next)))
            && DecodePacked(env, 2, reg, addr) == Ok((SetRule(reg, SaveLoc(CfaRel, Factored(x.value, factor))), next))
  {
    hide ReadUleb, ReadSleb, RegUnsigned, RegSigned, ReadRegnum, Uleb, Sleb, UnsignedOk, SignedOk, Wrap, Factored, Negated;
    UnsignedRead(env.mem, addr, x);
    FactoredSigned(x.value, factor);
  }

  lemma RegUnsignedMeans(env: Env, a: Asm, addr: int, factor: int)
    requires OperandsThere(env, a, addr, factor)
    requires a.DefCfa? || a.OffsetExtended? || a.NegativeOffset? || a.RegisterRule?
    ensures OperandsMean(env, a, addr, factor)
  {
    hide DecodePlain, DecodePacked, Uleb, Sleb, UnsignedOk, SignedOk, Wrap, Factored, Negated;
    match a
    case DefCfa(reg, off) =>
      DecodeRegUnsigned(env, 0x0c, addr + 1, reg, off, factor);
    case OffsetExtended(reg, off) =>
      DecodeRegUnsigned(env, 0x05, addr + 1, reg, off, factor);
    case NegativeOffset(reg, off) =>
      DecodeRegUnsigned(env, 0x2f, addr + 1, reg, off, factor);
    case RegisterRule(reg, other) =>
      DecodeRegUnsigned(env, 0x09, addr + 1, reg, other, factor);
    case _ =>
  }

  lemma SignedMeans(env: Env, a: Asm, addr: int, factor: int)
    requires OperandsThere(env, a, addr, factor)
    requires a.DefCfaSf? || a.OffsetExtendedSf? || a.DefCfaOffsetSf?
    ensures OperandsMean(env, a, addr, factor)
  {
    hide DecodePlain, DecodePacked, Uleb, Sleb, UnsignedOk, SignedOk, Wrap, Factored, Negated;
    match a
    case DefCfaSf(reg, off) =>
      DecodeRegSigned(env, 0x12, addr + 1, reg, off, factor);
    case OffsetExtendedSf(reg, off) =>
      DecodeRegSigned(env, 0x11, addr + 1, reg, off, factor);
    case DefCfaOffsetSf(off) =>
      DecodeSigned(env, addr + 1, off, factor);
    case _ =>
  }

  lemma UnsignedMeans(env: Env, a: Asm, addr: int, factor: int)
    requires OperandsThere(env, a, addr, factor)
    requires a.DefCfaOffset? || a.OffsetShort? || a.GnuArgsSize?
    ensures OperandsMean(env, a, addr, factor)
  {
    hide DecodePlain, DecodePacked, Uleb, Sleb, UnsignedOk, SignedOk, Wrap, Factored, Negated;
    match a
    case DefCfaOffset(off) =>
      DecodeUnsigned(env, 0x0e, addr + 1, 0, off, factor);
    case OffsetShort(low, off) =>
      DecodeUnsigned(env, 0x0e, addr + 1, low, off, factor);
    case GnuArgsSize(args) =>
      DecodeUnsigned(env, 0x2e, addr + 1, 0, args, factor);
    case _ =>
  }

  lemma RegMeans(env: Env, a: Asm, addr: int, factor: int)
    requires OperandsThere(env, a, addr, factor)
    requires a.DefCfaRegister? || a.Undefined? || a.SameValue? || a.RestoreExtended?
    ensures OperandsMean(env, a, addr, factor)
  {
    var mem := env.mem;
    hide ReadUleb, ReadSleb, RegUnsigned, RegSigned, ReadRegnum, SkipBlock, Fixed, ReadEncodedPointer;
    hide Uleb, Sleb, UnsignedOk, SignedOk, Pow2, LittleBytes, WritePointer, Writable, Stored, Wrap, Factored, Negated;
    match a
    case DefCfaRegister(reg) =>
      RegRead(mem, addr + 1, reg);
    case Undefined(reg) =>
      RegRead(mem, addr + 1, reg);
    case SameValue(reg) =>
      RegRead(mem, addr + 1, reg);
    case RestoreExtended(reg) =>
      RegRead(mem, addr + 1, reg);
    case _ =>
  }

  lemma BlockMeans(env: Env, a: Asm, addr: int, factor: int)
    requires OperandsThere(env, a, addr, factor)
    requires a.DefCfaExpression? || a.Expression?
    ensures OperandsMean(env, a, addr, factor)
  {
    var mem := env.mem;
    hide ReadUleb, ReadSleb, RegUnsigned, RegSigned, ReadRegnum, SkipBlock, Fixed, ReadEncodedPointer;
    hide Uleb, Sleb, UnsignedOk, SignedOk, Pow2, LittleBytes, WritePointer, Writable, Stored, Wrap, Factored, Negated;
    match a
    case DefCfaExpression(len, block) =>
      BlockRead(mem, addr + 1, len, block);
    case Expression(reg, len, block) =>
      HoldsSplit(mem, addr + 1, Uleb(reg), Uleb(len) + block);
      RegRead(mem, addr + 1, reg);
      BlockRead(mem, addr + 1 + reg.len, len, block);
    case _ =>
  }

  lemma AdvanceMeans(env: Env, a: Asm, addr: int, factor: int)
    requires OperandsThere(env, a, addr, factor)
    requires a.AdvanceLocN?
    ensures OperandsMean(env, a, addr, factor)
  {
    var mem := env.mem;
    hide ReadUleb, ReadSleb, RegUnsigned, RegSigned, ReadRegnum, SkipBlock, Fixed, ReadEncodedPointer;
    hide Uleb, Sleb, UnsignedOk, SignedOk, Pow2, LittleBytes, WritePointer, Writable, Stored, Wrap, Factored, Negated;
    match a
    case AdvanceLocN(delta, size) =>
      FixedHolds(mem, addr + 1, delta, size);
      WrapSmall(delta);
    case _ =>
  }

  lemma SetLocMeans(env: Env, a: Asm, addr: int, factor: int)
    requires OperandsThere(env, a, addr, factor)
    requires a.SetLoc?
    ensures OperandsMean(env, a, addr, factor)
  {
    var mem := env.mem;
    hide ReadUleb, ReadSleb, RegUnsigned, RegSigned, ReadRegnum, SkipBlock, Fixed, ReadEncodedPointer;
    hide Uleb, Sleb, UnsignedOk, SignedOk, Pow2, LittleBytes, WritePointer, Writable, Stored, Wrap, Factored, Negated;
    match a
    case SetLoc(target) =>
      assert Writable(target, addr + 1, env.encoding);
      PointerRoundTrip(mem, addr + 1, target, env.encoding, env.bases);
      SelfStored(addr + 1, target, env.encoding);
    case _ =>
  }

  lemma PlainMeans(env: Env, a: Asm, addr: int, factor: int)
    requires OperandsThere(env, a, addr, factor)
    requires a.AdvanceLoc? || a.RestoreShort? || a.RememberState? || a.RestoreTheState? || a.Padding?
    ensures OperandsMean(env, a, addr, factor)
  {
    hide ReadEncodedPointer;
  }

  lemma SelfStored(addr: int, target: Word, encoding: Byte)
    ensures target == 0 ==> Stored(target, addr, encoding) == 0
  {
  }

  // ----- programs -----

  /** Every instruction fits where it is placed. */
  predicate ProgramOk(env: Env, prog: seq<Asm>, addr: int) {
    prog == [] || (AsmOk(env, prog[0], addr) && ProgramOk(env, prog[1..], Next(env, prog[0], addr)))
  }

  function AssembleAll(env: Env, prog: seq<Asm>, addr: int): seq<Byte>
    requires ProgramOk(env, prog, addr)
  {
    if prog == [] then []
    else
      Assemble(env, prog[0], addr) + AssembleAll(env, prog[1..], Next(env, prog[0], addr))
  }

  /** A program in memory is its first instruction and the rest. */
  lemma SplitProgram(env: Env, prog: seq<Asm>, addr: int)
    requires prog != [] && ProgramOk(env, prog, addr) && Holds(env.mem, addr, AssembleAll(env, prog, addr))
    ensures Holds(env.mem, addr, Assemble(env, prog[0], addr))
    ensures Holds(env.mem, Next(env, prog[0], addr), AssembleAll(env, prog[1..], Next(env, prog[0], addr)))
    ensures addr + |AssembleAll(env, prog, addr)|
            == Next(env, prog[0], addr) + |AssembleAll(env, prog[1..], Next(env, prog[0], addr))|
    ensures addr < Next(env, prog[0], addr)
  {
    hide Holds, Operands, AsmOk;
    HoldsSplit(env.mem, addr, Assemble(env, prog[0], addr), AssembleAll(env, prog[1..], Next(env, prog[0], addr)));
  }

  predicate AllUnderstood(env: Env, prog: seq<Asm>, addr: int)
    requires ProgramOk(env, prog, addr)
  {
    prog == [] ||
    (Understood(env, prog[0], addr) && AllUnderstood(env, prog[1..], Next(env, prog[0], addr)))
  }

  /** Every instruction is decoded as meant. */
  ghost predicate AllAsMeant(env: Env, prog: seq<Asm>, addr: int, factor: int)
    requires ProgramOk(env, prog, addr)
  {
    prog == [] ||
    (DecodesAsMeant(env, prog[0], addr, factor) && AllAsMeant(env, prog[1..], Next(env, prog[0], addr), factor))
  }

  /** An assembled program is decoded as meant exactly if the code understands every
      instruction of it. */
  lemma {:induction false} AssembledAsMeant(env: Env, prog: seq<Asm>, addr: int, factor: int)
    requires ProgramOk(env, prog, addr) && env.dataAlign == Wrap(factor)
    requires Holds(env.mem, addr, AssembleAll(env, prog, addr))
    ensures AllAsMeant(env, prog, addr, factor) <==> AllUnderstood(env, prog, addr)
    decreases |prog|
  {
    hide Decode, Assemble, AssembleAll, Holds, Next, AsmOk, AsDecoded, Understood, DecodesAsMeant, Wrap;
    if prog != [] {
      var next := Next(env, prog[0], addr);
      SplitProgram(env, prog, addr);
      DecodeAssembled(env, prog[0], addr, factor);
      AssembledAsMeant(env, prog[1..], next, factor);
    }
  }

  function Meanings(env: Env, prog: seq<Asm>, addr: int, factor: int): seq<Instr>
    requires ProgramOk(env, prog, addr) && AllUnderstood(env, prog, addr)
  {
    if prog == [] then []
    else
      [Meaning(prog[0], addr, factor)] + Meanings(env, prog[1..], Next(env, prog[0], addr), factor)
  }

  /** An assembled program is a listing of its meanings. */
  lemma {:induction false} AssembledListing(env: Env, prog: seq<Asm>, addr: int, factor: int)
    requires ProgramOk(env, prog, addr) && AllUnderstood(env, prog, addr) && env.dataAlign == Wrap(factor)
    requires Holds(env.mem, addr, AssembleAll(env, prog, addr))
    ensures Listing(env, addr, addr + |AssembleAll(env, prog, addr)|, Meanings(env, prog, addr, factor))
    decreases |prog|
  {
    hide Decode, Assemble, Holds, Next, AsmOk, Meaning, Wrap, RegistersOk, DescribesValue, LostLoc;
    if prog != [] {
      var next := Next(env, prog[0], addr);
      SplitProgram(env, prog, addr);
      DecodeAssembled(env, prog[0], addr, factor);
      AssembledListing(env, prog[1..], next, factor);
      assert Meanings(env, prog, addr, factor)[1..] == Meanings(env, prog[1..], next, factor);
    }
  }

  ghost predicate NoValues(prog: seq<Asm>) {
    forall i :: 0 <= i < |prog| ==> !DescribesValue(prog[i])
  }

  /** Executing a program instruction by instruction up to the first location past `ip`: it
      ends with an error at the first register without a column. */
  function Interpret(env: Env, initial: Row, prog: seq<Asm>, addr: int, factor: int, ip: Word, s: State): Result<State>
    requires ProgramOk(env, prog, addr)
    decreases |prog|
  {
    if s.loc > ip || prog == [] then Ok(s)
    else
      var d := AsDecoded(env, prog[0], addr, factor);
      if d.Err? then Err(d.error)
      else
        var s' :- Exec(env, initial, d.value.0, s);
        Interpret(env, initial, prog[1..], Next(env, prog[0], addr), factor, ip, s')
  }

  /** The machine does that on every program that describes no values, whatever registers
      and targets it names, and for every ip. */
  lemma {:induction false} AssembledBehaves(env: Env, initial: Row, prog: seq<Asm>, addr: int, factor: int, ip: Word, s: State)
    requires ProgramOk(env, prog, addr) && NoValues(prog) && env.dataAlign == Wrap(factor)
    requires Holds(env.mem, addr, AssembleAll(env, prog, addr))
    ensures RunFrom(env, initial, ip, addr, addr + |AssembleAll(env, prog, addr)|, s)
            == Interpret(env, initial, prog, addr, factor, ip, s)
    decreases |prog|
  {
    hide Decode, Assemble, Holds, Next, AsmOk, Meaning, Wrap, RegistersOk, LostLoc, Exec;
    if prog != [] && s.loc <= ip {
      var next := Next(env, prog[0], addr);
      SplitProgram(env, prog, addr);
      DecodeAssembled(env, prog[0], addr, factor);
      var d := AsDecoded(env, prog[0], addr, factor);
      if d.Ok? && Exec(env, initial, d.value.0, s).Ok? {
        AssembledBehaves(env, initial, prog[1..], next, factor, ip, Exec(env, initial, d.value.0, s).value);
      }
    }
  }

  /** The call-frame machine executes an assembled program as the standard says, one
      instruction after the other. */
  lemma AssembledRuns(env: Env, prog: seq<Asm>, addr: int, factor: int, initial: Row, ip: Word, s: State)
    requires ProgramOk(env, prog, addr) && AllUnderstood(env, prog, addr) && env.dataAlign == Wrap(factor)
    requires Holds(env.mem, addr, AssembleAll(env, prog, addr))
    requires Uninterrupted(env, initial, Meanings(env, prog, addr, factor), s, ip)
    ensures RunFrom(env, initial, ip, addr, addr + |AssembleAll(env, prog, addr)|, s)
            == Execs(env, initial, Meanings(env, prog, addr, factor), s)
  {
    hide Decode, Meaning, Assemble, RunFrom, Execs, Uninterrupted, Listing;
    AssembledListing(env, prog, addr, factor);
    RunExecutes(env, initial, ip, addr, addr + |AssembleAll(env, prog, addr)|, Meanings(env, prog, addr, factor), s);
  }
}
