/** The call-frame machine: `run_cfi_program` and `parse_fde` of Gparser.c
    (sections 6.4.1 to 6.4.3 of DWARF v3). */
module Cfi {
  import opened Words
  import opened Rules
  import opened Leb128
  import opened Pointers

  const MAX_IP: Word := 0xffff_ffff_ffff_ffff

  /** What a program is read and run with. */
  datatype Env = Env(mem: Memory, codeAlign: Word, dataAlign: Word, encoding: Byte, bases: Bases)

  datatype RawInstr =
    | Advance(count: Word)
    | Goto(loc: Word)
    | SetRule(col: nat, rule: SaveLoc)
    | SetCfa(reg: Word, offset: Word)
    | Restore(col: nat)
    | Remember
    | RestoreState
    | ArgsSize(size: Word)
    | Nop

  predicate WellFormed(i: RawInstr) {
    (i.SetRule? ==> i.col < 19) && (i.Restore? ==> i.col < NUM_REGS)
  }

  /** An instruction whose register numbers have been checked. */
  type Instr = i: RawInstr | WellFormed(i) witness Nop

  // ----- decoding -----

  /** A factored offset: a 64-bit product. */
  function Factored(x: int, factor: int): Word {
    Wrap(x * factor)
  }

  function Negated(x: int): Word {
    Wrap(-x)
  }

  /** `read_regnum`. */
  function ReadRegnum(mem: Memory, addr: int): (r: Result<(Word, int)>)
    ensures r.Ok? ==> r.value.0 < NUM_REGS && addr < r.value.1
  {
    var (reg, next) :- ReadUleb(mem, addr);
    if reg >= NUM_REGS then Err(BadReg) else Ok((reg, next))
  }

  /** A register and an unsigned operand. */
  function RegUnsigned(mem: Memory, addr: int): (r: Result<(Word, Word, int)>)
    ensures r.Ok? ==> r.value.0 < NUM_REGS && addr < r.value.2
  {
    var (reg, a1) :- ReadRegnum(mem, addr);
    var (val, a2) :- ReadUleb(mem, a1);
    Ok((reg, val, a2))
  }

  function RegSigned(mem: Memory, addr: int): (r: Result<(Word, Word, int)>)
    ensures r.Ok? ==> r.value.0 < NUM_REGS && addr < r.value.2
  {
    var (reg, a1) :- ReadRegnum(mem, addr);
    var (val, a2) :- ReadSleb(mem, a1);
    Ok((reg, val, a2))
  }

  /** Skipping a DW_FORM_block: its length and its body. */
  function SkipBlock(mem: Memory, addr: int): (r: Result<int>)
    ensures r.Ok? ==> addr < r.value
  {
    var (len, next) :- ReadUleb(mem, addr);
    Ok(next + len)
  }

  /** One instruction and the address after it. */
  function Decode(env: Env, addr: int): (r: Result<(Instr, int)>)
    ensures r.Ok? ==> addr < r.value.1
  {
    var op :- U8(env.mem, addr);
    if op >= 0x40 then DecodePacked(env, op / 0x40, op % 0x40, addr + 1)
    else DecodePlain(env, op, addr + 1)
  }

  /** Opcodes whose operand is in their low six bits. */
  function DecodePacked(env: Env, high: nat, operand: nat, addr: int): (r: Result<(Instr, int)>)
    requires 1 <= high <= 3 && operand < 0x40
    ensures r.Ok? ==> addr <= r.value.1
  {
    if high == 1 then Ok((Advance(operand), addr))
    else if high == 2 then
      if operand >= NUM_REGS then Err(BadReg)
      else
        var (val, next) :- ReadUleb(env.mem, addr);
        Ok((SetRule(operand, SaveLoc(CfaRel, Factored(val, env.dataAlign))), next))
    else if operand >= NUM_REGS then Err(Inval)
    else Ok((Restore(operand), addr))
  }

  function DecodePlain(env: Env, op: nat, addr: int): (r: Result<(Instr, int)>)
    ensures r.Ok? ==> addr <= r.value.1
  {
    var mem := env.mem;
    match op
    case 0x00 => Ok((Nop, addr))
    case 0x01 => // set_loc
      var (loc, next) :- ReadEncodedPointer(mem, addr, env.encoding, env.bases);
      Ok((Goto(loc), next))
    case 0x02 => // advance_loc1
      var (n, next) :- Fixed(mem, addr, 1);
      Ok((Advance(n), next))
    case 0x03 =>
      var (n, next) :- Fixed(mem, addr, 2);
      Ok((Advance(n), next))
    case 0x04 =>
      var (n, next) :- Fixed(mem, addr, 4);
      Ok((Advance(n), next))
    case 0x05 => // offset_extended
      var (reg, val, next) :- RegUnsigned(mem, addr);
      Ok((SetRule(reg, SaveLoc(CfaRel, Factored(val, env.dataAlign))), next))
    case 0x06 => // restore_extended
      var (reg, next) :- ReadUleb(mem, addr);
      if reg >= NUM_REGS then Err(Inval) else Ok((Restore(reg), next))
    case 0x07 => // undefined
      var (reg, next) :- ReadRegnum(mem, addr);
      Ok((SetRule(reg, SaveLoc(Undef, 0)), next))
    case 0x08 => // same_value
      var (reg, next) :- ReadRegnum(mem, addr);
      Ok((SetRule(reg, SaveLoc(Same, 0)), next))
    case 0x09 => // register
      var (reg, val, next) :- RegUnsigned(mem, addr);
      Ok((SetRule(reg, SaveLoc(Reg, val)), next))
    case 0x0a => Ok((Remember, addr))
    case 0x0b => Ok((RestoreState, addr))
    case 0x0c => // def_cfa: the offset is not factored
      var (reg, val, next) :- RegUnsigned(mem, addr);
      Ok((SetCfa(reg, val), next))
    case 0x0d => // def_cfa_register
      var (reg, next) :- ReadRegnum(mem, addr);
      Ok((SetRule(CFA_REG_COLUMN, SaveLoc(Reg, reg)), next))
    case 0x0e => // def_cfa_offset
      var (val, next) :- ReadUleb(mem, addr);
      Ok((SetRule(CFA_OFF_COLUMN, SaveLoc(Undef, val)), next))
    case 0x0f => // def_cfa_expression: the address of the block is kept
      var next :- SkipBlock(mem, addr);
      Ok((SetRule(CFA_REG_COLUMN, SaveLoc(Expr, Wrap(addr))), next))
    case 0x10 => // expression
      var (reg, block) :- ReadRegnum(mem, addr);
      var next :- SkipBlock(mem, block);
      Ok((SetRule(reg, SaveLoc(Expr, Wrap(block))), next))
    case 0x11 => // offset_extended_sf
      var (reg, val, next) :- RegSigned(mem, addr);
      Ok((SetRule(reg, SaveLoc(CfaRel, Factored(val, env.dataAlign))), next))
    case 0x12 => // def_cfa_sf: factored
      var (reg, val, next) :- RegSigned(mem, addr);
      Ok((SetCfa(reg, Factored(val, env.dataAlign)), next))
    case 0x13 => // def_cfa_offset_sf
      var (val, next) :- ReadSleb(mem, addr);
      Ok((SetRule(CFA_OFF_COLUMN, SaveLoc(Undef, Factored(val, env.dataAlign))), next))
    case 0x2e => // GNU_args_size
      var (val, next) :- ReadUleb(mem, addr);
      Ok((ArgsSize(val), next))
    case 0x2f => // GNU_negative_offset_extended
      var (reg, val, next) :- RegUnsigned(mem, addr);
      Ok((SetRule(reg, SaveLoc(CfaRel, Negated(Factored(val, env.dataAlign)))), next))
    case 0x1c | 0x1d | 0x2d | 0x3c => Err(Inval)
    case _ => Ok((Nop, addr)) // no case in the switch
  }

  // ----- executing -----

  /** The location, the row, the remembered rows (newest first), the args size. */
  datatype State = State(loc: Word, row: Row, stack: seq<Row>, argsSize: Word)

  function Exec(env: Env, initial: Row, i: Instr, s: State): Result<State> {
    match i
    case Advance(n) => Ok(s.(loc := Wrap(s.loc + n * env.codeAlign)))
    case Goto(loc) => Ok(s.(loc := loc))
    case SetRule(col, rule) => Ok(s.(row := s.row[col := rule]))
    case SetCfa(reg, off) =>
      Ok(s.(row := s.row[CFA_REG_COLUMN := SaveLoc(Reg, reg)][CFA_OFF_COLUMN := SaveLoc(Undef, off)]))
    case Restore(reg) => Ok(s.(row := s.row[reg := initial[reg]]))
    case Remember => Ok(s.(stack := [s.row] + s.stack))
    case RestoreState =>
      if s.stack == [] then Err(Inval) else Ok(s.(row := s.stack[0], stack := s.stack[1..]))
    case ArgsSize(v) => Ok(s.(argsSize := v))
    case Nop => Ok(s)
  }

  /** The loop of `run_cfi_program`: stop at the first location past `ip`. */
  function RunFrom(env: Env, initial: Row, ip: Word, addr: int, end: int, s: State): Result<State>
    decreases end - addr
  {
    if s.loc > ip || addr >= end then Ok(s)
    else
      var (i, next) :- Decode(env, addr);
      var s' :- Exec(env, initial, i, s);
      RunFrom(env, initial, ip, next, end, s')
  }

  function RowOf(r: Result<State>): Result<Row> {
    var s :- r;
    Ok(s.row)
  }

  // ----- the call-frame table -----

  /** Row `i` is in force from `locs[i]` up to `locs[i + 1]`; `last` is what the
      program leaves in force from the last location on. */
  datatype Table = Table(locs: seq<Word>, rows: seq<Row>, last: Result<Row>)

  /** The whole table, with no ip in mind: every change of location ends a row. */
  function BuildTable(env: Env, initial: Row, addr: int, end: int, s: State): (t: Table)
    ensures |t.locs| == |t.rows| + 1 && t.locs[0] == s.loc
    decreases end - addr
  {
    if addr >= end then Table([s.loc], [], Ok(s.row))
    else
      var d := Decode(env, addr);
      if d.Err? then Table([s.loc], [], Err(d.error))
      else
        var e := Exec(env, initial, d.value.0, s);
        if e.Err? then Table([s.loc], [], Err(e.error))
        else
          var t := BuildTable(env, initial, d.value.1, end, e.value);
          if d.value.0.Advance? || d.value.0.Goto? then Table([s.loc] + t.locs, [s.row] + t.rows, t.last)
          else t
  }

  /** The first row that ends past `ip`. */
  ghost predicate Covers(t: Table, j: nat, ip: Word)
    requires |t.locs| == |t.rows| + 1 && j < |t.rows|
  {
    ip < t.locs[j + 1] && forall i :: 0 <= i <= j ==> t.locs[i] <= ip
  }

  /** `ip` is past every location of the table. */
  ghost predicate PastEnd(t: Table, ip: Word) {
    forall i :: 0 <= i < |t.locs| ==> t.locs[i] <= ip
  }

  /** Running to an ip yields the row of the table that covers it: rows and errors
      beyond the covering row play no part. */
  lemma {:induction false} RunYieldsRow(env: Env, initial: Row, ip: Word, addr: int, end: int, s: State)
    requires s.loc <= ip
    ensures var t := BuildTable(env, initial, addr, end, s);
            var r := RowOf(RunFrom(env, initial, ip, addr, end, s));
            && (forall j :: 0 <= j < |t.rows| && Covers(t, j, ip) ==> r == Ok(t.rows[j]))
            && (PastEnd(t, ip) ==> r == t.last)
    decreases end - addr
  {
    hide Decode, Wrap;
    if addr < end && Decode(env, addr).Ok? {
      var (i, next) := Decode(env, addr).value;
      var e := Exec(env, initial, i, s);
      if e.Ok? {
        var t := BuildTable(env, initial, addr, end, s);
        var t' := BuildTable(env, initial, next, end, e.value);
        if i.Advance? || i.Goto? {
          RowAhead(env, initial, ip, addr, end, s, next, e.value);
        } else {
          RunYieldsRow(env, initial, ip, next, end, e.value);
        }
      }
    }
  }

  /** The case of an instruction that changes the location. */
  lemma RowAhead(env: Env, initial: Row, ip: Word, addr: int, end: int, s: State, next: int, s': State)
    requires s.loc <= ip && addr < end && Decode(env, addr).Ok? && Decode(env, addr).value.1 == next
    requires var i := Decode(env, addr).value.0; (i.Advance? || i.Goto?) && Exec(env, initial, i, s) == Ok(s')
    ensures var t := BuildTable(env, initial, addr, end, s);
            var r := RowOf(RunFrom(env, initial, ip, addr, end, s));
            && (forall j :: 0 <= j < |t.rows| && Covers(t, j, ip) ==> r == Ok(t.rows[j]))
            && (PastEnd(t, ip) ==> r == t.last)
    decreases end - addr, 0
  {
    hide Decode, Wrap;
    var t, t' := BuildTable(env, initial, addr, end, s), BuildTable(env, initial, next, end, s');
    var r := RowOf(RunFrom(env, initial, ip, addr, end, s));
    assert t.locs == [s.loc] + t'.locs && t.rows == [s.row] + t'.rows;
    if s'.loc <= ip {
      RunYieldsRow(env, initial, ip, next, end, s');
      forall j | 0 <= j < |t.rows| && Covers(t, j, ip)
        ensures r == Ok(t.rows[j])
      {
        assert j > 0;
        assert t'.locs[j] == t.locs[j + 1];
        forall k | 0 <= k <= j - 1
          ensures t'.locs[k] <= ip
        {
          assert t'.locs[k] == t.locs[k + 1];
        }
        assert Covers(t', j - 1, ip);
      }
      if PastEnd(t, ip) {
        forall k | 0 <= k < |t'.locs|
          ensures t'.locs[k] <= ip
        {
          assert t'.locs[k] == t.locs[k + 1];
        }
      }
    } else {
      assert t.locs[1] == s'.loc;
    }
  }

  /** No location of the table separates the two ips. */
  ghost predicate SameSide(t: Table, ip1: Word, ip2: Word) {
    forall i :: 0 <= i < |t.locs| ==> (t.locs[i] <= ip1 <==> t.locs[i] <= ip2)
  }

  /** All ips that no location separates get the same row. */
  lemma SameRow(env: Env, initial: Row, ip1: Word, ip2: Word, addr: int, end: int, s: State)
    requires SameSide(BuildTable(env, initial, addr, end, s), ip1, ip2) && s.loc <= ip1
    ensures RowOf(RunFrom(env, initial, ip1, addr, end, s)) == RowOf(RunFrom(env, initial, ip2, addr, end, s))
  {
    var t := BuildTable(env, initial, addr, end, s);
    assert t.locs[0] == s.loc && (t.locs[0] <= ip1 <==> t.locs[0] <= ip2);
    RunYieldsRow(env, initial, ip1, addr, end, s);
    RunYieldsRow(env, initial, ip2, addr, end, s);
    if !PastEnd(t, ip1) {
      var j := FirstPast(t, ip1);
      assert Covers(t, j, ip2);
    }
  }

  lemma FirstPast(t: Table, ip: Word) returns (j: nat)
    requires |t.locs| == |t.rows| + 1 && t.locs[0] <= ip && !PastEnd(t, ip)
    ensures j < |t.rows| && Covers(t, j, ip)
  {
    j := 0;
    while t.locs[j + 1] <= ip
      invariant j < |t.rows| && forall i :: 0 <= i <= j ==> t.locs[i] <= ip
      decreases |t.rows| - j
    {
      if j + 1 == |t.rows| {
        assert PastEnd(t, ip);
        assert false;
      }
      j := j + 1;
    }
  }

  /** When locations only increase, as section 6.4.1 requires, the covering row is
      the one whose interval contains the ip. */
  lemma CoversInterval(t: Table, j: nat, ip: Word)
    requires |t.locs| == |t.rows| + 1 && j < |t.rows|
    requires forall i, k :: 0 <= i < k < |t.locs| ==> t.locs[i] < t.locs[k]
    ensures Covers(t, j, ip) <==> t.locs[j] <= ip < t.locs[j + 1]
  {
  }

  // ----- instruction lists -----

  function Execs(env: Env, initial: Row, prog: seq<Instr>, s: State): Result<State>
  {
    if prog == [] then Ok(s)
    else
      var s' :- Exec(env, initial, prog[0], s);
      Execs(env, initial, prog[1..], s')
  }

  /** The bytes from `addr` to `end` are the encoding of `prog`. */
  ghost predicate Listing(env: Env, addr: int, end: int, prog: seq<Instr>)
    decreases |prog|
  {
    if prog == [] then addr >= end
    else
      && addr < end && Decode(env, addr).Ok?
      && Decode(env, addr).value.0 == prog[0] && Listing(env, Decode(env, addr).value.1, end, prog[1..])
  }

  /** No location reached on the way is past `ip`. */
  ghost predicate Uninterrupted(env: Env, initial: Row, prog: seq<Instr>, s: State, ip: Word)
  {
    prog != [] ==>
      && s.loc <= ip
      && (Exec(env, initial, prog[0], s).Ok? ==> Uninterrupted(env, initial, prog[1..], Exec(env, initial, prog[0], s).value, ip))
  }

  /** Without an early stop the loop executes the whole list. */
  lemma {:induction false} RunExecutes(env: Env, initial: Row, ip: Word, addr: int, end: int, prog: seq<Instr>, s: State)
    requires Listing(env, addr, end, prog)
    requires Uninterrupted(env, initial, prog, s, ip)
    ensures RunFrom(env, initial, ip, addr, end, s) == Execs(env, initial, prog, s)
    decreases |prog|
  {
    hide Decode, Wrap;
    if prog != [] {
      var e := Exec(env, initial, prog[0], s);
      if e.Ok? {
        RunExecutes(env, initial, ip, Decode(env, addr).value.1, end, prog[1..], e.value);
      }
    }
  }

  lemma {:induction false} ExecsAppend(env: Env, initial: Row, a: seq<Instr>, b: seq<Instr>, s: State)
    ensures Execs(env, initial, a + b, s)
            == var r := Execs(env, initial, a, s); if r.Err? then r else Execs(env, initial, b, r.value)
    decreases |a|
  {
    if a == [] {
      assert a + b == b;
    } else {
      assert (a + b)[1..] == a[1..] + b;
      var e := Exec(env, initial, a[0], s);
      if e.Ok? {
        ExecsAppend(env, initial, a[1..], b, e.value);
      }
    }
  }

  /** How deep the remembered states are after `prog`, from depth `d`; None when a
      restore has nothing of its own to restore. */
  function Nesting(prog: seq<Instr>, d: nat): Option<nat> {
    if prog == [] then Some(d)
    else if prog[0].Remember? then Nesting(prog[1..], d + 1)
    else if prog[0].RestoreState? then (if d == 0 then None else Nesting(prog[1..], d - 1))
    else Nesting(prog[1..], d)
  }

  predicate WellNested(prog: seq<Instr>) {
    Nesting(prog, 0) == Some(0)
  }

  /** What lies beneath a nested sequence is not touched. */
  lemma {:induction false} NestingKeepsBeneath(env: Env, initial: Row, prog: seq<Instr>, s: State, d: nat)
    requires d <= |s.stack| && Nesting(prog, d).Some? && Execs(env, initial, prog, s).Ok?
    ensures var s' := Execs(env, initial, prog, s).value; var d' := Nesting(prog, d).value;
            && |s'.stack| == |s.stack| - d + d'
            && s'.stack[d'..] == s.stack[d..]
    decreases |prog|
  {
    hide Wrap;
    if prog != [] {
      var s1 := Exec(env, initial, prog[0], s).value;
      NestingKeepsBeneath(env, initial, prog[1..], s1,
        if prog[0].Remember? then d + 1 else if prog[0].RestoreState? then d - 1 else d);
    }
  }

  /** remember; P; restore leaves every rule, both CFA columns and the stack beneath
      as they were, for every well-nested P, and fails exactly when P does. */
  lemma RememberRestore(env: Env, initial: Row, p: seq<Instr>, s: State)
    requires WellNested(p)
    ensures var r := Execs(env, initial, [Remember] + p + [RestoreState], s);
            var inner := Execs(env, initial, p, s.(stack := [s.row] + s.stack));
            && (r.Ok? <==> inner.Ok?)
            && (r.Ok? ==> r.value.row == s.row && r.value.stack == s.stack)
  {
    var s1 := s.(stack := [s.row] + s.stack);
    assert Exec(env, initial, Remember, s) == Ok(s1);
    ExecsAppend(env, initial, [Remember] + p, [RestoreState], s);
    ExecsAppend(env, initial, [Remember], p, s);
    assert Execs(env, initial, [], s1) == Ok(s1);
    assert Execs(env, initial, [Remember], s) == Ok(s1) by {
      assert [Remember][1..] == [];
    }
    var inner := Execs(env, initial, p, s1);
    if inner.Ok? {
      NestingKeepsBeneath(env, initial, p, s1, 0);
      assert [RestoreState][1..] == [];
      assert inner.value.stack == s1.stack;
    }
  }

  /** The same about bytes: a run over remember; P; restore that is not cut short. */
  lemma RunRememberRestore(env: Env, initial: Row, ip: Word, addr: int, end: int, p: seq<Instr>, s: State)
    requires Listing(env, addr, end, [Remember] + p + [RestoreState]) && WellNested(p)
    requires Uninterrupted(env, initial, [Remember] + p + [RestoreState], s, ip)
    requires RunFrom(env, initial, ip, addr, end, s).Ok?
    ensures var s' := RunFrom(env, initial, ip, addr, end, s).value; s'.row == s.row && s'.stack == s.stack
  {
    RunExecutes(env, initial, ip, addr, end, [Remember] + p + [RestoreState], s);
    RememberRestore(env, initial, p, s);
  }

  /** A restore yields the initial rule, whatever was executed before it. */
  lemma RestoreYieldsInitial(env: Env, initial: Row, prog: seq<Instr>, reg: nat, s: State)
    requires reg < NUM_REGS
    requires Execs(env, initial, prog + [Restore(reg)], s).Ok?
    ensures Execs(env, initial, prog + [Restore(reg)], s).value.row[reg] == initial[reg]
  {
    ExecsAppend(env, initial, prog, [Restore(reg)], s);
    assert [Restore(reg)][1..] == [];
  }

  // ----- what a program amounts to -----

  /** The rule that an instruction gives a column, if it does. */
  function Written(initial: Row, i: Instr, col: nat): Option<SaveLoc>
    requires col < 19
  {
    match i
    case SetRule(c, rule) => if c == col then Some(rule) else None
    case Restore(c) => if c == col then Some(initial[col]) else None
    case SetCfa(reg, off) =>
      if col == CFA_REG_COLUMN then Some(SaveLoc(Reg, reg))
      else if col == CFA_OFF_COLUMN then Some(SaveLoc(Undef, off))
      else None
    case _ => None
  }

  /** The last instruction that gives the column a rule decides. */
  function LastRule(initial: Row, prog: seq<Instr>, col: nat, was: SaveLoc): SaveLoc
    requires col < 19
  {
    if prog == [] then was
    else
      var n := |prog| - 1;
      var w := Written(initial, prog[n], col);
      if w.Some? then w.value else LastRule(initial, prog[..n], col, was)
  }

  /** The target of the last set_loc. */
  function Origin(prog: seq<Instr>, start: Word): Word {
    if prog == [] then start
    else
      var n := |prog| - 1;
      if prog[n].Goto? then prog[n].loc else Origin(prog[..n], start)
  }

  /** The sum of the advances behind it. */
  function Advances(prog: seq<Instr>): nat {
    if prog == [] then 0
    else
      var n := |prog| - 1;
      if prog[n].Goto? then 0 else Advances(prog[..n]) + if prog[n].Advance? then prog[n].count else 0
  }

  function LastArgs(prog: seq<Instr>, was: Word): Word {
    if prog == [] then was
    else
      var n := |prog| - 1;
      if prog[n].ArgsSize? then prog[n].size else LastArgs(prog[..n], was)
  }

  predicate NoState(prog: seq<Instr>) {
    forall i :: 0 <= i < |prog| ==> !prog[i].Remember? && !prog[i].RestoreState?
  }

  /** Without remembered states every program succeeds: each column has the rule given to it
      last, and the location is the code alignment factor times the advances past the last
      location set. */
  lemma {:induction false} AmountsTo(env: Env, initial: Row, prog: seq<Instr>, s: State)
    requires NoState(prog)
    ensures var r := Execs(env, initial, prog, s);
            && r.Ok?
            && (forall col :: 0 <= col < 19 ==> r.value.row[col] == LastRule(initial, prog, col, s.row[col]))
            && r.value.loc == Wrap(Origin(prog, s.loc) + env.codeAlign * Advances(prog))
            && r.value.argsSize == LastArgs(prog, s.argsSize) && r.value.stack == s.stack
    decreases |prog|
  {
    hide Wrap, Execs;
    if prog == [] {
      AmountsToNothing(env, initial, s);
    } else {
      var n := |prog| - 1;
      var front, i := prog[..n], prog[n];
      AmountsTo(env, initial, front, s);
      assert prog == front + [i];
      ExecsAppend(env, initial, front, [i], s);
      ExecsOne(env, initial, i, Execs(env, initial, front, s).value);
      LocationAdds(env.codeAlign, Origin(front, s.loc), Advances(front), if i.Advance? then i.count else 0);
      if i.Goto? {
        WrapSmall(i.loc);
      }
    }
  }

  lemma AmountsToNothing(env: Env, initial: Row, s: State)
    ensures Execs(env, initial, [], s) == Ok(s) && Wrap(s.loc) == s.loc
  {
  }

  lemma ExecsOne(env: Env, initial: Row, i: Instr, s: State)
    ensures Execs(env, initial, [i], s) == Exec(env, initial, i, s)
  {
    hide Exec;
    assert [i][1..] == [];
  }

  lemma LocationAdds(align: Word, origin: Word, a: nat, b: nat)
    ensures Wrap(Wrap(origin + align * a) + b * align) == Wrap(origin + align * (a + b))
  {
    assert align * (a + b) == align * a + b * align;
    WrapAdd(origin + align * a, b * align);
  }

  // ----- parse_fde -----

  /** The fields of `dwarf_cie_info_t` that locate the two programs. */
  datatype Programs = Programs(cieStart: int, cieEnd: int, fdeStart: int, fdeEnd: int, retCol: Word)

  /** Before the CIE program has run, the initial rules are zeroed memory. */
  const ZERO_ROW: Row := Uniform(SaveLoc(Undef, 0))

  /** The CIE program, run to its end from a row of unchanged registers. */
  function RunCie(env: Env, p: Programs, startIp: Word): Result<State> {
    RunFrom(env, ZERO_ROW, MAX_IP, p.cieStart, p.cieEnd, State(startIp, ALL_SAME, [], 0))
  }

  /** The state that `parse_fde` leaves for an ip. */
  function RunFde(env: Env, p: Programs, startIp: Word, ip: Word): Result<State> {
    var cie :- RunCie(env, p, startIp);
    RunFrom(env, cie.row, ip, p.fdeStart, p.fdeEnd, State(startIp, cie.row, [], cie.argsSize))
  }

  /** The CIE program is run to its end: no ip is past the largest address. */
  lemma {:induction false} CieRunsToEnd(env: Env, initial: Row, addr: int, end: int, s: State)
    ensures RowOf(RunFrom(env, initial, MAX_IP, addr, end, s)) == BuildTable(env, initial, addr, end, s).last
  {
    RunYieldsRow(env, initial, MAX_IP, addr, end, s);
  }
}
