/** Slow unwinding step by step, the one-word summary of a standard frame, and why
    replaying a summary equals interpreting the row (Gparser.c `apply_reg_state`,
    Gstep.c, Gstash_frame.c, Gtrace.c). */
module Trace {
  import opened Words
  import opened Rules

  // ----- slow unwinding -----

  /** Where a register was saved: its slot in the captured context, or memory.
      Memory address 0 is the null location. */
  datatype Loc = Context(value: Word) | At(addr: Word)

  predicate IsNull(loc: Loc) {
    loc == At(0)
  }

  /** The part of the cursor that the call chain depends on. */
  datatype Slow = Slow(ip: Word, cfa: Word, rbpLoc: Loc)

  /** A stashed frame. Nothing in the repository classifies a frame as a signal return. */
  type Summary = f: Frame | f.frameType != Sigreturn
    witness Frame(0, Other, true, true, 0, -1, -1)

  /** What a step without plain info stashes, and whether it turned validation on. */
  datatype Guess = Guess(frame: Summary, validate: bool)

  /** What unwinding runs on. `info` gives the row for an ip when it has plain DWARF
      info; steps from other ips are opaque. `evaluates` holds of rows whose expressions
      evaluate whatever the registers are. */
  datatype Env = Env(
    info: Word -> Option<Row>, mem: Word -> Word, evaluates: Row -> bool, guess: (Word, Word, Word) -> Guess)

  const PAGE_SIZE: Word := 4096

  /** `dwarf_get` with validation on: the first page holds nothing. */
  function Get(env: Env, loc: Loc): Result<Word> {
    match loc
    case Context(v) => Ok(v)
    case At(a) => if a == 0 then Err(BadReg) else if a < PAGE_SIZE then Err(Unspec) else Ok(env.mem(a))
  }

  /** Plain rows: the CFA is RBP or RSP plus an offset, the return address is
      CFA-relative, and RBP is undefined, unchanged or CFA-relative. Other registers may
      have any rule. */
  predicate Plain(row: Row) {
    && row[CFA_REG_COLUMN].where == Reg
    && (row[CFA_REG_COLUMN].val == RBP || row[CFA_REG_COLUMN].val == RSP)
    && row[RIP].where == CfaRel
    && (row[RBP].where == Undef || row[RBP].where == Same || row[RBP].where == CfaRel)
  }

  predicate NoExpressions(row: Row) {
    forall i :: 0 <= i < NUM_REGS ==> row[i].where != Expr
  }

  /** The outcome of a step: a frame (return 1), the end of the chain (return 0), or
      an error. */
  datatype StepResult = Go(s: Slow) | End(s: Slow) | Fail(error: Error)

  /** `apply_reg_state` on a plain row, up to its final test. Reading RSP returns the CFA. */
  function Applied(env: Env, row: Row, s: Slow): Result<Slow>
    requires Plain(row)
  {
    var base :- if row[CFA_REG_COLUMN].val == RSP then Ok(s.cfa) else Get(env, s.rbpLoc);
    var cfa := Wrap(base + row[CFA_OFF_COLUMN].val);
    var rbpLoc := match row[RBP].where
      case Undef => At(0)
      case CfaRel => At(Wrap(cfa + row[RBP].val))
      case _ => s.rbpLoc;
    var raLoc := At(Wrap(cfa + row[RIP].val));
    var ip :- if IsNull(raLoc) then Ok(0) else Get(env, raLoc);
    Ok(Slow(ip, cfa, rbpLoc))
  }

  /** `unw_step` where DWARF info is plain. */
  function SlowStep(env: Env, row: Row, s: Slow): StepResult
    requires Plain(row)
  {
    var r := Applied(env, row, s);
    if r.Err? then Fail(r.error)
    else if r.value.ip == s.ip && r.value.cfa == s.cfa then Fail(BadFrame)
    else if IsNull(r.value.rbpLoc) then End(r.value.(ip := 0)) // a null RBP ends the chain
    else Go(r.value)
  }

  predicate HasInfo(env: Env, ip: Word) {
    env.info(ip).Some? &&
    var row := env.info(ip).value; Plain(row) && (NoExpressions(row) || env.evaluates(row))
  }

  /** The cursor after `n` successful steps, all of them on plain info. */
  function Walk(env: Env, s: Slow, n: nat): Option<Slow> {
    if n == 0 then Some(s)
    else
      var t := Walk(env, s, n - 1);
      if t.None? || !HasInfo(env, t.value.ip) then None
      else
        var r := SlowStep(env, env.info(t.value.ip).value, t.value);
        if r.Go? then Some(r.s) else None
  }

  // ----- the one-word summary -----

  datatype FrameType = Standard | Sigreturn | Other | Guessed

  /** `unw_tdep_frame_t`, with its bit-fields. */
  datatype Frame = Frame(
    virtualAddress: Word, frameType: FrameType, lastFrame: bool, cfaRegRsp: bool,
    cfaRegOffset: int, rbpCfaOffset: int, rspCfaOffset: int)

  const EMPTY_FRAME: Frame := Frame(0, Other, true, true, 0, -1, -1)

  /** Assignment to a signed bit-field of 30 or 15 bits. */
  function Field30(x: int): int {
    (x + 0x2000_0000) % 0x4000_0000 - 0x2000_0000
  }

  function Field15(x: int): int {
    (x + 0x4000) % 0x8000 - 0x4000
  }

  /** `labs` as two's complement hardware computes it: the least number has no
      absolute value and is returned unchanged. */
  function Labs(x: int): int {
    if x == -TWO_63 then x else if x < 0 then -x else x
  }

  /** How a register other than the CFA may be saved in a standard frame. */
  predicate SmallRule(rule: SaveLoc) {
    || rule.where == Undef || rule.where == Same
    || (rule.where == CfaRel && Labs(Signed(rule.val)) < 0x4000 && Wrap(rule.val + 1) != 0)
  }

  /** The test of `tdep_stash_frame`, with the return-address location given. */
  predicate IsStandard(row: Row, raLoc: Word, cfa: Word) {
    && row[CFA_REG_COLUMN].where == Reg
    && (row[CFA_REG_COLUMN].val == RBP || row[CFA_REG_COLUMN].val == RSP)
    && Labs(Signed(row[CFA_OFF_COLUMN].val)) < 0x2000_0000
    && raLoc == Wrap(cfa - 8)
    && SmallRule(row[RBP]) && SmallRule(row[RSP])
  }

  /** The packing of `tdep_stash_frame`. */
  function Pack(row: Row, f: Frame): Frame {
    f.(frameType := Standard,
       cfaRegRsp := row[CFA_REG_COLUMN].val == RSP,
       cfaRegOffset := Field30(Signed(row[CFA_OFF_COLUMN].val)),
       rbpCfaOffset := if row[RBP].where == CfaRel then Field15(Signed(row[RBP].val)) else f.rbpCfaOffset,
       rspCfaOffset := if row[RSP].where == CfaRel then Field15(Signed(row[RSP].val)) else f.rspCfaOffset)
  }

  /** `tdep_stash_frame`. */
  function Stash(row: Row, raLoc: Word, cfa: Word, f: Frame): Frame {
    if f.frameType == Other && IsStandard(row, raLoc, cfa) then Pack(row, f) else f
  }

  /** A frame about which nothing is known yet (`trace_init_addr`). */
  function UnknownFrame(rip: Word): Frame {
    Frame(rip, Other, false, true, 0, -1, -1)
  }

  /** `trace_init_addr`: one step from the given registers. The step undoes the
      decrement of `rip` by `usePrev`. */
  function InitFrame(env: Env, cfa: Word, rip: Word, usePrev: int, rbp: Word): Frame {
    var ip := Wrap(rip + usePrev);
    if !HasInfo(env, ip) then env.guess(cfa, ip, rbp).frame.(virtualAddress := rip)
    else
      var row := env.info(ip).value;
      var s := Slow(ip, cfa, Context(rbp));
      var a := Applied(env, row, s);
      var r := SlowStep(env, row, s);
      if r.Fail? then UnknownFrame(rip)
      else
        var f := Stash(row, Wrap(a.value.cfa + row[RIP].val), a.value.cfa, UnknownFrame(rip));
        f.(lastFrame := r.End?)
  }

  // ----- packing -----

  /** The bounds of the test make the packing lossless, with one exception each: the
      least 64-bit number passes the test and is packed as 0. */
  lemma PackingLossless(x: int)
    requires -TWO_63 <= x < TWO_63
    ensures Labs(x) < 0x2000_0000 ==> (Field30(x) == x <==> x != -TWO_63)
    ensures Labs(x) < 0x4000 ==> (Field15(x) == x <==> x != -TWO_63)
    ensures Labs(x) < 0x2000_0000 && x == -TWO_63 ==> Field30(x) == 0
    ensures Labs(x) < 0x4000 && x == -TWO_63 ==> Field15(x) == 0
  {
  }

  /** No packed offset is mistaken for the sentinel -1. */
  lemma SentinelFree(rule: SaveLoc)
    requires SmallRule(rule) && rule.where == CfaRel
    ensures Field15(Signed(rule.val)) != -1
  {
  }

  /** A standard frame without saved registers, its CFA at RSP. */
  const BARE_ROW: Row := ALL_SAME[CFA_REG_COLUMN := SaveLoc(Reg, RSP)][RIP := SaveLoc(CfaRel, 0xffff_ffff_ffff_fff8)]

  /** An offset of -2^63, of the CFA, of RBP or of RSP: the row is classified standard and
      the offset is packed as 0. */
  lemma LossyOffset(cfa: Word, rip: Word)
    ensures var row := BARE_ROW[CFA_OFF_COLUMN := SaveLoc(Undef, TWO_63)];
            var f := Stash(row, Wrap(cfa + row[RIP].val), cfa, UnknownFrame(rip));
            f.frameType == Standard && f.cfaRegOffset == 0
    ensures var row := BARE_ROW[RBP := SaveLoc(CfaRel, TWO_63)];
            var f := Stash(row, Wrap(cfa + row[RIP].val), cfa, UnknownFrame(rip));
            f.frameType == Standard && f.rbpCfaOffset == 0
    ensures var row := BARE_ROW[RSP := SaveLoc(CfaRel, TWO_63)];
            var f := Stash(row, Wrap(cfa + row[RIP].val), cfa, UnknownFrame(rip));
            f.frameType == Standard && f.rspCfaOffset == 0
  {
  }

  /** A bit-field holds the one number of its range that is congruent to what was
      assigned. */
  lemma FieldMeaning(x: int)
    ensures -0x2000_0000 <= Field30(x) < 0x2000_0000 && (x - Field30(x)) % 0x4000_0000 == 0
    ensures -0x4000 <= Field15(x) < 0x4000 && (x - Field15(x)) % 0x8000 == 0
  {
  }

  /** An offset that a 30-bit or 15-bit field takes: one that survives and is not the
      field's least value, or -2^63. */
  predicate Takes30(x: int) {
    x == -TWO_63 || (Field30(x) == x && x != -0x2000_0000)
  }

  predicate Takes15(x: int) {
    x == -TWO_63 || (Field15(x) == x && x != -0x4000)
  }

  /** How RBP or RSP may be saved: not at all, or at an offset that the field takes and that
      is not the mark for "not saved". */
  predicate Packs(rule: SaveLoc) {
    match rule.where
    case Undef => true
    case Same => true
    case CfaRel => Takes15(Signed(rule.val)) && Signed(rule.val) != -1
    case _ => false
  }

  /** Exactly these rows are summarised as standard frames, wherever the return address is
      found: the CFA is an offset from RBP or RSP, the return address is at CFA - 8, and the
      fields take the offsets. For a rule relative to the CFA the rule alone decides. */
  lemma StandardExactly(row: Row, raLoc: Word, cfa: Word, rip: Word)
    ensures Stash(row, raLoc, cfa, UnknownFrame(rip)).frameType == Standard <==>
            && row[CFA_REG_COLUMN].where == Reg && row[CFA_REG_COLUMN].val in {RBP, RSP}
            && raLoc == Wrap(cfa - 8)
            && Takes30(Signed(row[CFA_OFF_COLUMN].val)) && Packs(row[RBP]) && Packs(row[RSP])
    ensures raLoc == Wrap(cfa + row[RIP].val) ==> (raLoc == Wrap(cfa - 8) <==> Signed(row[RIP].val) == -8)
  {
    hide SmallRule, Packs, Takes30, Labs, Signed, Wrap, Field30, Field15;
    OffsetTaken(row[CFA_OFF_COLUMN].val);
    RulePacks(row[RBP]);
    RulePacks(row[RSP]);
    AtMinusEight(row[RIP].val, cfa);
  }

  lemma OffsetTaken(v: Word)
    ensures Labs(Signed(v)) < 0x2000_0000 <==> Takes30(Signed(v))
  {
  }

  lemma RulePacks(rule: SaveLoc)
    ensures SmallRule(rule) <==> Packs(rule)
  {
  }

  lemma AtMinusEight(v: Word, cfa: Word)
    ensures Wrap(cfa + v) == Wrap(cfa - 8) <==> Signed(v) == -8
  {
    WrapCancel(v, cfa);
  }

  // ----- agreement of summaries with rows -----

  /** Standard by its row alone: the return address is saved at CFA - 8. */
  predicate StandardRow(row: Row) {
    Plain(row) && IsStandard(row, Wrap(row[RIP].val), 0)
  }

  /** No offset of the row is the least 64-bit number. */
  predicate Packable(row: Row) {
    row[CFA_OFF_COLUMN].val != TWO_63 && (row[RBP].where == CfaRel ==> row[RBP].val != TWO_63)
  }

  /** A filled slot of the trace cache tells nothing wrong: a standard frame has the
      row's summary, and is last if the row ends the chain. */
  ghost predicate Agrees(env: Env, f: Frame) {
    var ip := Wrap(f.virtualAddress + 1);
    && f.frameType != Sigreturn
    && (HasInfo(env, ip) ==>
      var row := env.info(ip).value;
      && (f.frameType == Standard || f.frameType == Other)
      && (f.frameType == Standard ==>
            StandardRow(row) && f == Pack(row, UnknownFrame(f.virtualAddress)).(lastFrame := f.lastFrame))
      && (f.frameType == Standard && row[RBP].where == Undef ==> f.lastFrame))
  }

  /** And it tells all there is to tell. */
  ghost predicate Complete(env: Env, f: Frame) {
    var ip := Wrap(f.virtualAddress + 1);
    HasInfo(env, ip) ==>
      && (StandardRow(env.info(ip).value) ==> f.frameType == Standard)
      && (f.lastFrame <==> env.info(ip).value[RBP].where == Undef)
  }

  /** The location test of the stash does not depend on the CFA. */
  lemma StandardByRow(row: Row, cfa: Word)
    requires Plain(row)
    ensures IsStandard(row, Wrap(cfa + row[RIP].val), cfa) <==> StandardRow(row)
  {
    WrapCancel(row[RIP].val, cfa);
  }

  lemma WrapCancel(v: Word, cfa: Word)
    ensures Wrap(cfa + v) == Wrap(cfa - 8) <==> Wrap(v) == Wrap(0 - 8)
  {
  }

  /** Filling a slot for a return address keeps the cache truthful, whatever the
      registers. */
  lemma FillAgrees(env: Env, cfa: Word, rip: Word, usePrev: int, rbp: Word)
    ensures InitFrame(env, cfa, rip, usePrev, rbp).virtualAddress == rip
    ensures usePrev == 1 ==> Agrees(env, InitFrame(env, cfa, rip, usePrev, rbp))
  {
    hide IsStandard, Field30, Field15;
    var ip := Wrap(rip + usePrev);
    if HasInfo(env, ip) {
      var row := env.info(ip).value;
      var a := Applied(env, row, Slow(ip, cfa, Context(rbp)));
      if a.Ok? {
        StandardByRow(row, a.value.cfa);
      }
    }
  }

  /** The step from these registers is rejected: the return address cannot be read, or
      nothing would change. */
  predicate Rejected(env: Env, row: Row, cfa: Word, ip: Word, rbp: Word) {
    var next := Wrap((if row[CFA_REG_COLUMN].val == RSP then cfa else rbp) + row[CFA_OFF_COLUMN].val);
    var ra := Wrap(next + row[RIP].val);
    || 0 < ra < PAGE_SIZE
    || (next == cfa && (if ra == 0 then 0 else env.mem(ra)) == ip)
  }

  /** What a row says of its frame shows in a step from these registers. A rejected step
      shows nothing, which is right only for a row that is neither standard nor last; one
      that finds RBP saved at address 0 looks like the last. */
  predicate Telling(env: Env, cfa: Word, ip: Word, rbp: Word) {
    HasInfo(env, ip) ==>
      var row := env.info(ip).value;
      var next := Wrap((if row[CFA_REG_COLUMN].val == RSP then cfa else rbp) + row[CFA_OFF_COLUMN].val);
      if Rejected(env, row, cfa, ip, rbp) then !StandardRow(row) && row[RBP].where != Undef
      else row[RBP].where == CfaRel ==> Wrap(next + row[RBP].val) != 0
  }

  /** How the step from these registers ends. */
  lemma StepShows(env: Env, row: Row, cfa: Word, ip: Word, rbp: Word)
    requires Plain(row)
    ensures var step := SlowStep(env, row, Slow(ip, cfa, Context(rbp)));
            var next := Wrap((if row[CFA_REG_COLUMN].val == RSP then cfa else rbp) + row[CFA_OFF_COLUMN].val);
            && (step.Fail? <==> Rejected(env, row, cfa, ip, rbp))
            && (step.End? <==> !step.Fail? && (row[RBP].where == Undef ||
                                               (row[RBP].where == CfaRel && Wrap(next + row[RBP].val) == 0)))
            && (!step.Fail? ==> Applied(env, row, Slow(ip, cfa, Context(rbp))).Ok?)
  {
    hide Wrap;
  }

  /** A slot is filled completely exactly if the step that fills it is telling. */
  lemma FillComplete(env: Env, cfa: Word, rip: Word, rbp: Word)
    ensures Complete(env, InitFrame(env, cfa, rip, 1, rbp)) <==> Telling(env, cfa, Wrap(rip + 1), rbp)
  {
    var ip := Wrap(rip + 1);
    if HasInfo(env, ip) {
      var row := env.info(ip).value;
      StepShows(env, row, cfa, ip, rbp);
      hide IsStandard, Field30, Field15, Rejected, SlowStep, Applied;
      var a := Applied(env, row, Slow(ip, cfa, Context(rbp)));
      if a.Ok? {
        StandardByRow(row, a.value.cfa);
      }
    }
  }

  // ----- one round of the fast trace -----

  /** The registers of the fast trace. */
  datatype Fast = Fast(cfa: Word, rip: Word, rbp: Word, rsp: Word)

  /** Advancing over a standard frame (Gtrace.c:468-480). */
  function FastStep(env: Env, f: Frame, r: Fast): Fast {
    var cfa := Wrap((if f.cfaRegRsp then r.rsp else r.rbp) + f.cfaRegOffset);
    Fast(cfa, env.mem(Wrap(cfa - 8)),
         if f.rbpCfaOffset != -1 then env.mem(Wrap(cfa + f.rbpCfaOffset)) else r.rbp,
         cfa)
  }

  /** The fast registers stand for the slow cursor. */
  ghost predicate StandsFor(env: Env, s: Slow, r: Fast) {
    r.rip == s.ip && r.cfa == s.cfa == r.rsp && Get(env, s.rbpLoc) == Ok(r.rbp)
  }

  /** Nothing unusual at this cursor: RBP can be read and the step is telling. Where the
      row is standard, it packs, the slots it names are outside the first page, and the
      step is not rejected as unchanged. */
  ghost predicate Regular(env: Env, s: Slow) {
    HasInfo(env, s.ip) && Get(env, s.rbpLoc).Ok? && Telling(env, s.cfa, s.ip, Get(env, s.rbpLoc).value) &&
    var row := env.info(s.ip).value;
    StandardRow(row) ==>
      && Packable(row)
      && var a := Applied(env, row, s);
         && a.Ok? && Wrap(a.value.cfa - 8) >= PAGE_SIZE
         && (row[RBP].where == CfaRel ==> Wrap(a.value.cfa + row[RBP].val) >= PAGE_SIZE)
         && !(a.value.ip == s.ip && a.value.cfa == s.cfa)
  }

  /** A frame of moderate size: every offset is within its field's range, the return address
      is at CFA - 8, the slots are outside the first page, and the step leads to another
      frame, at an address that is not bogus. */
  ghost predicate Moderate(env: Env, s: Slow) {
    HasInfo(env, s.ip) && Get(env, s.rbpLoc).Ok? &&
    var row := env.info(s.ip).value;
    var base := if row[CFA_REG_COLUMN].val == RSP then s.cfa else Get(env, s.rbpLoc).value;
    var cfa := Wrap(base + row[CFA_OFF_COLUMN].val);
    && -0x2000_0000 < Signed(row[CFA_OFF_COLUMN].val) < 0x2000_0000
    && Signed(row[RIP].val) == -8 && row[RBP].where != Undef
    && SavedNear(row[RBP]) && SavedNear(row[RSP])
    && Wrap(cfa - 8) >= PAGE_SIZE && (row[RBP].where == CfaRel ==> Wrap(cfa + row[RBP].val) >= PAGE_SIZE)
    && env.mem(Wrap(cfa - 8)) >= 0x4000 && (env.mem(Wrap(cfa - 8)) == s.ip ==> cfa != s.cfa)
  }

  predicate SavedNear(rule: SaveLoc) {
    || rule.where == Undef || rule.where == Same
    || (rule.where == CfaRel && -0x4000 < Signed(rule.val) < 0x4000 && Signed(rule.val) != -1)
  }

  /** Adding a packed offset is adding the rule's offset. */
  lemma AddOffset(base: Word, v: Word)
    ensures Wrap(base + Signed(v)) == Wrap(base + v)
  {
  }

  lemma PackedOffset(base: Word, v: Word)
    requires v != TWO_63
    ensures Labs(Signed(v)) < 0x2000_0000 ==> Wrap(base + Field30(Signed(v))) == Wrap(base + v)
    ensures Labs(Signed(v)) < 0x4000 ==> Wrap(base + Field15(Signed(v))) == Wrap(base + v)
  {
    AddOffset(base, v);
  }

  /** Replaying a truthful standard summary is taking the slow step. */
  lemma RoundAgrees(env: Env, f: Frame, s: Slow, r: Fast)
    requires StandsFor(env, s, r) && Regular(env, s) && Agrees(env, f)
    requires f.virtualAddress == Wrap(s.ip - 1) && f.frameType == Standard && !f.lastFrame
    ensures var step := SlowStep(env, env.info(s.ip).value, s);
            step.Go? && StandsFor(env, step.s, FastStep(env, f, r))
  {
    hide Field30, Field15, Labs, Signed, Telling;
    PredSucc(s.ip);
    var row := env.info(s.ip).value;
    var a := Applied(env, row, s).value;
    PackedOffset(if row[CFA_REG_COLUMN].val == RSP then s.cfa else r.rbp, row[CFA_OFF_COLUMN].val);
    if row[RBP].where == CfaRel {
      PackedOffset(a.cfa, row[RBP].val);
      SentinelFree(row[RBP]);
    }
    StandardByRow(row, a.cfa);
  }

  lemma PredSucc(ip: Word)
    ensures Wrap(Wrap(ip - 1) + 1) == ip
  {
  }
}
