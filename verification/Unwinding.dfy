/** From the bytes of a CIE and an FDE to the row for an ip: what a serialiser and an
    assembler write is what the parser and the call-frame machine recover. */
module Unwinding {
  import opened Words
  import opened Rules
  import Leb128
  import P = Pointers
  import opened FrameInfo
  import opened FrameRoundTrip
  import opened Cfi
  import opened CfiAssembler
  import S = FrameSearch

  // ----- instruction lists up to an ip -----

  /** The instructions up to the first location past `ip`. */
  function ExecsUntil(env: Env, initial: Row, prog: seq<Instr>, s: State, ip: Word): Result<State> {
    if s.loc > ip || prog == [] then Ok(s)
    else
      var s' :- Exec(env, initial, prog[0], s);
      ExecsUntil(env, initial, prog[1..], s', ip)
  }

  /** The loop over bytes is the loop over the list that they encode. */
  lemma {:induction false} RunListing(env: Env, initial: Row, ip: Word, addr: int, end: int, prog: seq<Instr>, s: State)
    requires Listing(env, addr, end, prog)
    ensures RunFrom(env, initial, ip, addr, end, s) == ExecsUntil(env, initial, prog, s, ip)
    decreases |prog|
  {
    hide Decode, Wrap;
    if prog != [] && s.loc <= ip {
      var e := Exec(env, initial, prog[0], s);
      if e.Ok? {
        RunListing(env, initial, ip, Decode(env, addr).value.1, end, prog[1..], e.value);
      }
    }
  }

  /** No location is past the largest address. */
  lemma {:induction false} UntilMax(env: Env, initial: Row, prog: seq<Instr>, s: State)
    ensures ExecsUntil(env, initial, prog, s, MAX_IP) == Execs(env, initial, prog, s)
    decreases |prog|
  {
    hide Wrap;
    if prog != [] && Exec(env, initial, prog[0], s).Ok? {
      UntilMax(env, initial, prog[1..], Exec(env, initial, prog[0], s).value);
    }
  }

  // ----- where the instructions of a record are -----

  ghost predicate EndsWith(s: seq<Byte>, t: seq<Byte>) {
    |t| <= |s| && s[|s| - |t|..] == t
  }

  lemma EndsCat(a: seq<Byte>, b: seq<Byte>, t: seq<Byte>)
    requires EndsWith(b, t)
    ensures EndsWith(a + b, t)
  {
  }

  lemma HoldsEnd(mem: Memory, addr: int, s: seq<Byte>, at: int, t: seq<Byte>)
    requires Holds(mem, addr, s) && EndsWith(s, t) && at + |t| == addr + |s|
    ensures Holds(mem, at, t)
  {
    assert s == s[..|s| - |t|] + t;
    HoldsSplit(mem, addr, s[..|s| - |t|], t);
  }

  /** The augmentation leaves the positions, the factors and the return column alone. */
  lemma {:induction false} RecoveredKeeps(augs: seq<Aug>, info: CieInfo)
    ensures var r := Recovered(augs, info);
            && r.cieStart == info.cieStart && r.cieEnd == info.cieEnd
            && r.codeAlign == info.codeAlign && r.dataAlign == info.dataAlign && r.retCol == info.retCol
  {
    if augs != [] {
      RecoveredKeeps(augs[1..], Effect(augs[0], info));
    }
  }

  /** What the meaning of a CIE says about its programs. */
  lemma MeaningFields(cie: Cie, addr: int, base: int)
    requires LengthsOk(cie)
    ensures var info, data := CieMeaning(cie, addr, base), AugDataAddr(cie, BodyAddr(cie.wide, addr));
            && info.cieStart == data + |AugData(cie.augs)| && info.cieEnd == addr + |CieRecord(cie, base)|
            && info.codeAlign == cie.codeAlign && info.dataAlign == Wrap(cie.dataAlign) && info.retCol == cie.retCol
  {
    hide Wrap, CieRecord, AugData, AugDataAddr, Recovered, BodyAddr;
    var body := BodyAddr(cie.wide, addr);
    var data := AugDataAddr(cie, body);
    RecoveredKeeps(cie.augs, CieInfo(data + |AugData(cie.augs)|, addr + |CieRecord(cie, base)|, 0, 0, cie.codeAlign,
                                     Wrap(cie.dataAlign), cie.retCol, 0, P.PE_UDATA8, P.PE_OMIT, cie.sized, false, false));
  }

  /** The instructions of a CIE are the end of its record, and the parser finds them. */
  lemma CieInstructions(mem: Memory, cie: Cie, addr: int, base: int, bases: P.Bases)
    requires CieWritten(mem, cie, addr, base, bases)
    ensures var info := CieMeaning(cie, addr, base);
            && info.cieEnd == info.cieStart + |cie.instrs| && Holds(mem, info.cieStart, cie.instrs)
            && info.codeAlign == cie.codeAlign && info.dataAlign == Wrap(cie.dataAlign) && info.retCol == cie.retCol
  {
    CieWrittenParts(mem, cie, addr, base, bases);
    hide *;
    MeaningFields(cie, addr, base);
    CieEnds(cie, addr, base);
    HoldsEnd(mem, addr, CieRecord(cie, base), CieMeaning(cie, addr, base).cieStart, cie.instrs);
  }

  lemma EndsFour(a: seq<Byte>, b: seq<Byte>, c: seq<Byte>, d: seq<Byte>, t: seq<Byte>)
    ensures EndsWith(a + (b + (c + (d + t))), t)
    ensures |a + (b + (c + (d + t)))| == |a| + |b| + |c| + |d| + |t|
  {
    EndsCat(d, t, t);
    EndsCat(c, d + t, t);
    EndsCat(b, c + (d + t), t);
    EndsCat(a, b + (c + (d + t)), t);
  }

  lemma AugLength(cie: Cie)
    requires LengthsOk(cie)
    ensures |AugBody(cie)| == (if cie.sized then cie.sizeLen else 0) + |AugData(cie.augs)|
  {
    hide Leb128.EncodeLeb;
  }

  lemma FactorsEnd(cie: Cie)
    requires LengthsOk(cie)
    ensures EndsWith(FactorBytes(cie), cie.instrs)
    ensures |FactorBytes(cie)| == cie.codeLen + cie.dataLen + |ReturnColumn(cie)| + |AugBody(cie)| + |cie.instrs|
  {
    hide Leb128.EncodeLeb, ReturnColumn, AugBody, EndsWith;
    EndsFour(Leb128.EncodeLeb(cie.codeAlign, cie.codeLen), Leb128.EncodeLeb(cie.dataAlign, cie.dataLen), ReturnColumn(cie),
             AugBody(cie), cie.instrs);
  }

  lemma CieEnds(cie: Cie, addr: int, base: int)
    requires LengthsOk(cie)
    ensures EndsWith(CieRecord(cie, base), cie.instrs)
    ensures var data := AugDataAddr(cie, BodyAddr(cie.wide, addr));
            addr + |CieRecord(cie, base)| == data + |AugData(cie.augs)| + |cie.instrs|
  {
    hide AugBody, FactorBytes, ReturnColumn, AugString, AugData, EndsWith, Record, ExpectedId;
    FactorsEnd(cie);
    AugLength(cie);
    var factors := FactorBytes(cie);
    EndsCat([0], factors, cie.instrs);
    EndsCat(AugString(cie), [0] + factors, cie.instrs);
    EndsCat([cie.version], AugString(cie) + ([0] + factors), cie.instrs);
    RecordEnds(cie.wide, ExpectedId(Width(cie.wide), base), CieBody(cie), cie.instrs);
  }

  lemma RecordEnds(wide: bool, id: Word, body: seq<Byte>, t: seq<Byte>)
    requires EndsWith(body, t)
    ensures EndsWith(Record(wide, id, body), t)
    ensures |Record(wide, id, body)| == IdOffset(wide) + Width(wide) + |body|
  {
    hide LittleBytes;
  }

  lemma FdeEnds(fde: Fde, info: CieInfo)
    requires fde.sizeLen > 0
    ensures EndsWith(FdeBytes(fde, info), fde.instrs)
    ensures |FdeBytes(fde, info)| == |fde.start.bytes| + |fde.range.bytes| + |FdeAug(fde, info)| + |fde.instrs|
  {
    hide FdeAug, EndsWith;
    var aug := FdeAug(fde, info);
    EndsFour([], fde.start.bytes, fde.range.bytes, aug, fde.instrs);
    assert [] + (fde.start.bytes + (fde.range.bytes + (aug + fde.instrs))) == FdeBytes(fde, info);
  }

  lemma FdeMeaningFields(fde: Fde, info: CieInfo, addr: int, end: int, pi: ProcInfo)
    requires fde.sizeLen > 0
    ensures var pi' := FdeMeaning(fde, info, addr, end, pi, true);
            && pi'.startIp == fde.start.target && pi'.info.Some?
            && pi'.info.value.fdeStart == FdeAugAddr(fde, addr) + |FdeAug(fde, info)| && pi'.info.value.fdeEnd == end
            && pi'.info.value.cieStart == info.cieStart && pi'.info.value.cieEnd == info.cieEnd
            && pi'.info.value.dataAlign == info.dataAlign
  {
    hide FdeAug, FdeAugAddr, Wrap;
  }

  /** The instructions of an FDE are the end of its record, and the parser finds them. */
  lemma FdeInstructions(mem: Memory, fde: Fde, info: CieInfo, addr: int, offset: int, pi: ProcInfo, end: int, pi': ProcInfo)
    requires FdeWritten(mem, fde, info, addr, offset, BasesOf(pi)) && end == addr + |FdeRecord(fde, info, offset)|
    requires pi' == FdeMeaning(fde, info, BodyAddr(fde.wide, addr), end, pi, true)
    ensures pi'.startIp == fde.start.target && pi'.info.Some?
    ensures pi'.info.value.fdeEnd == pi'.info.value.fdeStart + |fde.instrs|
    ensures Holds(mem, pi'.info.value.fdeStart, fde.instrs)
  {
    FdeWrittenParts(mem, fde, info, addr, offset, BasesOf(pi));
    hide *;
    var record := FdeRecord(fde, info, offset);
    FdeRecordEnds(fde, info, addr, offset);
    FdeMeaningFields(fde, info, BodyAddr(fde.wide, addr), end, pi);
    HoldsEnd(mem, addr, record, pi'.info.value.fdeStart, fde.instrs);
  }

  lemma FdeRecordEnds(fde: Fde, info: CieInfo, addr: int, offset: int)
    requires fde.sizeLen > 0
    ensures EndsWith(FdeRecord(fde, info, offset), fde.instrs)
    ensures addr + |FdeRecord(fde, info, offset)|
            == FdeAugAddr(fde, BodyAddr(fde.wide, addr)) + |FdeAug(fde, info)| + |fde.instrs|
  {
    hide FdeBytes, FdeAug, EndsWith, Record, StoredOffset;
    FdeEnds(fde, info);
    RecordEnds(fde.wide, StoredOffset(fde.wide, offset), FdeBytes(fde, info), fde.instrs);
  }

  // ----- end to end -----

  /** The environment in which the programs of a parsed frame are run. */
  function EnvOf(mem: Memory, pi: ProcInfo, info: CieInfo): Env {
    Env(mem, info.codeAlign, info.dataAlign, info.fdeEncoding, BasesOf(pi))
  }

  function ProgramsOf(info: CieInfo): Programs {
    Programs(info.cieStart, info.cieEnd, info.fdeStart, info.fdeEnd, info.retCol)
  }

  /** A CIE and an FDE as a compiler writes them: the instruction bytes are assembled
      programs. `pi` is the proc-info that parsing the FDE yields. */
  ghost predicate Compiled(mem: Memory, pi: ProcInfo, cie: Cie, fde: Fde, cieProg: seq<Asm>, fdeProg: seq<Asm>) {
    pi.info.Some? &&
    var info := pi.info.value;
    var env := EnvOf(mem, pi, info);
    && ProgramOk(env, cieProg, info.cieStart) && AllUnderstood(env, cieProg, info.cieStart)
    && cie.instrs == AssembleAll(env, cieProg, info.cieStart)
    && ProgramOk(env, fdeProg, info.fdeStart) && AllUnderstood(env, fdeProg, info.fdeStart)
    && fde.instrs == AssembleAll(env, fdeProg, info.fdeStart)
  }

  /** What the standard says the row for `ip` is: the CIE program from a row of unchanged
      registers, and then the FDE program up to `ip`. */
  function RowFor(env: Env, cieProg: seq<Instr>, fdeProg: seq<Instr>, start: Word, ip: Word): Result<Row> {
    var cie :- Execs(env, ZERO_ROW, cieProg, State(start, ALL_SAME, [], 0));
    RowOf(ExecsUntil(env, cie.row, fdeProg, State(start, cie.row, [], cie.argsSize), ip))
  }

  /** Running two assembled programs yields that row. */
  lemma CompiledRuns(env: Env, p: Programs, cieProg: seq<Asm>, fdeProg: seq<Asm>, factor: int, start: Word, ip: Word)
    requires env.dataAlign == Wrap(factor)
    requires ProgramOk(env, cieProg, p.cieStart) && AllUnderstood(env, cieProg, p.cieStart)
    requires ProgramOk(env, fdeProg, p.fdeStart) && AllUnderstood(env, fdeProg, p.fdeStart)
    requires var bytes := AssembleAll(env, cieProg, p.cieStart);
             Holds(env.mem, p.cieStart, bytes) && p.cieEnd == p.cieStart + |bytes|
    requires var bytes := AssembleAll(env, fdeProg, p.fdeStart);
             Holds(env.mem, p.fdeStart, bytes) && p.fdeEnd == p.fdeStart + |bytes|
    ensures RowOf(RunFde(env, p, start, ip))
            == RowFor(env, Meanings(env, cieProg, p.cieStart, factor), Meanings(env, fdeProg, p.fdeStart, factor), start, ip)
  {
    hide ProgramOk, AllUnderstood, AssembleAll, Meanings, RunFrom, Execs, ExecsUntil, Wrap, Listing;
    AssembledListing(env, cieProg, p.cieStart, factor);
    AssembledListing(env, fdeProg, p.fdeStart, factor);
    var first := State(start, ALL_SAME, [], 0);
    var cieInstrs, fdeInstrs := Meanings(env, cieProg, p.cieStart, factor), Meanings(env, fdeProg, p.fdeStart, factor);
    RunListing(env, ZERO_ROW, MAX_IP, p.cieStart, p.cieEnd, cieInstrs, first);
    UntilMax(env, ZERO_ROW, cieInstrs, first);
    var c := Execs(env, ZERO_ROW, cieInstrs, first);
    if c.Ok? {
      RunListing(env, c.value.row, ip, p.fdeStart, p.fdeEnd, fdeInstrs, State(start, c.value.row, [], c.value.argsSize));
    }
  }

  /** Where the programs of a written FDE are. */
  lemma ProgramsHeld(mem: Memory, addr: int, cieAddr: int, cie: Cie, fde: Fde, base: int, pi: ProcInfo,
                     info: CieInfo, offset: int, pi': ProcInfo)
    requires CieWritten(mem, cie, cieAddr, base, BasesOf(pi)) && info == CieMeaning(cie, cieAddr, base)
    requires FdeWritten(mem, fde, info, addr, offset, BasesOf(pi))
    requires pi' == FdeMeaning(fde, info, BodyAddr(fde.wide, addr), addr + |FdeRecord(fde, info, offset)|, pi, true)
    ensures pi'.startIp == fde.start.target && pi'.info.Some? && pi'.info.value.dataAlign == Wrap(cie.dataAlign)
    ensures var p := pi'.info.value;
            && Holds(mem, p.cieStart, cie.instrs) && p.cieEnd == p.cieStart + |cie.instrs|
            && Holds(mem, p.fdeStart, fde.instrs) && p.fdeEnd == p.fdeStart + |fde.instrs|
  {
    CieWrittenParts(mem, cie, cieAddr, base, BasesOf(pi));
    FdeWrittenParts(mem, fde, info, addr, offset, BasesOf(pi));
    hide *;
    FdeMeaningFields(fde, info, BodyAddr(fde.wide, addr), addr + |FdeRecord(fde, info, offset)|, pi);
    CieInstructions(mem, cie, cieAddr, base, BasesOf(pi));
    FdeInstructions(mem, fde, info, addr, offset, pi, addr + |FdeRecord(fde, info, offset)|, pi');
  }

  /** Parsing the written FDE and running what was parsed yields the row that the
      instructions mean, for every ip. Here `info` is what the CIE means, `offset` is the
      distance to it, and `pi'` is the proc-info that the FDE means. */
  lemma EndToEnd(mem: Memory, addr: int, cieAddr: int, cie: Cie, fde: Fde, base: int, pi: ProcInfo,
                 cieProg: seq<Asm>, fdeProg: seq<Asm>, ip: Word, info: CieInfo, offset: int, pi': ProcInfo)
    requires CieWritten(mem, cie, cieAddr, base, BasesOf(pi)) && info == CieMeaning(cie, cieAddr, base)
    requires offset == CieOffset(fde.wide, addr, cieAddr, base) && OffsetOk(fde.wide, offset, base)
    requires FdeWritten(mem, fde, info, addr, offset, BasesOf(pi))
    requires info.abiMarker && info.sized ==> addr + |FdeRecord(fde, info, offset)| + 4 <= |mem|
    requires pi' == FdeMeaning(fde, info, BodyAddr(fde.wide, addr), addr + |FdeRecord(fde, info, offset)|, pi, true)
    requires Compiled(mem, pi', cie, fde, cieProg, fdeProg)
    ensures ExtractFde(mem, addr, pi, true, base) == Extracted(addr + |FdeRecord(fde, info, offset)|, pi', Ok(()))
    ensures var p, env := pi'.info.value, EnvOf(mem, pi', pi'.info.value);
            RowOf(RunFde(env, ProgramsOf(p), fde.start.target, ip))
            == RowFor(env, Meanings(env, cieProg, p.cieStart, cie.dataAlign), Meanings(env, fdeProg, p.fdeStart, cie.dataAlign),
                      fde.start.target, ip)
  {
    hide *;
    FdeRoundTrip(mem, addr, cieAddr, cie, fde, base, pi, true, info, offset);
    ProgramsHeld(mem, addr, cieAddr, cie, fde, base, pi, info, offset, pi');
    CompiledPrograms(mem, pi', cie, fde, cieProg, fdeProg, ip);
  }

  lemma CompiledPrograms(mem: Memory, pi: ProcInfo, cie: Cie, fde: Fde, cieProg: seq<Asm>, fdeProg: seq<Asm>, ip: Word)
    requires Compiled(mem, pi, cie, fde, cieProg, fdeProg) && pi.info.value.dataAlign == Wrap(cie.dataAlign)
    requires var p := pi.info.value;
             && Holds(mem, p.cieStart, cie.instrs) && p.cieEnd == p.cieStart + |cie.instrs|
             && Holds(mem, p.fdeStart, fde.instrs) && p.fdeEnd == p.fdeStart + |fde.instrs|
    ensures var p, env := pi.info.value, EnvOf(mem, pi, pi.info.value);
            RowOf(RunFde(env, ProgramsOf(p), fde.start.target, ip))
            == RowFor(env, Meanings(env, cieProg, p.cieStart, cie.dataAlign), Meanings(env, fdeProg, p.fdeStart, cie.dataAlign),
                      fde.start.target, ip)
  {
    hide ProgramOk, AllUnderstood, AssembleAll, Meanings, RunFde, RowFor, RowOf, Wrap, Holds;
    CompiledRuns(EnvOf(mem, pi, pi.info.value), ProgramsOf(pi.info.value), cieProg, fdeProg, cie.dataAlign, fde.start.target, ip);
  }

  // ----- an ordinary function -----

  /** The CIE program of an ordinary function: the CFA is RSP plus 8, the return address is
      saved below it. */
  const ENTRY: seq<Asm> := [DefCfa(Leb(7, 1), Leb(8, 1)), OffsetShort(16, Leb(1, 1))]

  /** Its FDE program, once RBP is pushed. */
  const PUSHED: seq<Asm> := [AdvanceLoc(1), DefCfaOffset(Leb(16, 1)), OffsetShort(6, Leb(2, 1))]

  const ENTRY_BYTES: seq<Byte> := [0x0c, 7, 8, 0x90, 1]
  const PUSHED_BYTES: seq<Byte> := [0x41, 0x0e, 16, 0x86, 2]

  /** The two programs, assembled anywhere. */
  lemma OrdinaryPrograms(env: Env, addr: int)
    ensures ProgramOk(env, ENTRY, addr) && AssembleAll(env, ENTRY, addr) == ENTRY_BYTES
    ensures ProgramOk(env, PUSHED, addr) && AssembleAll(env, PUSHED, addr) == PUSHED_BYTES
  {
    hide ProgramOk, AssembleAll;
    EntryProgram(env, addr);
    PushedProgram(env, addr);
  }

  lemma EntryProgram(env: Env, addr: int)
    ensures ProgramOk(env, ENTRY, addr) && AssembleAll(env, ENTRY, addr) == ENTRY_BYTES
  {
    OneUleb(7);
    OneUleb(8);
    OneUleb(1);
    hide Uleb, UnsignedOk, Scale, AssembleAll, ProgramOk, Pow2;
    AssembleNone(env, addr + 5);
    AssembleCons(env, ENTRY[1], [], [ENTRY[1]], addr + 3, addr + 5);
    AssembleCons(env, ENTRY[0], [ENTRY[1]], ENTRY, addr, addr + 3);
  }

  lemma PushedProgram(env: Env, addr: int)
    ensures ProgramOk(env, PUSHED, addr) && AssembleAll(env, PUSHED, addr) == PUSHED_BYTES
  {
    OneUleb(16);
    OneUleb(2);
    hide Uleb, UnsignedOk, Scale, AssembleAll, ProgramOk, Pow2;
    AssembleNone(env, addr + 5);
    AssembleCons(env, PUSHED[2], [], [PUSHED[2]], addr + 3, addr + 5);
    AssembleCons(env, PUSHED[1], [PUSHED[2]], [PUSHED[1], PUSHED[2]], addr + 1, addr + 3);
    AssembleCons(env, PUSHED[0], [PUSHED[1], PUSHED[2]], PUSHED, addr, addr + 1);
  }

  lemma AssembleNone(env: Env, addr: int)
    ensures ProgramOk(env, [], addr) && AssembleAll(env, [], addr) == []
  {
  }

  lemma AssembleCons(env: Env, a: Asm, rest: seq<Asm>, prog: seq<Asm>, addr: int, next: int)
    requires prog == [a] + rest && AsmOk(env, a, addr)
    requires next == Next(env, a, addr) && ProgramOk(env, rest, next)
    ensures ProgramOk(env, prog, addr) && AssembleAll(env, prog, addr) == Assemble(env, a, addr) + AssembleAll(env, rest, next)
  {
    hide AsmOk, Assemble, Next;
    assert prog[1..] == rest;
  }

  /** The CIE and the FDE of an ordinary function of any range. */
  function OrdinaryCie(): Cie {
    Cie(false, 1, false, [], 1, 1, -8, 1, RIP, 1, 1, ENTRY_BYTES)
  }

  function OrdinaryFde(start: Word, range: Word): Fde {
    Fde(false, Absolute(start), Absolute(range), P.Pointer([], 0, 0, 0), [], 1, PUSHED_BYTES)
  }

  /** An eight-byte absolute pointer. */
  function Absolute(w: Word): P.Pointer {
    P.Pointer(LittleBytes(w, 8), w, w, w)
  }

  /** The two records in memory, one after the other. */
  function OrdinaryMemory(start: Word, range: Word): Memory {
    var first := CieRecord(OrdinaryCie(), 0);
    first + FdeRecord(OrdinaryFde(start, range), CieMeaning(OrdinaryCie(), 0, 0), |first| + 4)
  }

  lemma OrdinaryCieWritten(mem: Memory, bases: P.Bases)
    requires Holds(mem, 0, CieRecord(OrdinaryCie(), 0))
    ensures CieWritten(mem, OrdinaryCie(), 0, 0, bases)
    ensures 0 < |CieRecord(OrdinaryCie(), 0)| < 100
  {
    Scale8(1);
    hide Scale;
  }

  lemma AbsoluteMeans(mem: Memory, addr: int, w: Word, bases: P.Bases)
    ensures P.PointerMeans(mem, addr, Absolute(w), P.PE_UDATA8, bases)
  {
    Scale64(1);
    hide Scale, LittleBytes;
  }

  lemma OmittedMeans(mem: Memory, addr: int, bases: P.Bases)
    ensures P.PointerMeans(mem, addr, P.Pointer([], 0, 0, 0), P.PE_OMIT, bases)
  {
  }

  lemma OrdinaryFdeWritten(mem: Memory, addr: int, start: Word, range: Word, bases: P.Bases)
    requires 0 < addr < 100
    requires Holds(mem, addr, FdeRecord(OrdinaryFde(start, range), CieMeaning(OrdinaryCie(), 0, 0), addr + 4))
    ensures CieOffset(false, addr, 0, 0) == addr + 4 && OffsetOk(false, addr + 4, 0)
    ensures FdeWritten(mem, OrdinaryFde(start, range), CieMeaning(OrdinaryCie(), 0, 0), addr, addr + 4, bases)
    ensures !CieMeaning(OrdinaryCie(), 0, 0).abiMarker
  {
    Scale8(1);
    hide Scale, CieRecord, AugDataAddr, LittleBytes;
    var body := BodyAddr(false, addr);
    AbsoluteMeans(mem, body, start, bases);
    AbsoluteMeans(mem, body + 8, range, bases);
    OmittedMeans(mem, body + 16, bases.(startIp := start));
    hide P.PointerMeans;
  }

  lemma OrdinaryMeanings(env: Env, addr: int)
    ensures ProgramOk(env, ENTRY, addr) && AllUnderstood(env, ENTRY, addr)
    ensures ProgramOk(env, PUSHED, addr) && AllUnderstood(env, PUSHED, addr)
    ensures Meanings(env, ENTRY, addr, -8) == [SetCfa(7, 8), SetRule(RIP, SaveLoc(CfaRel, 0xffff_ffff_ffff_fff8))]
    ensures Meanings(env, PUSHED, addr, -8)
            == [Advance(1), SetRule(CFA_OFF_COLUMN, SaveLoc(Undef, 16)), SetRule(RBP, SaveLoc(CfaRel, 0xffff_ffff_ffff_fff0))]
  {
    hide ProgramOk, AllUnderstood, Meanings;
    EntryMeanings(env, addr);
    PushedMeanings(env, addr);
  }

  lemma EntryMeanings(env: Env, addr: int)
    ensures ProgramOk(env, ENTRY, addr) && AllUnderstood(env, ENTRY, addr)
    ensures Meanings(env, ENTRY, addr, -8) == [SetCfa(7, 8), SetRule(RIP, SaveLoc(CfaRel, 0xffff_ffff_ffff_fff8))]
  {
    OneUleb(7);
    OneUleb(8);
    OneUleb(1);
    hide Uleb, UnsignedOk, Scale;
    MeaningsCons(env, ENTRY[1], [], [ENTRY[1]], addr + 3, addr + 5, -8);
    MeaningsCons(env, ENTRY[0], [ENTRY[1]], ENTRY, addr, addr + 3, -8);
  }

  lemma NoMeanings(env: Env, addr: int)
    ensures ProgramOk(env, [], addr) && AllUnderstood(env, [], addr) && Meanings(env, [], addr, -8) == []
  {
  }

  lemma PushedMeanings(env: Env, addr: int)
    ensures ProgramOk(env, PUSHED, addr) && AllUnderstood(env, PUSHED, addr)
    ensures Meanings(env, PUSHED, addr, -8)
            == [Advance(1), SetRule(CFA_OFF_COLUMN, SaveLoc(Undef, 16)), SetRule(RBP, SaveLoc(CfaRel, 0xffff_ffff_ffff_fff0))]
  {
    PushedTail(env, addr + 1);
    hide ProgramOk, AllUnderstood, Meanings;
    MeaningsCons(env, PUSHED[0], [PUSHED[1], PUSHED[2]], PUSHED, addr, addr + 1, -8);
  }

  lemma PushedTail(env: Env, addr: int)
    ensures var tail := [PUSHED[1], PUSHED[2]];
            && ProgramOk(env, tail, addr) && AllUnderstood(env, tail, addr)
            && Meanings(env, tail, addr, -8)
               == [SetRule(CFA_OFF_COLUMN, SaveLoc(Undef, 16)), SetRule(RBP, SaveLoc(CfaRel, 0xffff_ffff_ffff_fff0))]
  {
    OneUleb(16);
    OneUleb(2);
    hide Uleb, UnsignedOk, SignedOk, Scale, Pow2, P.Writable, P.Stored, ProgramOk, AllUnderstood, Meanings;
    NoMeanings(env, addr + 4);
    MeaningsCons(env, PUSHED[2], [], [PUSHED[2]], addr + 2, addr + 4, -8);
    MeaningsCons(env, PUSHED[1], [PUSHED[2]], [PUSHED[1], PUSHED[2]], addr, addr + 2, -8);
  }

  lemma MeaningsCons(env: Env, a: Asm, rest: seq<Asm>, prog: seq<Asm>, addr: int, next: int, factor: int)
    requires prog == [a] + rest && AsmOk(env, a, addr) && Understood(env, a, addr)
    requires next == Next(env, a, addr) && ProgramOk(env, rest, next) && AllUnderstood(env, rest, next)
    ensures ProgramOk(env, prog, addr) && AllUnderstood(env, prog, addr)
    ensures Meanings(env, prog, addr, factor) == [Meaning(a, addr, factor)] + Meanings(env, rest, next, factor)
  {
    hide AsmOk, Assemble, Next, Meaning, AssembleAll, Understood;
    AssembleCons(env, a, rest, prog, addr, next);
    assert prog[1..] == rest;
  }

  lemma OrdinaryRows(env: Env, a: Instr, b: Instr, c: Instr, d: Instr, e: Instr, start: Word, ip: Word)
    requires env.codeAlign == 1 && start <= ip && start < MAX_IP
    requires a == SetCfa(7, 8) && b == SetRule(RIP, SaveLoc(CfaRel, 0xffff_ffff_ffff_fff8)) && c == Advance(1)
    requires d == SetRule(CFA_OFF_COLUMN, SaveLoc(Undef, 16)) && e == SetRule(RBP, SaveLoc(CfaRel, 0xffff_ffff_ffff_fff0))
    ensures RowFor(env, [a, b], [c, d, e], start, ip) == Ok(if ip == start then ENTRY_ROW else PUSHED_ROW)
  {
    var s := State(start, ALL_SAME, [], 0);
    var s1 := s.(row := ALL_SAME[CFA_REG_COLUMN := SaveLoc(Reg, RSP)][CFA_OFF_COLUMN := SaveLoc(Undef, 8)]);
    var t := s.(row := ENTRY_ROW);
    ExecsCons(env, ZERO_ROW, a, [b], s, s1);
    ExecsCons(env, ZERO_ROW, b, [], s1, t);
    var t' := t.(loc := start + 1);
    var t'' := t'.(row := ENTRY_ROW[CFA_OFF_COLUMN := SaveLoc(Undef, 16)]);
    UntilCons(env, ENTRY_ROW, c, [d, e], t, t', ip);
    if ip > start {
      UntilCons(env, ENTRY_ROW, d, [e], t', t'', ip);
      UntilCons(env, ENTRY_ROW, e, [], t'', t''.(row := PUSHED_ROW), ip);
    }
  }

  lemma ExecsCons(env: Env, initial: Row, a: Instr, rest: seq<Instr>, s: State, t: State)
    requires Exec(env, initial, a, s) == Ok(t)
    ensures Execs(env, initial, [a] + rest, s) == Execs(env, initial, rest, t)
  {
    hide Exec;
    assert ([a] + rest)[1..] == rest;
  }

  lemma UntilCons(env: Env, initial: Row, a: Instr, rest: seq<Instr>, s: State, t: State, ip: Word)
    requires s.loc <= ip && Exec(env, initial, a, s) == Ok(t)
    ensures ExecsUntil(env, initial, [a] + rest, s, ip) == ExecsUntil(env, initial, rest, t, ip)
  {
    hide Exec;
    assert ([a] + rest)[1..] == rest;
  }

  /** End to end for an ordinary function, wherever it is: the row at its entry, and the
      row past its first instruction. */
  lemma OrdinaryFunction(start: Word, range: Word, ip: Word, pi: ProcInfo) returns (pi': ProcInfo)
    requires start <= ip && start < MAX_IP
    ensures var mem, addr := OrdinaryMemory(start, range), |CieRecord(OrdinaryCie(), 0)|;
            && ExtractFde(mem, addr, pi, true, 0) == Extracted(|mem|, pi', Ok(()))
            && pi'.startIp == start && pi'.endIp == Wrap(start + range) && pi'.info.Some?
            && RowOf(RunFde(EnvOf(mem, pi', pi'.info.value), ProgramsOf(pi'.info.value), start, ip))
               == Ok(if ip == start then ENTRY_ROW else PUSHED_ROW)
  {
    var cie, fde := OrdinaryCie(), OrdinaryFde(start, range);
    var info, first := CieMeaning(cie, 0, 0), CieRecord(cie, 0);
    var addr := |first|;
    var second := FdeRecord(fde, info, addr + 4);
    var mem := OrdinaryMemory(start, range);
    pi' := FdeMeaning(fde, info, BodyAddr(false, addr), addr + |second|, pi, true);
    OrdinaryParts(start, range, info, BodyAddr(false, addr), addr + |second|, pi);
    hide *;
    OrdinaryEnd(start, range, ip, pi, mem, addr, info, addr + |second|, cie, fde, pi');
  }

  lemma OrdinaryEnd(start: Word, range: Word, ip: Word, pi: ProcInfo, mem: Memory, addr: int, info: CieInfo,
                    end: int, cie: Cie, fde: Fde, pi': ProcInfo)
    requires start <= ip && start < MAX_IP && mem == OrdinaryMemory(start, range)
    requires cie == OrdinaryCie() && fde == OrdinaryFde(start, range)
    requires fde.start.target == start && cie.dataAlign == -8 && !fde.wide && fde.sizeLen > 0
    requires addr == |CieRecord(OrdinaryCie(), 0)| && info == CieMeaning(OrdinaryCie(), 0, 0)
    requires end == addr + |FdeRecord(fde, info, addr + 4)|
    requires pi' == FdeMeaning(fde, info, BodyAddr(false, addr), end, pi, true)
    requires pi'.info.Some? && pi'.info.value.codeAlign == 1
    ensures ExtractFde(mem, addr, pi, true, 0) == Extracted(end, pi', Ok(()))
    ensures RowOf(RunFde(EnvOf(mem, pi', pi'.info.value), ProgramsOf(pi'.info.value), start, ip))
            == Ok(if ip == start then ENTRY_ROW else PUSHED_ROW)
  {
    hide *;
    OrdinaryWritten(start, range, mem, addr, info, BasesOf(pi));
    OrdinaryCompiled(mem, pi', start, range);
    EndToEnd(mem, addr, 0, cie, fde, 0, pi, ENTRY, PUSHED, ip, info, addr + 4, pi');
    OrdinaryRowFor(mem, pi', start, ip);
  }

  lemma OrdinaryWritten(start: Word, range: Word, mem: Memory, addr: int, info: CieInfo, bases: P.Bases)
    requires mem == OrdinaryMemory(start, range) && info == CieMeaning(OrdinaryCie(), 0, 0)
    requires addr == |CieRecord(OrdinaryCie(), 0)|
    ensures CieWritten(mem, OrdinaryCie(), 0, 0, bases) && !info.abiMarker
    ensures CieOffset(false, addr, 0, 0) == addr + 4 && OffsetOk(false, addr + 4, 0)
    ensures FdeWritten(mem, OrdinaryFde(start, range), info, addr, addr + 4, bases)
  {
    hide *;
    MemoryParts(start, range, mem, addr, info);
    OrdinaryCieWritten(mem, bases);
    OrdinaryFdeWritten(mem, addr, start, range, bases);
  }

  lemma MemoryParts(start: Word, range: Word, mem: Memory, addr: int, info: CieInfo)
    requires mem == OrdinaryMemory(start, range) && info == CieMeaning(OrdinaryCie(), 0, 0)
    requires addr == |CieRecord(OrdinaryCie(), 0)|
    ensures OrdinaryFde(start, range).sizeLen > 0
    ensures Holds(mem, 0, CieRecord(OrdinaryCie(), 0))
    ensures Holds(mem, addr, FdeRecord(OrdinaryFde(start, range), info, addr + 4))
  {
    hide CieRecord, FdeRecord, Holds, CieMeaning;
    MemoryHolds(mem, CieRecord(OrdinaryCie(), 0), FdeRecord(OrdinaryFde(start, range), info, addr + 4));
  }

  lemma OrdinaryParts(start: Word, range: Word, info: CieInfo, addr: int, end: int, pi: ProcInfo)
    requires info == CieMeaning(OrdinaryCie(), 0, 0)
    ensures var pi' := FdeMeaning(OrdinaryFde(start, range), info, addr, end, pi, true);
            && pi'.startIp == start && pi'.endIp == Wrap(start + range)
            && pi'.info.Some? && pi'.info.value.codeAlign == 1
    ensures var cie, fde := OrdinaryCie(), OrdinaryFde(start, range);
            && fde.start.target == start && fde.range.target == range && !fde.wide && fde.instrs == PUSHED_BYTES
            && cie.dataAlign == -8 && cie.instrs == ENTRY_BYTES
    ensures var first := CieRecord(OrdinaryCie(), 0);
            OrdinaryMemory(start, range) == first + FdeRecord(OrdinaryFde(start, range), info, |first| + 4)
  {
    hide CieRecord, FdeRecord, FdeAug, AugDataAddr, Wrap;
  }

  lemma OrdinaryRowFor(mem: Memory, pi: ProcInfo, start: Word, ip: Word)
    requires start <= ip && start < MAX_IP && pi.info.Some? && pi.info.value.codeAlign == 1
    ensures var p := pi.info.value;
            var env := EnvOf(mem, pi, p);
            && ProgramOk(env, ENTRY, p.cieStart) && AllUnderstood(env, ENTRY, p.cieStart)
            && ProgramOk(env, PUSHED, p.fdeStart) && AllUnderstood(env, PUSHED, p.fdeStart)
            && RowFor(env, Meanings(env, ENTRY, p.cieStart, -8), Meanings(env, PUSHED, p.fdeStart, -8), start, ip)
               == Ok(if ip == start then ENTRY_ROW else PUSHED_ROW)
  {
    hide ProgramOk, AllUnderstood, Meanings, RowFor;
    var p := pi.info.value;
    var env := EnvOf(mem, pi, p);
    OrdinaryMeanings(env, p.cieStart);
    OrdinaryMeanings(env, p.fdeStart);
    var m, n := Meanings(env, ENTRY, p.cieStart, -8), Meanings(env, PUSHED, p.fdeStart, -8);
    OrdinaryRows(env, m[0], m[1], n[0], n[1], n[2], start, ip);
  }

  lemma OrdinaryCompiled(mem: Memory, pi: ProcInfo, start: Word, range: Word)
    requires pi.info.Some?
    ensures Compiled(mem, pi, OrdinaryCie(), OrdinaryFde(start, range), ENTRY, PUSHED)
  {
    hide ProgramOk, AssembleAll, AllUnderstood, Meanings;
    var env := EnvOf(mem, pi, pi.info.value);
    OrdinaryPrograms(env, pi.info.value.cieStart);
    OrdinaryPrograms(env, pi.info.value.fdeStart);
    OrdinaryMeanings(env, pi.info.value.cieStart);
    OrdinaryMeanings(env, pi.info.value.fdeStart);
  }

  lemma MemoryHolds(mem: Memory, a: seq<Byte>, b: seq<Byte>)
    requires mem == a + b
    ensures Holds(mem, 0, a) && Holds(mem, |a|, b)
  {
    assert mem[0..0 + |a|] == a && mem[|a|..|a| + |b|] == b;
  }

  /** A section that holds nothing but that CIE, scanned for ip 5 with a proc-info that
      already covers 5: the scan stops at the CIE, although no record covers the ip. */
  lemma StaleInput(mem: Memory, recs: seq<S.Rec>)
    requires mem == CieRecord(OrdinaryCie(), 0) && recs == [S.CieRec(0, |mem|)]
    ensures S.Section(mem, 0, |mem|, recs, 0)
    ensures S.FirstMatch(recs, 5, true) == Some(recs[0]) && S.Lookup(recs, 5) == None
  {
    assert mem[0..0 + |mem|] == mem;
    OrdinaryCieWritten(mem, P.Bases(0, 0));
    hide CieWritten, S.Reads;
    S.WrittenCieReads(mem, 0, OrdinaryCie(), P.Bases(0, 0), 0);
    OrdinaryLength();
    assert recs[1..] == [];
  }

  lemma OrdinaryLength()
    ensures |CieRecord(OrdinaryCie(), 0)| >= 8
  {
    hide CieBody, LittleBytes;
  }
}
