/** Writing frame descriptions, and why parsing undoes it. */
module FrameRoundTrip {
  import opened Words
  import opened Leb128
  import opened Pointers
  import opened FrameInfo

  /** The recognised augmentation characters with their CIE operands. */
  datatype Aug = AugL(encoding: Byte) | AugR(encoding: Byte) | AugP(encoding: Byte, pointer: Pointer) | AugS

  /** A CIE. The `...Len` fields are the byte counts of the LEB128 numbers. */
  datatype Cie = Cie(
    wide: bool, version: Byte, sized: bool, augs: seq<Aug>,
    codeAlign: Word, codeLen: nat, dataAlign: int, dataLen: nat, retCol: Word, retLen: nat,
    sizeLen: nat, instrs: seq<Byte>)

  /** An FDE; `pad` is what follows the LSDA pointer in a sized augmentation. */
  datatype Fde = Fde(
    wide: bool, start: Pointer, range: Pointer, lsda: Pointer, pad: seq<Byte>, sizeLen: nat, instrs: seq<Byte>)

  // ----- writing a CIE -----

  function AugChar(a: Aug): Byte {
    match a case AugL(_) => CH_L case AugR(_) => CH_R case AugP(_, _) => CH_P case AugS => CH_S
  }

  function AugChars(augs: seq<Aug>): (s: seq<Byte>)
    ensures |s| == |augs|
  {
    if augs == [] then [] else [AugChar(augs[0])] + AugChars(augs[1..])
  }

  function AugString(cie: Cie): seq<Byte> {
    (if cie.sized then [CH_Z] else []) + AugChars(cie.augs)
  }

  function AugBytes(a: Aug): seq<Byte> {
    match a
    case AugL(e) => [e]
    case AugR(e) => [e]
    case AugP(e, p) => [e] + p.bytes
    case AugS => []
  }

  function AugData(augs: seq<Aug>): seq<Byte> {
    if augs == [] then [] else AugBytes(augs[0]) + AugData(augs[1..])
  }

  /** The personality pointers mean what they say, where they are. */
  predicate AugsOk(mem: Memory, augs: seq<Aug>, addr: int, bases: Bases) {
    augs != [] ==>
      && (augs[0].AugP? ==> PointerMeans(mem, addr + 1, augs[0].pointer, augs[0].encoding, bases))
      && AugsOk(mem, augs[1..], addr + |AugBytes(augs[0])|, bases)
  }

  function ReturnColumn(cie: Cie): seq<Byte>
    requires cie.retLen > 0
  {
    if cie.version == 1 then [cie.retCol % 0x100] else EncodeLeb(cie.retCol, cie.retLen)
  }

  /** The augmentation body, with its exact size in front if it is sized. */
  function AugBody(cie: Cie): seq<Byte>
    requires cie.sizeLen > 0
  {
    var data := AugData(cie.augs);
    if cie.sized then EncodeLeb(|data|, cie.sizeLen) + data else data
  }

  /** From the code alignment factor on. */
  function FactorBytes(cie: Cie): seq<Byte>
    requires LengthsOk(cie)
  {
    EncodeLeb(cie.codeAlign, cie.codeLen) + (EncodeLeb(cie.dataAlign, cie.dataLen)
    + (ReturnColumn(cie) + (AugBody(cie) + cie.instrs)))
  }

  /** From the version on. */
  function CieBody(cie: Cie): seq<Byte>
    requires LengthsOk(cie)
  {
    [cie.version] + (AugString(cie) + ([0] + FactorBytes(cie)))
  }

  predicate LengthsOk(cie: Cie) {
    0 < cie.codeLen <= 10 && 0 < cie.dataLen <= 10 && 0 < cie.retLen <= 10 && 0 < cie.sizeLen <= 10
  }

  /** Where the augmentation operands start, from the address of the version. */
  function AugDataAddr(cie: Cie, addr: int): int
    requires LengthsOk(cie)
  {
    addr + 2 + |AugString(cie)| + cie.codeLen + cie.dataLen + |ReturnColumn(cie)| + (if cie.sized then cie.sizeLen else 0)
  }

  predicate FactorsOk(cie: Cie) {
    && LengthsOk(cie)
    && (cie.version == 1 || cie.version == 3)
    && |AugString(cie)| <= 4
    && cie.codeAlign < Pow2(7 * cie.codeLen)
    && -TWO_63 <= cie.dataAlign < TWO_63
    && -Pow2(7 * cie.dataLen - 1) <= cie.dataAlign < Pow2(7 * cie.dataLen - 1)
    && cie.retCol < (if cie.version == 1 then TWO_8 else Pow2(7 * cie.retLen))
  }

  predicate AugPartOk(mem: Memory, cie: Cie, addr: int, bases: Bases) {
    && AugsOk(mem, cie.augs, addr, bases)
    && |AugData(cie.augs)| < Pow2(7 * cie.sizeLen)
    && |AugData(cie.augs)| < TWO_64
  }

  /** What can be written at `addr`, the address of the version. */
  predicate CieOk(mem: Memory, cie: Cie, addr: int, bases: Bases) {
    FactorsOk(cie) && AugPartOk(mem, cie, AugDataAddr(cie, addr), bases)
  }

  // ----- what the parser should recover -----

  /** The effect of the augmentation: the last encoding of a kind counts. */
  function Recovered(augs: seq<Aug>, info: CieInfo): CieInfo {
    if augs == [] then info
    else
      Recovered(augs[1..], Effect(augs[0], info))
  }

  function Effect(a: Aug, info: CieInfo): CieInfo {
    match a
    case AugL(e) => info.(lsdaEncoding := e)
    case AugR(e) => info.(fdeEncoding := e)
    case AugP(_, p) => info.(handler := p.target)
    case AugS => info.(signalFrame := true, abiMarker := true)
  }

  function RecoveredCie(cie: Cie, addr: int, end: int): CieInfo
    requires LengthsOk(cie)
  {
    Recovered(cie.augs,
      CieInfo(AugDataAddr(cie, addr) + |AugData(cie.augs)|, end, 0, 0,
              cie.codeAlign, Wrap(cie.dataAlign), cie.retCol, 0, PE_UDATA8, PE_OMIT, cie.sized, false, false))
  }

  // ----- parsing a CIE -----

  lemma ByteHolds(mem: Memory, addr: int, b: Byte)
    requires Holds(mem, addr, [b])
    ensures Fixed(mem, addr, 1) == Ok((b, addr + 1)) && U8(mem, addr) == Ok(b)
  {
    assert mem[addr..addr + 1] == [b];
    assert mem[addr] == mem[addr..addr + 1][0];
    assert LittleEndian([b]) == b + 0x100 * LittleEndian([b][1..]);
  }

  lemma {:induction false} AugStringRead(mem: Memory, addr: int, chars: seq<Byte>, kept: seq<Byte>)
    requires Holds(mem, addr, chars + [0]) && |kept| + |chars| <= 4
    requires forall i :: 0 <= i < |chars| ==> chars[i] != 0
    ensures ReadAugString(mem, addr, kept) == Ok((kept + chars, addr + |chars| + 1))
    decreases |chars|
  {
    if chars == [] {
      assert chars + [0] == [0];
      ByteHolds(mem, addr, 0);
      assert kept + chars == kept;
    } else {
      assert chars + [0] == [chars[0]] + (chars[1..] + [0]);
      HoldsSplit(mem, addr, [chars[0]], chars[1..] + [0]);
      ByteHolds(mem, addr, chars[0]);
      AugStringRead(mem, addr + 1, chars[1..], kept + [chars[0]]);
      assert kept + [chars[0]] + chars[1..] == kept + chars;
    }
  }

  lemma {:induction false} AugCharsNonZero(augs: seq<Aug>)
    ensures forall i :: 0 <= i < |augs| ==> AugChars(augs)[i] != 0 && AugChars(augs)[i] == AugChar(augs[i])
  {
    if augs != [] {
      AugCharsNonZero(augs[1..]);
    }
  }

  lemma AugStringNonZero(cie: Cie)
    ensures forall i :: 0 <= i < |AugString(cie)| ==> AugString(cie)[i] != 0
  {
    AugCharsNonZero(cie.augs);
  }

  lemma {:induction false} AugOperandsRead(mem: Memory, addr: int, augs: seq<Aug>, bases: Bases, info: CieInfo)
    requires Holds(mem, addr, AugData(augs)) && AugsOk(mem, augs, addr, bases)
    ensures AugOperands(mem, addr, AugChars(augs), bases, info)
            == Ok(Recovered(augs, info.(cieStart := addr + |AugData(augs)|)))
    decreases |augs|
  {
    hide PointerMeans, ReadEncodedPointer, AugOperands, Effect, AugBytes, Holds;
    if augs == [] {
      EmptyAug(mem, addr, bases, info);
    } else {
      var a := augs[0];
      var here := AugBytes(a);
      var next := addr + |here|;
      HoldsSplit(mem, addr, here, AugData(augs[1..]));
      assert AugChars(augs)[1..] == AugChars(augs[1..]);
      OneOperand(mem, addr, a, AugChars(augs), bases, info);
      AugOperandsRead(mem, next, augs[1..], bases, Effect(a, info));
      EffectCommutes(a, info, addr + |AugData(augs)|);
    }
  }

  predicate KnownChar(c: Byte) {
    c == CH_L || c == CH_R || c == CH_P || c == CH_S
  }

  /** A character without a meaning ends a sized augmentation where it stands, and is an
      error in any other, whatever follows it. */
  lemma {:induction false} UnknownAug(mem: Memory, addr: int, augs: seq<Aug>, c: Byte, rest: seq<Byte>, bases: Bases, info: CieInfo)
    requires Holds(mem, addr, AugData(augs)) && AugsOk(mem, augs, addr, bases) && !KnownChar(c)
    ensures AugOperands(mem, addr, AugChars(augs) + ([c] + rest), bases, info)
            == if info.sized then Ok(Recovered(augs, info.(cieStart := addr + |AugData(augs)|))) else Err(Inval)
    decreases |augs|
  {
    hide PointerMeans, ReadEncodedPointer, AugOperands, Effect, AugBytes, Holds, KnownChar;
    if augs == [] {
      UnknownFirst(mem, addr, c, rest, bases, info);
      assert AugChars(augs) + ([c] + rest) == [c] + rest;
    } else {
      var a := augs[0];
      var here := AugBytes(a);
      var chars := AugChars(augs) + ([c] + rest);
      HoldsSplit(mem, addr, here, AugData(augs[1..]));
      assert chars[1..] == AugChars(augs[1..]) + ([c] + rest);
      OneOperand(mem, addr, a, chars, bases, info);
      UnknownAug(mem, addr + |here|, augs[1..], c, rest, bases, Effect(a, info));
      EffectCommutes(a, info, addr + |AugData(augs)|);
      EffectSized(a, info);
    }
  }

  lemma UnknownFirst(mem: Memory, addr: int, c: Byte, rest: seq<Byte>, bases: Bases, info: CieInfo)
    requires !KnownChar(c)
    ensures AugData([]) == [] && AugChars([]) == []
    ensures AugOperands(mem, addr, [c] + rest, bases, info)
            == if info.sized then Ok(Recovered([], info.(cieStart := addr))) else Err(Inval)
  {
  }

  lemma EffectSized(a: Aug, info: CieInfo)
    ensures Effect(a, info).sized == info.sized
  {
  }

  lemma EffectCommutes(a: Aug, info: CieInfo, start: int)
    ensures Effect(a, info).(cieStart := start) == Effect(a, info.(cieStart := start))
  {
  }

  lemma OneOperand(mem: Memory, addr: int, a: Aug, chars: seq<Byte>, bases: Bases, info: CieInfo)
    requires chars != [] && chars[0] == AugChar(a)
    requires Holds(mem, addr, AugBytes(a))
    requires a.AugP? ==> PointerMeans(mem, addr + 1, a.pointer, a.encoding, bases)
    ensures AugOperands(mem, addr, chars, bases, info)
            == AugOperands(mem, addr + |AugBytes(a)|, chars[1..], bases, Effect(a, info))
  {
    hide PointerMeans, ReadEncodedPointer, Fixed;
    AugOperandRead(mem, addr, a, bases);
  }

  lemma AugOperandRead(mem: Memory, addr: int, a: Aug, bases: Bases)
    requires Holds(mem, addr, AugBytes(a))
    requires a.AugP? ==> PointerMeans(mem, addr + 1, a.pointer, a.encoding, bases)
    ensures !a.AugS? ==> Fixed(mem, addr, 1) == Ok((a.encoding, addr + 1))
    ensures a.AugP? ==> ReadEncodedPointer(mem, addr + 1, a.encoding, bases) == Ok((a.pointer.target, addr + |AugBytes(a)|))
  {
    hide PointerMeans, ReadEncodedPointer;
    if a.AugP? {
      HoldsSplit(mem, addr, [a.encoding], a.pointer.bytes);
      PointerRead(mem, addr + 1, a.pointer, a.encoding, bases);
    }
    if !a.AugS? {
      ByteHolds(mem, addr, a.encoding);
    }
  }

  lemma FactorsRead(mem: Memory, addr: int, end: int, bases: Bases, cie: Cie, addr0: int)
    requires FactorsOk(cie) && AugPartOk(mem, cie, AugDataAddr(cie, addr0), bases) && addr == addr0 + 2 + |AugString(cie)|
    requires Holds(mem, addr, FactorBytes(cie))
    ensures ParseFactors(mem, addr, end, bases, cie.version, AugString(cie)) == Ok(RecoveredCie(cie, addr0, end))
  {
    hide EncodeLeb, ReadUleb, ReadSleb, Pow2, Fixed, AugOperands, AugPartOk, AugBody, AugString, ReturnColumn, Recovered, AugData, Wrap;
    var code, data, ret := EncodeLeb(cie.codeAlign, cie.codeLen), EncodeLeb(cie.dataAlign, cie.dataLen), ReturnColumn(cie);
    var a3 := addr + cie.codeLen;
    var a4 := a3 + cie.dataLen;
    var a5 := a4 + |ret|;
    var body := AugBody(cie);
    HoldsSplit(mem, addr, code, data + (ret + (body + cie.instrs)));
    HoldsSplit(mem, a3, data, ret + (body + cie.instrs));
    HoldsSplit(mem, a4, ret, body + cie.instrs);
    HoldsSplit(mem, a5, body, cie.instrs);
    UnsignedRoundTrip(mem, addr, cie.codeAlign, cie.codeLen);
    SignedRoundTrip(mem, a3, cie.dataAlign, cie.dataLen);
    ReturnColumnRead(mem, a4, cie);
    AugBodyRead(mem, a5, bases, cie,
      CieInfo(0, end, 0, 0, cie.codeAlign, Wrap(cie.dataAlign), cie.retCol, 0, PE_UDATA8, PE_OMIT, false, false, false));
  }

  lemma ReturnColumnRead(mem: Memory, addr: int, cie: Cie)
    requires LengthsOk(cie) && Holds(mem, addr, ReturnColumn(cie))
    requires cie.retCol < (if cie.version == 1 then TWO_8 else Pow2(7 * cie.retLen))
    ensures (if cie.version == 1 then Fixed(mem, addr, 1) else ReadUleb(mem, addr)) == Ok((cie.retCol, addr + |ReturnColumn(cie)|))
  {
    hide EncodeLeb, ReadUleb, Fixed;
    if cie.version == 1 {
      ByteHolds(mem, addr, cie.retCol);
    } else {
      UnsignedRoundTrip(mem, addr, cie.retCol, cie.retLen);
    }
  }

  lemma AugBodyRead(mem: Memory, addr: int, bases: Bases, cie: Cie, info: CieInfo)
    requires LengthsOk(cie) && !info.sized
    requires AugPartOk(mem, cie, if cie.sized then addr + cie.sizeLen else addr, bases)
    requires Holds(mem, addr, AugBody(cie))
    ensures var aug := AugString(cie); var a := if cie.sized then addr + cie.sizeLen else addr;
            var expected := Recovered(cie.augs, info.(sized := cie.sized, cieStart := a + |AugData(cie.augs)|));
            if aug != [] && aug[0] == CH_Z then
              ReadUleb(mem, addr).Ok? && AugOperands(mem, ReadUleb(mem, addr).value.1, aug[1..], bases, info.(sized := true)) == Ok(expected)
            else AugOperands(mem, addr, aug, bases, info) == Ok(expected)
  {
    hide EncodeLeb, ReadUleb, Pow2, AugData, AugsOk, AugOperands, Recovered;
    if cie.sized {
      var data := AugData(cie.augs);
      HoldsSplit(mem, addr, EncodeLeb(|data|, cie.sizeLen), data);
      UnsignedRoundTrip(mem, addr, |data|, cie.sizeLen);
      assert AugString(cie)[1..] == AugChars(cie.augs);
      AugOperandsRead(mem, addr + cie.sizeLen, cie.augs, bases, info.(sized := true));
    } else {
      assert AugString(cie) == AugChars(cie.augs);
      AugOperandsRead(mem, addr, cie.augs, bases, info);
    }
  }

  lemma EmptyAug(mem: Memory, addr: int, bases: Bases, info: CieInfo)
    ensures AugData([]) == [] && AugChars([]) == []
    ensures AugOperands(mem, addr, [], bases, info) == Ok(Recovered([], info.(cieStart := addr)))
  {
  }

  /** The body of a CIE parses to what was written. */
  lemma CieBodyRead(mem: Memory, addr: int, end: int, bases: Bases, cie: Cie)
    requires CieOk(mem, cie, addr, bases) && Holds(mem, addr, CieBody(cie))
    ensures ParseCieBody(mem, addr, end, bases) == Ok(RecoveredCie(cie, addr, end))
  {
    hide FactorBytes, ParseFactors, RecoveredCie, FactorsOk, AugPartOk, AugString;
    var aug := AugString(cie);
    var a2 := addr + 2 + |aug|;
    FactorsOkParts(cie);
    assert CieBody(cie) == [cie.version] + ((aug + [0]) + FactorBytes(cie));
    HoldsSplit(mem, addr, [cie.version], (aug + [0]) + FactorBytes(cie));
    HoldsSplit(mem, addr + 1, aug + [0], FactorBytes(cie));
    ByteHolds(mem, addr, cie.version);
    AugStringNonZero(cie);
    AugStringRead(mem, addr + 1, aug, []);
    assert [] + aug == aug;
    FactorsRead(mem, a2, end, bases, cie, addr);
  }

  lemma FactorsOkParts(cie: Cie)
    requires FactorsOk(cie)
    ensures LengthsOk(cie) && (cie.version == 1 || cie.version == 3) && |AugString(cie)| <= 4
  {
  }

  // ----- records -----

  /** Length, id and body, in the 32-bit or the 64-bit format. */
  function Record(wide: bool, id: Word, body: seq<Byte>): seq<Byte> {
    if wide then LittleBytes(0xffff_ffff, 4) + (LittleBytes(8 + |body|, 8) + (LittleBytes(id, 8) + body))
    else LittleBytes(4 + |body|, 4) + (LittleBytes(id, 4) + body)
  }

  function Width(wide: bool): nat {
    if wide then 8 else 4
  }

  /** The offset of the id in a record. */
  function IdOffset(wide: bool): nat {
    if wide then 12 else 4
  }

  predicate RecordOk(wide: bool, id: Word, body: seq<Byte>) {
    if wide then 8 + |body| < TWO_64 else 4 + |body| < 0xffff_ffff && id < TWO_32
  }

  lemma FixedWord(mem: Memory, addr: int, v: nat, n: nat)
    requires (n == 4 && v < TWO_32) || (n == 8 && v < TWO_64)
    requires Holds(mem, addr, LittleBytes(v, n))
    ensures v < TWO_64 && Fixed(mem, addr, n) == Ok((v, addr + n))
  {
    hide LittleBytes, Fixed;
    Scale64(1);
    FixedHolds(mem, addr, v, n);
  }

  lemma RecordRead(mem: Memory, addr: int, wide: bool, id: Word, body: seq<Byte>)
    requires RecordOk(wide, id, body) && Holds(mem, addr, Record(wide, id, body))
    ensures ReadLength(mem, addr) == Ok((addr + |Record(wide, id, body)|, addr + IdOffset(wide), Width(wide)))
    ensures Fixed(mem, addr + IdOffset(wide), Width(wide)) == Ok((id, addr + IdOffset(wide) + Width(wide)))
    ensures Holds(mem, addr + IdOffset(wide) + Width(wide), body)
    ensures |Record(wide, id, body)| == IdOffset(wide) + Width(wide) + |body|
  {
    hide LittleBytes, Fixed, Holds;
    if wide {
      HoldsSplit(mem, addr, LittleBytes(0xffff_ffff, 4), LittleBytes(8 + |body|, 8) + (LittleBytes(id, 8) + body));
      HoldsSplit(mem, addr + 4, LittleBytes(8 + |body|, 8), LittleBytes(id, 8) + body);
      HoldsSplit(mem, addr + 12, LittleBytes(id, 8), body);
      FixedWord(mem, addr, 0xffff_ffff, 4);
      FixedWord(mem, addr + 4, 8 + |body|, 8);
      FixedWord(mem, addr + 12, id, 8);
    } else {
      HoldsSplit(mem, addr, LittleBytes(4 + |body|, 4), LittleBytes(id, 4) + body);
      HoldsSplit(mem, addr + 4, LittleBytes(id, 4), body);
      FixedWord(mem, addr, 4 + |body|, 4);
      FixedWord(mem, addr + 4, id, 4);
    }
  }

  /** The address of a record's body. */
  function BodyAddr(wide: bool, addr: int): int {
    addr + IdOffset(wide) + Width(wide)
  }

  function CieRecord(cie: Cie, base: int): seq<Byte>
    requires LengthsOk(cie)
  {
    Record(cie.wide, ExpectedId(Width(cie.wide), base), CieBody(cie))
  }

  /** What a written CIE parses to. */
  function CieMeaning(cie: Cie, addr: int, base: int): CieInfo
    requires LengthsOk(cie)
  {
    RecoveredCie(cie, BodyAddr(cie.wide, addr), addr + |CieRecord(cie, base)|)
  }

  predicate CieWritten(mem: Memory, cie: Cie, addr: int, base: int, bases: Bases) {
    && LengthsOk(cie) && CieOk(mem, cie, BodyAddr(cie.wide, addr), bases)
    && RecordOk(cie.wide, ExpectedId(Width(cie.wide), base), CieBody(cie))
    && Holds(mem, addr, CieRecord(cie, base))
  }

  /** Parsing undoes writing, for every CIE. */
  lemma CieRoundTrip(mem: Memory, addr: int, cie: Cie, bases: Bases, base: int)
    requires CieWritten(mem, cie, addr, base, bases)
    ensures ParseCie(mem, addr, bases, base) == Ok(CieMeaning(cie, addr, base))
  {
    hide CieOk, CieBody, Record, ParseCieBody, ReadLength, Fixed, RecoveredCie;
    var body := BodyAddr(cie.wide, addr);
    RecordRead(mem, addr, cie.wide, ExpectedId(Width(cie.wide), base), CieBody(cie));
    CieBodyRead(mem, body, addr + |CieRecord(cie, base)|, bases, cie);
  }

  /** A record whose id is not that of a CIE, or of another version than 1 and 3, is not
      taken for one. */
  lemma CieRejected(mem: Memory, addr: int, wide: bool, id: Word, body: seq<Byte>, bases: Bases, base: int)
    requires RecordOk(wide, id, body) && body != [] && Holds(mem, addr, Record(wide, id, body))
    ensures id != ExpectedId(Width(wide), base) ==> ParseCie(mem, addr, bases, base) == Err(Inval)
    ensures id == ExpectedId(Width(wide), base) && body[0] !in {1, 3} ==> ParseCie(mem, addr, bases, base) == Err(BadVersion)
  {
    hide Record, ReadLength, Fixed, ReadAugString, ParseFactors;
    RecordRead(mem, addr, wide, id, body);
    assert body == [body[0]] + body[1..];
    HoldsSplit(mem, BodyAddr(wide, addr), [body[0]], body[1..]);
    ByteHolds(mem, BodyAddr(wide, addr), body[0]);
  }

  /** A CIE met where an FDE may be is passed over, in .eh_frame and in .debug_frame. */
  lemma CieSkipped(mem: Memory, addr: int, cie: Cie, bases: Bases, base: int, pi: ProcInfo, need: bool)
    requires CieWritten(mem, cie, addr, base, bases)
    ensures ExtractFde(mem, addr, pi, need, base) == Extracted(addr + |CieRecord(cie, base)|, pi, Ok(()))
  {
    hide CieOk, CieBody, Record, ReadLength, Fixed, Signed, Signed32, RecordOk, Wrap, IsCieId, ParseCie, FdeBody;
    var id := ExpectedId(Width(cie.wide), base);
    RecordRead(mem, addr, cie.wide, id, CieBody(cie));
    RecordNotEmpty(cie.wide, id, CieBody(cie));
    CieIdSeen(cie.wide, base);
  }

  lemma CieIdSeen(wide: bool, base: int)
    ensures var id := ExpectedId(Width(wide), base);
            IsCieId(Wrap(if wide then Signed(id) else Signed32(id)), base != 0)
  {
  }

  // ----- writing an FDE -----

  /** The augmentation body of an FDE. */
  function FdeAug(fde: Fde, info: CieInfo): seq<Byte>
    requires fde.sizeLen > 0
  {
    var data := fde.lsda.bytes + fde.pad;
    if info.sized then EncodeLeb(|data|, fde.sizeLen) + data else data
  }

  /** From the initial location on. */
  function FdeBytes(fde: Fde, info: CieInfo): seq<Byte>
    requires fde.sizeLen > 0
  {
    fde.start.bytes + (fde.range.bytes + (FdeAug(fde, info) + fde.instrs))
  }

  /** Where the augmentation body is, from the address of the initial location. */
  function FdeAugAddr(fde: Fde, addr: int): int {
    addr + |fde.start.bytes| + |fde.range.bytes|
  }

  /** The three pointers mean what they say. Only the format of the encoding counts for the
      range. When the LSDA pointer is read, the function start is that of this FDE. */
  predicate FdeOk(mem: Memory, fde: Fde, info: CieInfo, addr: int, bases: Bases) {
    && 0 < fde.sizeLen <= 10
    && PointerMeans(mem, addr, fde.start, info.fdeEncoding, bases)
    && PointerMeans(mem, addr + |fde.start.bytes|, fde.range, info.fdeEncoding % 0x10, bases)
    && AugBodyOk(mem, fde, info, FdeAugAddr(fde, addr), bases.(startIp := fde.start.target))
  }

  /** An augmentation body without a size holds the ABI marker, if the CIE asks for one, and
      nothing else behind the LSDA pointer. */
  predicate AugBodyOk(mem: Memory, fde: Fde, info: CieInfo, addr: int, bases: Bases) {
    && PointerMeans(mem, if info.sized then addr + fde.sizeLen else addr, fde.lsda, info.lsdaEncoding, bases)
    && (!info.sized ==> |fde.pad| == if info.abiMarker then 4 else 0)
    && var size := |fde.lsda.bytes + fde.pad|;
       size < Pow2(7 * fde.sizeLen) && size < TWO_64
  }

  /** The proc-info of an FDE. */
  function FdeMeaning(fde: Fde, info: CieInfo, addr: int, end: int, pi: ProcInfo, need: bool): ProcInfo
    requires fde.sizeLen > 0
  {
    pi.(startIp := fde.start.target, endIp := Wrap(fde.start.target + fde.range.target), handler := info.handler,
        lsda := fde.lsda.target,
        info := if need then Some(info.(fdeStart := FdeAugAddr(fde, addr) + |FdeAug(fde, info)|, fdeEnd := end)) else pi.info)
  }

  // ----- parsing an FDE -----

  lemma FdeTailRead(mem: Memory, addr: int, end: int, fde: Fde, info: CieInfo, pi: ProcInfo, need: bool)
    requires 0 < fde.sizeLen <= 10 && AugBodyOk(mem, fde, info, addr, BasesOf(pi))
    requires Holds(mem, addr, FdeAug(fde, info))
    requires need && info.abiMarker && info.sized ==> addr + |FdeAug(fde, info)| - |fde.pad| + 4 <= |mem|
    ensures FdeTail(mem, addr, end, pi, info, need)
            == Extracted(end, pi.(lsda := fde.lsda.target,
                 info := if need then Some(info.(fdeStart := addr + |FdeAug(fde, info)|, fdeEnd := end)) else pi.info), Ok(()))
  {
    hide EncodeLeb, ReadUleb, Pow2, PointerMeans, ReadEncodedPointer;
    var data := fde.lsda.bytes + fde.pad;
    var at := if info.sized then addr + fde.sizeLen else addr;
    if info.sized {
      HoldsSplit(mem, addr, EncodeLeb(|data|, fde.sizeLen), data);
      UnsignedRoundTrip(mem, addr, |data|, fde.sizeLen);
    }
    HoldsSplit(mem, at, fde.lsda.bytes, fde.pad);
    PointerRead(mem, at, fde.lsda, info.lsdaEncoding, BasesOf(pi));
  }

  lemma FdeBodyRead(mem: Memory, addr: int, end: int, fde: Fde, info: CieInfo, pi: ProcInfo, need: bool)
    requires FdeOk(mem, fde, info, addr, BasesOf(pi)) && Holds(mem, addr, FdeBytes(fde, info))
    requires need && info.abiMarker && info.sized ==> end + 4 <= |mem| && addr + |FdeBytes(fde, info)| <= end
    ensures FdeBody(mem, addr, end, pi, info, need) == Extracted(end, FdeMeaning(fde, info, addr, end, pi, need), Ok(()))
  {
    hide Pow2, PointerMeans, ReadEncodedPointer, FdeAug, AugBodyOk, FdeTail;
    var aug := FdeAug(fde, info);
    HoldsSplit(mem, addr, fde.start.bytes, fde.range.bytes + (aug + fde.instrs));
    HoldsSplit(mem, addr + |fde.start.bytes|, fde.range.bytes, aug + fde.instrs);
    HoldsSplit(mem, FdeAugAddr(fde, addr), aug, fde.instrs);
    PointerRead(mem, addr, fde.start, info.fdeEncoding, BasesOf(pi));
    PointerRead(mem, addr + |fde.start.bytes|, fde.range, info.fdeEncoding % 0x10, BasesOf(pi));
    var pi' := pi.(startIp := fde.start.target, endIp := Wrap(fde.start.target + fde.range.target), handler := info.handler);
    FdeTailRead(mem, FdeAugAddr(fde, addr), end, fde, info, pi', need);
  }

  /** The CIE pointer of an FDE: section-relative in .debug_frame, relative to itself
      in .eh_frame. */
  function CieOffset(wide: bool, addr: int, cieAddr: int, base: int): int {
    if base != 0 then cieAddr - base else addr + IdOffset(wide) - cieAddr
  }

  /** The offset fits, and is no id of a CIE. */
  predicate OffsetOk(wide: bool, offset: int, base: int) {
    && (if wide then -TWO_63 <= offset < TWO_63 else -0x8000_0000 <= offset < 0x8000_0000)
    && (if base == 0 then offset != 0 else offset != -1 && offset != 0xffff_ffff)
  }

  function StoredOffset(wide: bool, offset: int): Word {
    if wide then Wrap(offset) else offset % TWO_32
  }

  function FdeRecord(fde: Fde, info: CieInfo, offset: int): seq<Byte>
    requires fde.sizeLen > 0
  {
    Record(fde.wide, StoredOffset(fde.wide, offset), FdeBytes(fde, info))
  }

  predicate FdeWritten(mem: Memory, fde: Fde, info: CieInfo, addr: int, offset: int, bases: Bases) {
    && FdeOk(mem, fde, info, BodyAddr(fde.wide, addr), bases)
    && RecordOk(fde.wide, StoredOffset(fde.wide, offset), FdeBytes(fde, info))
    && Holds(mem, addr, FdeRecord(fde, info, offset))
  }

  lemma OffsetRead(wide: bool, offset: int, base: int)
    requires OffsetOk(wide, offset, base)
    ensures (if wide then Signed(StoredOffset(wide, offset)) else Signed32(StoredOffset(wide, offset))) == offset
    ensures !IsCieId(Wrap(offset), base != 0)
  {
  }

  lemma RecordNotEmpty(wide: bool, id: Word, body: seq<Byte>)
    ensures |Record(wide, id, body)| > IdOffset(wide)
  {
    hide LittleBytes;
  }

  /** Parsing undoes writing, for every CIE and FDE in either format: alignment
      factors, return column, handler, LSDA, ip range and both instruction ranges come
      back, and the address moves to the next record. */
  lemma FdeRoundTrip(mem: Memory, addr: int, cieAddr: int, cie: Cie, fde: Fde, base: int, pi: ProcInfo, need: bool,
                     info: CieInfo, offset: int)
    requires CieWritten(mem, cie, cieAddr, base, BasesOf(pi)) && info == CieMeaning(cie, cieAddr, base)
    requires offset == CieOffset(fde.wide, addr, cieAddr, base) && OffsetOk(fde.wide, offset, base)
    requires FdeWritten(mem, fde, info, addr, offset, BasesOf(pi))
    requires need && info.abiMarker && info.sized ==> addr + |FdeRecord(fde, info, offset)| + 4 <= |mem|
    ensures var end := addr + |FdeRecord(fde, info, offset)|;
            ExtractFde(mem, addr, pi, need, base)
            == Extracted(end, FdeMeaning(fde, info, BodyAddr(fde.wide, addr), end, pi, need), Ok(()))
  {
    hide *;
    FdeWrittenParts(mem, fde, info, addr, offset, BasesOf(pi));
    var body, end := BodyAddr(fde.wide, addr), addr + |FdeRecord(fde, info, offset)|;
    var id := StoredOffset(fde.wide, offset);
    RecordRead(mem, addr, fde.wide, id, FdeBytes(fde, info));
    RecordNotEmpty(fde.wide, id, FdeBytes(fde, info));
    OffsetRead(fde.wide, offset, base);
    OffsetBack(fde.wide, addr, cieAddr, base);
    CieRoundTrip(mem, cieAddr, cie, BasesOf(pi), base);
    ExtractSteps(mem, addr, pi, need, base, end, fde.wide, id, offset, cieAddr, info);
    FdeBodyRead(mem, body, end, fde, info, pi, need);
  }

  lemma CieWrittenParts(mem: Memory, cie: Cie, addr: int, base: int, bases: Bases)
    requires CieWritten(mem, cie, addr, base, bases)
    ensures LengthsOk(cie) && Holds(mem, addr, CieRecord(cie, base))
  {
    hide RecordOk, AugPartOk, CieBody, AugDataAddr, Holds, CieRecord;
  }

  lemma FdeWrittenParts(mem: Memory, fde: Fde, info: CieInfo, addr: int, offset: int, bases: Bases)
    requires FdeWritten(mem, fde, info, addr, offset, bases)
    ensures 0 < fde.sizeLen && FdeOk(mem, fde, info, BodyAddr(fde.wide, addr), bases)
    ensures RecordOk(fde.wide, StoredOffset(fde.wide, offset), FdeBytes(fde, info))
    ensures Holds(mem, addr, FdeRecord(fde, info, offset))
    ensures FdeRecord(fde, info, offset) == Record(fde.wide, StoredOffset(fde.wide, offset), FdeBytes(fde, info))
    ensures addr + |FdeRecord(fde, info, offset)| == BodyAddr(fde.wide, addr) + |FdeBytes(fde, info)|
  {
    hide FdeBytes, Holds, AugBodyOk, PointerMeans, Pow2, LittleBytes;
  }

  /** The CIE pointer leads back to the CIE. */
  lemma OffsetBack(wide: bool, addr: int, cieAddr: int, base: int)
    ensures var offset := CieOffset(wide, addr, cieAddr, base);
            cieAddr == if base != 0 then base + offset else addr + IdOffset(wide) - offset
    ensures BodyAddr(wide, addr) == addr + IdOffset(wide) + Width(wide)
  {
  }

  lemma ExtractSteps(mem: Memory, addr: int, pi: ProcInfo, need: bool, base: int,
                     end: int, wide: bool, id: Word, offset: int, cieAddr: int, info: CieInfo)
    requires ReadLength(mem, addr) == Ok((end, addr + IdOffset(wide), Width(wide))) && end > addr + IdOffset(wide)
    requires Fixed(mem, addr + IdOffset(wide), Width(wide)) == Ok((id, BodyAddr(wide, addr)))
    requires offset == (if wide then Signed(id) else Signed32(id)) && !IsCieId(Wrap(offset), base != 0)
    requires cieAddr == if base != 0 then base + offset else addr + IdOffset(wide) - offset
    requires ParseCie(mem, cieAddr, BasesOf(pi), base) == Ok(info)
    ensures ExtractFde(mem, addr, pi, need, base) == FdeBody(mem, BodyAddr(wide, addr), end, pi, info, need)
  {
    hide ReadLength, Fixed, ParseCie, FdeBody, Signed, Signed32, Wrap;
  }
}
