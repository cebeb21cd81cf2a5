/** Frame description: `parse_cie` and `dwarf_extract_proc_info_from_fde` (Gfde.c),
    as functions of memory. */
module FrameInfo {
  import opened Words
  import opened Leb128
  import opened Pointers

  const CH_Z: Byte := 0x7a
  const CH_L: Byte := 0x4c
  const CH_R: Byte := 0x52
  const CH_P: Byte := 0x50
  const CH_S: Byte := 0x53

  /** `dwarf_cie_info_t`. */
  datatype CieInfo = CieInfo(
    cieStart: int, cieEnd: int, fdeStart: int, fdeEnd: int,
    codeAlign: Word, dataAlign: Word, retCol: Word, handler: Word,
    fdeEncoding: Byte, lsdaEncoding: Byte,
    sized: bool, abiMarker: bool, signalFrame: bool)

  /** The fields of `unw_proc_info_t` that matter here; `info` is None when no unwind
      info was asked for. */
  datatype ProcInfo = ProcInfo(
    startIp: Word, endIp: Word, lsda: Word, handler: Word, gp: Word, info: Option<CieInfo>)

  function BasesOf(pi: ProcInfo): Bases {
    Bases(pi.gp, pi.startIp)
  }

  // ----- CIE -----

  /** The record length: its end, where its id starts, and the width of the id. */
  function ReadLength(mem: Memory, addr: int): (r: Result<(int, int, nat)>)
    ensures r.Ok? ==> r.value.2 == 4 || r.value.2 == 8
    ensures r.Ok? ==> addr < r.value.1 <= r.value.0
  {
    var (len, a) :- Fixed(mem, addr, 4);
    if len != 0xffff_ffff then Ok((a + len, a, 4))
    else
      var (len8, a8) :- Fixed(mem, a, 8);
      Ok((a8 + len8, a8, 8))
  }

  /** The id that marks a CIE. */
  function ExpectedId(width: nat, base: int): Word {
    if base == 0 then 0 else if width == 4 then 0xffff_ffff else 0xffff_ffff_ffff_ffff
  }

  function ParseCie(mem: Memory, addr: int, bases: Bases, base: int): Result<CieInfo> {
    var (end, idAddr, width) :- ReadLength(mem, addr);
    var (id, body) :- Fixed(mem, idAddr, width);
    if id != ExpectedId(width, base) then Err(Inval)
    else ParseCieBody(mem, body, end, bases)
  }

  function ParseCieBody(mem: Memory, addr: int, end: int, bases: Bases): Result<CieInfo> {
    var (version, a1) :- Fixed(mem, addr, 1);
    if version != 1 && version != 3 then Err(BadVersion)
    else
      var (aug, a2) :- ReadAugString(mem, a1, []);
      ParseFactors(mem, a2, end, bases, version, aug)
  }

  /** The augmentation string; only its first four characters are kept. */
  function ReadAugString(mem: Memory, addr: int, kept: seq<Byte>): (r: Result<(seq<Byte>, int)>)
    requires |kept| <= 4
    ensures r.Ok? ==> |r.value.0| <= 4
    decreases |mem| - addr
  {
    var ch :- U8(mem, addr);
    if ch == 0 then Ok((kept, addr + 1))
    else ReadAugString(mem, addr + 1, if |kept| < 4 then kept + [ch] else kept)
  }

  function ParseFactors(mem: Memory, addr: int, end: int, bases: Bases, version: Word, aug: seq<Byte>): Result<CieInfo> {
    var (codeAlign, a3) :- ReadUleb(mem, addr);
    var (dataAlign, a4) :- ReadSleb(mem, a3);
    var (retCol, a5) :- if version == 1 then Fixed(mem, a4, 1) else ReadUleb(mem, a4);
    var info := CieInfo(0, end, 0, 0, codeAlign, dataAlign, retCol, 0, PE_UDATA8, PE_OMIT, false, false, false);
    if aug != [] && aug[0] == CH_Z then
      var (augSize, a6) :- ReadUleb(mem, a5);
      AugOperands(mem, a6, aug[1..], bases, info.(sized := true))
    else AugOperands(mem, a5, aug, bases, info)
  }

  /** One operand for each character, in order. An unknown character ends the parse of
      a sized augmentation where it stands: the recorded size is not used. */
  function AugOperands(mem: Memory, addr: int, aug: seq<Byte>, bases: Bases, info: CieInfo): Result<CieInfo>
    decreases |aug|
  {
    if aug == [] then Ok(info.(cieStart := addr))
    else if aug[0] == CH_L then
      var (e, a) :- Fixed(mem, addr, 1);
      AugOperands(mem, a, aug[1..], bases, info.(lsdaEncoding := e % 0x100))
    else if aug[0] == CH_R then
      var (e, a) :- Fixed(mem, addr, 1);
      AugOperands(mem, a, aug[1..], bases, info.(fdeEncoding := e % 0x100))
    else if aug[0] == CH_P then
      var (e, a) :- Fixed(mem, addr, 1);
      var (handler, a') :- ReadEncodedPointer(mem, a, e % 0x100, bases);
      AugOperands(mem, a', aug[1..], bases, info.(handler := handler))
    else if aug[0] == CH_S then
      AugOperands(mem, addr, aug[1..], bases, info.(signalFrame := true, abiMarker := true))
    else if info.sized then Ok(info.(cieStart := addr))
    else Err(Inval)
  }

  // ----- FDE -----

  function Signed32(v: Word): int {
    if v % TWO_32 < 0x8000_0000 then v % TWO_32 else v % TWO_32 - TWO_32
  }

  /** `is_cie_id`, of an offset that was sign-extended to a word. */
  predicate IsCieId(offset: Word, debugFrame: bool) {
    if debugFrame then offset == 0xffff_ffff || offset == 0xffff_ffff_ffff_ffff else offset == 0
  }

  /** What a call leaves behind: the address of the next record, the proc-info, and
      the return code. A record that is a CIE leaves the proc-info untouched. */
  datatype Extracted = Extracted(next: int, pi: ProcInfo, r: Result<()>)

  function ExtractFde(mem: Memory, addr: int, pi: ProcInfo, need: bool, base: int): Extracted {
    var head := ReadLength(mem, addr);
    if head.Err? then Extracted(addr, pi, Err(head.error))
    else
      var (end, idAddr, width) := head.value;
      if width == 4 && end == idAddr then Extracted(addr, pi, Err(NoInfo)) // a zero length ends the table
      else
        var id := Fixed(mem, idAddr, width);
        if id.Err? then Extracted(end, pi, Err(id.error))
        else
          var offset := if width == 4 then Signed32(id.value.0) else Signed(id.value.0);
          if IsCieId(Wrap(offset), base != 0) then Extracted(end, pi, Ok(()))
          else
            var cie := ParseCie(mem, if base != 0 then base + offset else idAddr - offset, BasesOf(pi), base);
            if cie.Err? then Extracted(end, pi, Err(cie.error))
            else FdeBody(mem, id.value.1, end, pi, cie.value, need)
  }

  /** From the initial location on. */
  function FdeBody(mem: Memory, addr: int, end: int, pi: ProcInfo, cie: CieInfo, need: bool): Extracted {
    var start := ReadEncodedPointer(mem, addr, cie.fdeEncoding, BasesOf(pi));
    if start.Err? then Extracted(end, pi, Err(start.error))
    else
      var range := ReadEncodedPointer(mem, start.value.1, cie.fdeEncoding % 0x10, BasesOf(pi));
      if range.Err? then Extracted(end, pi, Err(range.error))
      else
        var pi' := pi.(startIp := start.value.0, endIp := Wrap(start.value.0 + range.value.0), handler := cie.handler);
        FdeTail(mem, range.value.1, end, pi', cie, need)
  }

  function FdeTail(mem: Memory, addr: int, end: int, pi: ProcInfo, cie: CieInfo, need: bool): Extracted {
    var size := if cie.sized then ReadUleb(mem, addr) else Ok((0, addr));
    if size.Err? then Extracted(end, pi, Err(size.error))
    else
      var lsda := ReadEncodedPointer(mem, size.value.1, cie.lsdaEncoding, BasesOf(pi));
      if lsda.Err? then Extracted(end, pi, Err(lsda.error))
      else
        var pi' := pi.(lsda := lsda.value.0);
        if !need then Extracted(end, pi', Ok(()))
        else
          // the ABI marker: two 16-bit values that nothing reads
          var marker := if cie.abiMarker then Fixed(mem, lsda.value.1, 4) else Ok((0, lsda.value.1));
          if marker.Err? then Extracted(end, pi', Err(marker.error))
          else
            var fdeStart := if cie.sized then size.value.1 + size.value.0 else marker.value.1;
            Extracted(end, pi'.(info := Some(cie.(fdeStart := fdeStart, fdeEnd := end))), Ok(()))
  }
}
