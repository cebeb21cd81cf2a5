/** The parsers of Gfde.c as they run: `dci` and `*pi` are filled step by step. */
module FrameParser {
  import opened Words
  import opened Leb128
  import opened Pointers
  import opened FrameInfo

  /** `unw_proc_info_t`. */
  class UnwProcInfo {
    var startIp: Word
    var endIp: Word
    var lsda: Word
    var handler: Word
    var gp: Word
    var info: Option<CieInfo>

    /** Cleared memory, as `fetch_proc_info` hands it over. */
    constructor ()
      ensures Abs() == ProcInfo(0, 0, 0, 0, 0, None)
    {
      startIp, endIp, lsda, handler, gp, info := 0, 0, 0, 0, 0, None;
    }

    function Abs(): ProcInfo
      reads this
    {
      ProcInfo(startIp, endIp, lsda, handler, gp, info)
    }
  }

  /** `parse_cie`, filling a cleared `dci`. */
  method ParseCieRecord(mem: Memory, start: int, bases: Bases, base: int) returns (r: Result<CieInfo>)
    ensures r == ParseCie(mem, start, bases, base)
  {
    hide Fixed, ParseCieBody;
    var addr := start;
    var cieEnd: int;
    var u32val :- Fixed(mem, addr, 4);
    addr := u32val.1;
    var body: int;
    if u32val.0 != 0xffff_ffff {
      // 32-bit format
      cieEnd := addr + u32val.0;
      var cieId :- Fixed(mem, addr, 4);
      if cieId.0 != (if base != 0 then 0xffff_ffff else 0) {
        return Err(Inval);
      }
      body := cieId.1;
    } else {
      var u64val :- Fixed(mem, addr, 8);
      addr := u64val.1;
      cieEnd := addr + u64val.0;
      var cieId :- Fixed(mem, addr, 8);
      if cieId.0 != (if base != 0 then 0xffff_ffff_ffff_ffff else 0) {
        return Err(Inval);
      }
      body := cieId.1;
    }
    r := ParseCieFields(mem, body, cieEnd, bases);
  }

  /** The rest of `parse_cie`, from the version on. */
  method ParseCieFields(mem: Memory, start: int, cieEnd: int, bases: Bases) returns (r: Result<CieInfo>)
    ensures r == ParseCieBody(mem, start, cieEnd, bases)
  {
    hide Fixed, ReadUleb, ReadSleb, AugOperands;
    var version :- Fixed(mem, start, 1);
    if version.0 != 1 && version.0 != 3 {
      return Err(BadVersion);
    }
    // all characters are read, four are kept
    var addr := version.1;
    var augstr: seq<Byte> := [];
    while true
      invariant |augstr| <= 4
      invariant ReadAugString(mem, addr, augstr) == ReadAugString(mem, version.1, [])
      decreases |mem| - addr
    {
      var ch :- U8(mem, addr);
      addr := addr + 1;
      if ch == 0 { break; }
      if |augstr| < 4 {
        augstr := augstr + [ch];
      }
    }
    var dci := CieInfo(0, cieEnd, 0, 0, 0, 0, 0, 0, PE_UDATA8, PE_OMIT, false, false, false);
    var codeAlign :- ReadUleb(mem, addr);
    dci := dci.(codeAlign := codeAlign.0);
    var dataAlign :- ReadSleb(mem, codeAlign.1);
    dci := dci.(dataAlign := dataAlign.0);
    // one byte in version 1
    if version.0 == 1 {
      var ch :- Fixed(mem, dataAlign.1, 1);
      dci, addr := dci.(retCol := ch.0), ch.1;
    } else {
      var col :- ReadUleb(mem, dataAlign.1);
      dci, addr := dci.(retCol := col.0), col.1;
    }
    var i := 0;
    if augstr != [] && augstr[0] == CH_Z {
      dci := dci.(sized := true);
      var augSize :- ReadUleb(mem, addr);
      addr, i := augSize.1, 1;
    }
    r := ParseAugOperands(mem, addr, augstr[i..], bases, dci);
  }

  /** The loop over the augmentation string. */
  method ParseAugOperands(mem: Memory, start: int, aug: seq<Byte>, bases: Bases, dci0: CieInfo) returns (r: Result<CieInfo>)
    ensures r == AugOperands(mem, start, aug, bases, dci0)
  {
    hide Fixed, ReadEncodedPointer;
    var addr, dci, i := start, dci0, 0;
    while i < |aug|
      invariant 0 <= i <= |aug|
      invariant AugOperands(mem, addr, aug[i..], bases, dci) == AugOperands(mem, start, aug, bases, dci0)
    {
      assert aug[i..][0] == aug[i] && aug[i..][1..] == aug[i + 1..];
      if aug[i] == CH_L {
        var ch :- Fixed(mem, addr, 1);
        dci, addr := dci.(lsdaEncoding := ch.0 % 0x100), ch.1;
      } else if aug[i] == CH_R {
        var ch :- Fixed(mem, addr, 1);
        dci, addr := dci.(fdeEncoding := ch.0 % 0x100), ch.1;
      } else if aug[i] == CH_P {
        var encoding :- Fixed(mem, addr, 1);
        var handler :- ReadEncodedPointer(mem, encoding.1, encoding.0 % 0x100, bases);
        dci, addr := dci.(handler := handler.0), handler.1;
      } else if aug[i] == CH_S {
        dci := dci.(signalFrame := true);
        dci := dci.(abiMarker := true);
      } else if dci.sized {
        break;
      } else {
        return Err(Inval);
      }
      i := i + 1;
    }
    dci := dci.(cieStart := addr);
    r := Ok(dci);
  }

  /** `dwarf_extract_proc_info_from_fde`: `*addrp` and `*pi` are updated as far as the
      parse gets, whatever the return code. */
  method ExtractProcInfo(mem: Memory, addrp: int, pi: UnwProcInfo, need: bool, base: int)
    returns (next: int, r: Result<()>)
    modifies pi
    ensures Extracted(next, pi.Abs(), r) == ExtractFde(mem, addrp, old(pi.Abs()), need, base)
  {
    hide Fixed, ParseCie, ReadEncodedPointer, ReadUleb;
    next := addrp;
    var u32val := Fixed(mem, addrp, 4);
    if u32val.Err? { return next, Err(u32val.error); }
    var addr := u32val.value.1;
    var offset: int;
    if u32val.value.0 != 0xffff_ffff {
      // end of the section
      if u32val.value.0 == 0 { return next, Err(NoInfo); }
      next := addr + u32val.value.0;
      var id := Fixed(mem, addr, 4);
      if id.Err? { return next, Err(id.error); }
      offset := Signed32(id.value.0);
      if IsCieId(Wrap(offset), base != 0) { return next, Ok(()); }
      offset := if base != 0 then base + offset else addr - offset;
      addr := id.value.1;
    } else {
      var u64val := Fixed(mem, addr, 8);
      if u64val.Err? { return next, Err(u64val.error); }
      addr := u64val.value.1;
      next := addr + u64val.value.0;
      var id := Fixed(mem, addr, 8);
      if id.Err? { return next, Err(id.error); }
      offset := Signed(id.value.0);
      if IsCieId(Wrap(offset), base != 0) { return next, Ok(()); }
      offset := if base != 0 then base + offset else addr - offset;
      addr := id.value.1;
    }
    var dci := ParseCieRecord(mem, offset, BasesOf(pi.Abs()), base);
    if dci.Err? { return next, Err(dci.error); }
    r := FillProcInfo(mem, addr, next, pi, dci.value, need);
  }

  /** The second half, from the initial location on. */
  method FillProcInfo(mem: Memory, start: int, fdeEnd: int, pi: UnwProcInfo, cie: CieInfo, need: bool) returns (r: Result<()>)
    modifies pi
    ensures Extracted(fdeEnd, pi.Abs(), r) == FdeBody(mem, start, fdeEnd, old(pi.Abs()), cie, need)
  {
    hide Fixed, ReadEncodedPointer, ReadUleb;
    var dci := cie;
    var startIp :- ReadEncodedPointer(mem, start, dci.fdeEncoding, BasesOf(pi.Abs()));
    var ipRange :- ReadEncodedPointer(mem, startIp.1, dci.fdeEncoding % 0x10, BasesOf(pi.Abs()));
    pi.startIp := startIp.0;
    var length: int := ipRange.0;
    pi.endIp := Wrap(startIp.0 + length);
    pi.handler := dci.handler;
    var addr, augEnd := ipRange.1, 0;
    if dci.sized {
      var augSize :- ReadUleb(mem, addr);
      addr := augSize.1;
      augEnd := addr + augSize.0;
    }
    var lsda :- ReadEncodedPointer(mem, addr, dci.lsdaEncoding, BasesOf(pi.Abs()));
    addr := lsda.1;
    pi.lsda := lsda.0;
    if need {
      if dci.abiMarker {
        var marker :- Fixed(mem, addr, 4);
        addr := marker.1;
      }
      dci := dci.(fdeStart := if dci.sized then augEnd else addr);
      dci := dci.(fdeEnd := fdeEnd);
      pi.info := Some(dci);
    }
    r := Ok(());
  }
}
