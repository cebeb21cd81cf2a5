/** Encoded pointers: `dwarf_read_encoded_pointer_inlined`. */
module Pointers {
  import opened Words
  import opened Leb128

  const PE_OMIT: Byte := 0xff
  const PE_ALIGNED: Byte := 0x50
  const PE_UDATA8: Byte := 0x04

  /** The two fields of `unw_proc_info_t` that relative pointers refer to. */
  datatype Bases = Bases(gp: Word, startIp: Word)

  /** The value field, by the low four bits of the encoding. */
  function ReadFormat(mem: Memory, addr: int, format: nat): (r: Result<(Word, int)>)
    ensures r.Ok? ==> addr < r.value.1 <= |mem|
  {
    match format
    case 0x0 => Fixed(mem, addr, 8)
    case 0x1 => ReadUleb(mem, addr)
    case 0x2 => Fixed(mem, addr, 2)
    case 0x3 => Fixed(mem, addr, 4)
    case 0x4 => Fixed(mem, addr, 8)
    case 0x9 => ReadUleb(mem, addr) // the signed form is read with the unsigned reader
    case 0xa => FixedSigned(mem, addr, 2)
    case 0xb => FixedSigned(mem, addr, 4)
    case 0xc => FixedSigned(mem, addr, 8)
    case _ => Err(Inval)
  }

  function Fixed(mem: Memory, addr: int, n: nat): (r: Result<(Word, int)>)
    requires 0 < n <= 8
    ensures r.Ok? ==> addr < r.value.1 <= |mem|
  {
    var v :- ReadUnsigned(mem, addr, n);
    Ok((v, addr + n))
  }

  lemma FixedHolds(mem: Memory, addr: int, v: nat, n: nat)
    requires 0 < n <= 8 && v < Pow2(8 * n) && Holds(mem, addr, LittleBytes(v, n))
    ensures v < TWO_64 && Fixed(mem, addr, n) == Ok((v, addr + n))
  {
    hide Scale, LittleBytes, LittleEndian;
    LittleRoundTrip(v, n);
    Pow2Grows(8 * n, 64);
    Scale64(1);
  }

  function FixedSigned(mem: Memory, addr: int, n: nat): (r: Result<(Word, int)>)
    requires 0 < n <= 8
    ensures r.Ok? ==> addr < r.value.1 <= |mem|
  {
    var v :- ReadUnsigned(mem, addr, n);
    Ok((Wrap(SignExtend(v, n)), addr + n))
  }

  /** What the value is relative to, by bits 4 to 6. */
  function Apply(kind: nat, val: Word, addr: int, bases: Bases): Result<Word> {
    match kind
    case 0 => Ok(val)
    case 1 => Ok(Wrap(val + addr))
    case 3 => Ok(Wrap(val + bases.gp))
    case 4 => Ok(Wrap(val + bases.startIp))
    case _ => Err(Inval)
  }

  function ReadEncodedPointer(mem: Memory, addr: int, encoding: Byte, bases: Bases): (r: Result<(Word, int)>)
    ensures r.Ok? ==> addr <= r.value.1
    ensures r.Ok? && encoding != PE_OMIT ==> addr < r.value.1 <= |mem|
  {
    if encoding == PE_OMIT then Ok((0, addr))
    else if encoding == PE_ALIGNED then Fixed(mem, (addr + 7) / 8 * 8, 8)
    else
      var (val, next) :- ReadFormat(mem, addr, encoding % 0x10);
      // null under every application
      if val == 0 then Ok((0, next))
      else
        var v :- Apply(encoding / 0x10 % 8, val, addr, bases);
        if encoding >= 0x80 then
          var target :- ReadUnsigned(mem, v, 8);
          Ok((target, next))
        else Ok((v, next))
  }

  // ----- writing pointers -----

  /** Sizes of the fixed formats; 0 for the others. */
  function FormatSize(format: nat): (n: nat)
    ensures n <= 8
  {
    match format
    case 0x0 | 0x4 | 0xc => 8
    case 0x3 | 0xb => 4
    case 0x2 | 0xa => 2
    case _ => 0
  }

  /** Absolute or pc-relative, fixed-size and direct. */
  predicate Plain(encoding: Byte) {
    FormatSize(encoding % 0x10) > 0 && encoding / 0x10 <= 1
  }

  /** The word stored at `addr` for a pointer to `target`. */
  function Stored(target: Word, addr: int, encoding: Byte): Word {
    if target == 0 || encoding / 0x10 == 0 then target else Wrap(target - addr)
  }

  /** Whether the format can hold the stored word. */
  predicate Fits(w: Word, format: nat) {
    var n := FormatSize(format);
    if format >= 0x9 then n > 0 && -Pow2(8 * n - 1) <= Signed(w) < Pow2(8 * n - 1)
    else w < Pow2(8 * n)
  }

  /** The format can hold what has to be stored at `addr`. */
  predicate Writable(target: Word, addr: int, encoding: Byte) {
    Plain(encoding) && Fits(Stored(target, addr, encoding), encoding % 0x10)
  }

  function WritePointer(target: Word, addr: int, encoding: Byte): (bytes: seq<Byte>)
    ensures |bytes| == FormatSize(encoding % 0x10)
  {
    LittleBytes(Stored(target, addr, encoding), FormatSize(encoding % 0x10))
  }

  /** Two's complement bytes of a negative number. */
  lemma {:induction false} LittleSigned(x: int, n: nat)
    requires 0 < n <= 8 && -Pow2(8 * n - 1) <= x < Pow2(8 * n - 1)
    ensures LittleEndian(LittleBytes(Wrap(x), n)) == if x < 0 then x + Pow2(8 * n) else x
  {
    hide Scale, LittleEndian, LittleBytes;
    var y := if x < 0 then x + Pow2(8 * n) else x;
    Pow2Grows(8 * n, 64);
    Pow2Grows(0, 8 * n - 1);
    Pow2Step(8 * n - 1);
    Scale64(1);
    LittleRoundTrip(y, n);
    if x < 0 {
      var k := Pow2(64 - 8 * n) - 1;
      ScaleAdd(Pow2(64 - 8 * n), -1, 8 * n);
      ScaleAdd(1, -1, 8 * n);
      ScaleZero(8 * n);
      ScaleTwice(1, 64 - 8 * n, 8 * n);
      TruncatedBytes(Wrap(x), y, k, n);
    }
  }

  /** Only the low bytes of a number are written. */
  lemma {:induction false} TruncatedBytes(v: nat, w: nat, k: int, n: nat)
    requires v == w + Scale(k, 8 * n)
    ensures LittleBytes(v, n) == LittleBytes(w, n)
    decreases n
  {
    if n > 0 {
      var m := Scale(k, 8 * (n - 1));
      ScaleTwice(k, 8 * (n - 1), 8);
      Scale8(m);
      assert v == w + 0x100 * m;
      assert v / 0x100 == w / 0x100 + m;
      TruncatedBytes(v / 0x100, w / 0x100, k, n - 1);
    }
  }

  /** Reading a pointer gives back what was written, for every plain encoding;
      the exception is a pc-relative pointer to its own address, which is stored as
      zero and so reads as null. */
  lemma PointerRoundTrip(mem: Memory, addr: int, target: Word, encoding: Byte, bases: Bases)
    requires Writable(target, addr, encoding)
    requires Holds(mem, addr, WritePointer(target, addr, encoding))
    ensures var stored := Stored(target, addr, encoding);
            ReadEncodedPointer(mem, addr, encoding, bases)
            == Ok((if stored == 0 then 0 else target, addr + FormatSize(encoding % 0x10)))
  {
    hide FormatSize, ReadFormat, LittleBytes, Fits, Pow2, Scale;
    var stored := Stored(target, addr, encoding);
    StoredFormat(mem, addr, stored, encoding % 0x10);
    assert Apply(encoding / 0x10 % 8, stored, addr, bases) == Ok(target) || stored == 0;
  }

  /** Exactly one pointer does not survive: a pc-relative one to its own address. */
  lemma LostPointer(addr: int, target: Word, encoding: Byte)
    requires target != 0 && Plain(encoding)
    ensures Stored(target, addr, encoding) == 0 <==> encoding / 0x10 == 1 && target == Wrap(addr)
  {
  }

  lemma StoredFormat(mem: Memory, addr: int, w: Word, format: nat)
    requires FormatSize(format) > 0 && Fits(w, format)
    requires Holds(mem, addr, LittleBytes(w, FormatSize(format)))
    ensures ReadFormat(mem, addr, format) == Ok((w, addr + FormatSize(format)))
  {
    var n := FormatSize(format);
    if format >= 0x9 {
      LittleSigned(Signed(w), n);
      Pow2Grows(8 * n - 1, 8 * n);
    } else {
      LittleRoundTrip(w, n);
    }
  }

  // ----- what pointers mean -----

  /** A pointer as it lies in memory: its bytes, the number they spell, the address that
      the number stands for, and what is pointed to. */
  datatype Pointer = Pointer(bytes: seq<Byte>, number: Word, stands: Word, target: Word)

  /** Both LEB128 formats are unsigned here. */
  predicate Spells(bytes: seq<Byte>, number: Word, format: nat) {
    if format == 0x1 || format == 0x9 then IsGroup(bytes) && |bytes| <= 10 && number == Wrap(Base128(bytes))
    else FormatSize(format) > 0 && Fits(number, format) && bytes == LittleBytes(number, FormatSize(format))
  }

  /** The number is the distance to the address, by the application of the encoding: from 0,
      the pointer itself, the data, or the start of the function. */
  predicate StandsFor(number: Word, stands: Word, kind: nat, addr: int, bases: Bases) {
    match kind
    case 0 => number == stands
    case 1 => number == Wrap(stands - addr)
    case 3 => number == Wrap(stands - bases.gp)
    case 4 => number == Wrap(stands - bases.startIp)
    case _ => false
  }

  predicate OnBoundary(p: Pointer, addr: int) {
    var pad := |p.bytes| - 8;
    0 <= pad < 8 && (addr + pad) % 8 == 0 && p.bytes[pad..] == LittleBytes(p.target, 8)
  }

  /** The pointer, at `addr`, points to its target. Zero is null; an indirect pointer stands
      for the address of a word that holds the target. */
  predicate PointerMeans(mem: Memory, addr: int, p: Pointer, encoding: Byte, bases: Bases) {
    if encoding == PE_OMIT then p.bytes == [] && p.target == 0
    else if encoding == PE_ALIGNED then OnBoundary(p, addr)
    else
      && Spells(p.bytes, p.number, encoding % 0x10)
      && if p.number == 0 then p.target == 0
         else
           && StandsFor(p.number, p.stands, encoding / 0x10 % 8, addr, bases)
           && if encoding >= 0x80 then Holds(mem, p.stands, LittleBytes(p.target, 8)) else p.target == p.stands
  }

  /** Reading a pointer gives its target and the address past its bytes, in every format
      and application, direct or indirect. */
  lemma PointerRead(mem: Memory, addr: int, p: Pointer, encoding: Byte, bases: Bases)
    requires PointerMeans(mem, addr, p, encoding, bases) && Holds(mem, addr, p.bytes)
    ensures ReadEncodedPointer(mem, addr, encoding, bases) == Ok((p.target, addr + |p.bytes|))
  {
    hide ReadFormat, LittleBytes, Spells, Fixed;
    if encoding == PE_ALIGNED {
      BoundaryRead(mem, addr, p);
    } else if encoding != PE_OMIT {
      SpelledFormat(mem, addr, p.bytes, p.number, encoding % 0x10);
      if p.number != 0 {
        Applied(p.number, p.stands, encoding / 0x10 % 8, addr, bases);
        if encoding >= 0x80 {
          WordHeld(mem, p.stands, p.target);
        }
      }
    }
  }

  lemma WordHeld(mem: Memory, addr: int, w: Word)
    requires Holds(mem, addr, LittleBytes(w, 8))
    ensures ReadUnsigned(mem, addr, 8) == Ok(w) && Fixed(mem, addr, 8) == Ok((w, addr + 8))
  {
    hide LittleBytes, LittleEndian, Scale;
    Scale64(1);
    LittleRoundTrip(w, 8);
  }

  lemma BoundaryRead(mem: Memory, addr: int, p: Pointer)
    requires OnBoundary(p, addr) && Holds(mem, addr, p.bytes)
    ensures Fixed(mem, (addr + 7) / 8 * 8, 8) == Ok((p.target, addr + |p.bytes|))
  {
    hide LittleBytes, Fixed;
    var pad := |p.bytes| - 8;
    assert p.bytes == p.bytes[..pad] + p.bytes[pad..];
    HoldsSplit(mem, addr, p.bytes[..pad], p.bytes[pad..]);
    WordHeld(mem, addr + pad, p.target);
    RoundedUp(addr, pad);
  }

  lemma RoundedUp(addr: int, pad: nat)
    requires pad < 8 && (addr + pad) % 8 == 0
    ensures (addr + 7) / 8 * 8 == addr + pad
  {
  }

  lemma Applied(number: Word, stands: Word, kind: nat, addr: int, bases: Bases)
    requires StandsFor(number, stands, kind, addr, bases)
    ensures Apply(kind, number, addr, bases) == Ok(stands)
  {
    WrapBack(stands, addr);
    WrapBack(stands, bases.gp);
    WrapBack(stands, bases.startIp);
    hide Wrap;
  }

  lemma WrapBack(w: Word, d: int)
    ensures Wrap(Wrap(w - d) + d) == w
  {
  }

  lemma SpelledFormat(mem: Memory, addr: int, bytes: seq<Byte>, number: Word, format: nat)
    requires Spells(bytes, number, format) && Holds(mem, addr, bytes)
    ensures ReadFormat(mem, addr, format) == Ok((number, addr + |bytes|))
  {
    hide LittleBytes, Base128, ReadUleb, ReadSleb;
    if format == 0x1 || format == 0x9 {
      GroupMeaning(mem, addr, bytes);
    } else {
      StoredFormat(mem, addr, number, format);
    }
  }

  /** What is not read: the other formats, and a number that is not null under the other
      applications. */
  lemma PointerRejected(mem: Memory, addr: int, p: Pointer, encoding: Byte, bases: Bases)
    requires encoding != PE_OMIT && encoding != PE_ALIGNED
    ensures encoding % 0x10 !in {0x0, 0x1, 0x2, 0x3, 0x4, 0x9, 0xa, 0xb, 0xc} ==>
              ReadEncodedPointer(mem, addr, encoding, bases) == Err(Inval)
    ensures Spells(p.bytes, p.number, encoding % 0x10) && Holds(mem, addr, p.bytes) && p.number != 0
            && encoding / 0x10 % 8 in {2, 5, 6, 7} ==>
              ReadEncodedPointer(mem, addr, encoding, bases) == Err(Inval)
  {
    hide LittleBytes, Spells, Fixed, FixedSigned, ReadUleb;
    if Spells(p.bytes, p.number, encoding % 0x10) && Holds(mem, addr, p.bytes) {
      SpelledFormat(mem, addr, p.bytes, p.number, encoding % 0x10);
    }
  }

  /** A pointer that the reader gives back. */
  predicate Survives(target: Word, addr: int, encoding: Byte) {
    Writable(target, addr, encoding) && (target != 0 ==> Stored(target, addr, encoding) != 0)
  }

  /** The pointer that `WritePointer` writes. */
  function Direct(target: Word, addr: int, encoding: Byte): Pointer {
    Pointer(WritePointer(target, addr, encoding), Stored(target, addr, encoding), target, target)
  }

  lemma DirectMeans(mem: Memory, addr: int, target: Word, encoding: Byte, bases: Bases)
    requires Survives(target, addr, encoding)
    ensures PointerMeans(mem, addr, Direct(target, addr, encoding), encoding, bases)
  {
    hide LittleBytes, Fits, Pow2;
  }

  /** Written with the indirect bit, a pointer to a slot reads as the word in the slot. */
  lemma IndirectRoundTrip(mem: Memory, addr: int, slot: Word, target: Word, encoding: Byte, bases: Bases)
    requires slot != 0 && Survives(slot, addr, encoding)
    requires Holds(mem, addr, WritePointer(slot, addr, encoding)) && Holds(mem, slot, LittleBytes(target, 8))
    ensures encoding < 0x80
    ensures ReadEncodedPointer(mem, addr, encoding + 0x80, bases) == Ok((target, addr + FormatSize(encoding % 0x10)))
  {
    hide LittleBytes, Fits, Pow2, Holds;
    var p := Pointer(WritePointer(slot, addr, encoding), Stored(slot, addr, encoding), slot, target);
    PointerRead(mem, addr, p, encoding + 0x80, bases);
  }

  /** Signed LEB128 pointers are read by the unsigned reader. That gives the signed value
      exactly if bit 6 of the last byte is clear or all ten bytes are there: other negative
      offsets come out as large positive ones. */
  lemma SlebPointer(mem: Memory, addr: int, bytes: seq<Byte>)
    requires IsGroup(bytes) && |bytes| <= 10 && Holds(mem, addr, bytes)
    ensures ReadFormat(mem, addr, 0x9) == ReadSleb(mem, addr) <==> bytes[|bytes| - 1] < 0x40 || |bytes| == 10
  {
    hide Scale, Base128, ReadUleb, ReadSleb;
    var n := |bytes|;
    GroupMeaning(mem, addr, bytes);
    if bytes[n - 1] >= 0x40 {
      if n == 10 {
        ScaleTwice(1, 6, 64);
        Scale64(Pow2(6));
        Scale8(1);
        WrapShift(Base128(bytes), -64);
      } else {
        Pow2Grows(0, 7 * n);
        Pow2Grows(7 * n, 63);
        Pow2Step(63);
        Scale64(1);
        WrapDiffers(Base128(bytes), Pow2(7 * n));
      }
    }
  }

  lemma WrapDiffers(x: int, d: int)
    requires 0 < d < TWO_64
    ensures Wrap(x) != Wrap(x - d)
  {
  }

  /** So a pc-relative pointer four bytes back is read as one 124 bytes on. */
  lemma SlebBackwards(mem: Memory, addr: int, bases: Bases)
    requires 0 <= addr < |mem| < TWO_64 - 200 && mem[addr] == 0x7c
    ensures ReadSleb(mem, addr) == Ok((Wrap(-4), addr + 1))
    ensures ReadEncodedPointer(mem, addr, 0x19, bases) == Ok((addr + 124, addr + 1))
  {
    hide Scale, ReadUleb, ReadSleb, Fixed, FixedSigned, LittleEndian;
    Scale8(1);
    var bytes := [mem[addr]];
    assert mem[addr..addr + 1] == bytes;
    assert bytes[1..] == [] && Base128(bytes) == 124;
    assert SignedBase128(bytes) == -4;
    GroupMeaning(mem, addr, bytes);
    hide Base128, SignedBase128, Pow2;
  }
}
