/** The variable-length integers of DWARF (section 7.6 of DWARF v3): the readers
    of include/dwarf_i.h and the second pair in _ReadULEB.c and _ReadSLEB.c. */
module Leb128 {
  import opened Words

  const ALL_ONES: Word := 0xffff_ffff_ffff_ffff

  // ----- what the loops compute -----

  /** The unsigned reader from state (`val`, `shift`). */
  function UlebFrom(mem: Memory, addr: int, val: Word, shift: nat): (r: Result<(Word, int)>)
    ensures r.Ok? ==> addr < r.value.1 <= |mem|
    decreases |mem| - addr
  {
    var b :- U8(mem, addr);
    var v := BitOp(OrGate, val, Shl(b % 0x80, shift));
    if b >= 0x80 then UlebFrom(mem, addr + 1, v, shift + 7) else Ok((v, addr + 1))
  }

  function SlebFrom(mem: Memory, addr: int, val: Word, shift: nat): (r: Result<(Word, int)>)
    ensures r.Ok? ==> addr < r.value.1 <= |mem|
    decreases |mem| - addr
  {
    var b :- U8(mem, addr);
    var v := BitOp(OrGate, val, Shl(b % 0x80, shift));
    if b >= 0x80 then SlebFrom(mem, addr + 1, v, shift + 7)
    else if shift + 7 < 64 && b % 0x80 >= 0x40 then
      Ok((BitOp(OrGate, v, Shl(ALL_ONES, shift + 7)), addr + 1))
    else Ok((v, addr + 1))
  }

  function ReadUleb(mem: Memory, addr: int): (r: Result<(Word, int)>)
    ensures r.Ok? ==> addr < r.value.1 <= |mem|
  {
    UlebFrom(mem, addr, 0, 0)
  }

  function ReadSleb(mem: Memory, addr: int): (r: Result<(Word, int)>)
    ensures r.Ok? ==> addr < r.value.1 <= |mem|
  {
    SlebFrom(mem, addr, 0, 0)
  }

  // ----- the four decoders -----

  /** `dwarf_read_uleb128`. */
  method DwarfReadUleb128(mem: Memory, start: int) returns (r: Result<(Word, int)>)
    ensures r == ReadUleb(mem, start)
  {
    var val: Word, shift, addr := 0, 0, start;
    while true
      invariant shift >= 0
      invariant UlebFrom(mem, addr, val, shift) == ReadUleb(mem, start)
      decreases |mem| - addr
    {
      var byte :- U8(mem, addr);
      addr := addr + 1;
      val := BitOp(OrGate, val, Shl(byte % 0x80, shift));
      shift := shift + 7;
      if byte < 0x80 { break; }
    }
    r := Ok((val, addr));
  }

  /** `dwarf_read_sleb128`. */
  method DwarfReadSleb128(mem: Memory, start: int) returns (r: Result<(Word, int)>)
    ensures r == ReadSleb(mem, start)
  {
    var val: Word, shift, addr := 0, 0, start;
    var byte: Byte := 0;
    while true
      invariant shift >= 0
      invariant SlebFrom(mem, addr, val, shift) == ReadSleb(mem, start)
      decreases |mem| - addr
    {
      byte :- U8(mem, addr);
      addr := addr + 1;
      val := BitOp(OrGate, val, Shl(byte % 0x80, shift));
      shift := shift + 7;
      if byte < 0x80 { break; }
    }
    if shift < 64 && byte % 0x80 >= 0x40 {
      val := BitOp(OrGate, val, Shl(ALL_ONES, shift));
    }
    r := Ok((val, addr));
  }

  /** `_ReadULEB`: the shift is advanced only when another byte follows. */
  method SecondReadUleb(mem: Memory, dp: int) returns (r: Result<(Word, int)>)
    ensures r == ReadUleb(mem, dp)
  {
    var result: Word, shift, bp := 0, 0, dp;
    while true
      invariant shift >= 0
      invariant UlebFrom(mem, bp, result, shift) == ReadUleb(mem, dp)
      decreases |mem| - bp
    {
      var byte :- U8(mem, bp);
      bp := bp + 1;
      result := BitOp(OrGate, result, Shl(byte % 0x80, shift));
      if byte < 0x80 { break; }
      shift := shift + 7;
    }
    r := Ok((result, bp));
  }

  /** `_ReadSLEB`. */
  method SecondReadSleb(mem: Memory, dp: int) returns (r: Result<(Word, int)>)
    ensures r == ReadSleb(mem, dp)
  {
    var result: Word, shift, bp := 0, 0, dp;
    var byte: Byte := 0;
    while true
      invariant shift >= 0
      invariant SlebFrom(mem, bp, result, shift) == ReadSleb(mem, dp)
      decreases |mem| - bp
    {
      byte :- U8(mem, bp);
      bp := bp + 1;
      result := BitOp(OrGate, result, Shl(byte % 0x80, shift));
      shift := shift + 7;
      if byte < 0x80 { break; }
    }
    if shift < 64 && byte % 0x80 >= 0x40 {
      result := BitOp(OrGate, result, Shl(ALL_ONES, shift));
    }
    r := Ok((result, bp));
  }

  // ----- what a group of bytes means -----

  /** One encoded number: every byte but the last has its top bit set. */
  predicate IsGroup(bytes: seq<Byte>) {
    && bytes != []
    && (forall i :: 0 <= i < |bytes| - 1 ==> bytes[i] >= 0x80)
    && bytes[|bytes| - 1] < 0x80
  }

  /** The number in base 128, without any width. */
  function Base128(bytes: seq<Byte>): nat {
    if bytes == [] then 0 else bytes[0] % 0x80 + 0x80 * Base128(bytes[1..])
  }

  /** The signed reading: bit 6 of the last byte is the sign. */
  function SignedBase128(bytes: seq<Byte>): int
    requires bytes != []
  {
    if bytes[|bytes| - 1] % 0x80 >= 0x40 then Base128(bytes) - Pow2(7 * |bytes|)
    else Base128(bytes)
  }

  /** The encoders of section 7.6, signed and unsigned, padded to exactly `n` bytes. */
  function EncodeLeb(v: int, n: nat): (bytes: seq<Byte>)
    requires n > 0
    ensures |bytes| == n && IsGroup(bytes)
    decreases n
  {
    if n == 1 then [v % 0x80] else [0x80 + v % 0x80] + EncodeLeb(v / 0x80, n - 1)
  }

  // ----- the accumulation is a sum -----

  /** Or-ing a small number in above the bits in use adds it. */
  lemma OrAdds(val: Word, g: Word, k: nat, j: nat)
    requires k < 64 && k + j <= 64 && val < Pow2(k) && g < Pow2(j)
    ensures 0 <= Scale(g, k) && val + Scale(g, k) < Pow2(k + j) <= TWO_64
    ensures BitOp(OrGate, val, Shl(g, k)) == val + Scale(g, k)
  {
    hide Scale, Bitwise;
    ScaleNonNegative(g, k);
    SumBelow(val, g, k, j);
    Pow2Grows(k + j, 64);
    Scale64(1);
    WrapSmall(Scale(g, k));
    OrDisjoint(val, g, k);
  }

  lemma WrapSmall(x: int)
    requires 0 <= x < TWO_64
    ensures Wrap(x) == x
  {
  }

  /** Or-ing the next seven bits in at `7 * i` adds them, modulo 2^64. */
  lemma OrGroup(val: Word, g: Word, i: nat)
    requires i < 10 && val < Pow2(7 * i) && g < 0x80
    ensures BitOp(OrGate, val, Shl(g, 7 * i)) == Wrap(val + Scale(g, 7 * i))
    ensures i < 9 ==> BitOp(OrGate, val, Shl(g, 7 * i)) < Pow2(7 * i + 7)
  {
    hide Scale, Bitwise;
    Scale8(1);
    if i < 9 {
      OrAdds(val, g, 7 * i, 7);
      WrapSmall(val + Scale(g, 7 * i));
    } else {
      TopGroup(g);
      OrAdds(val, g % 2, 63, 1);
      WrapSmall(val + Scale(g % 2, 63));
      WrapShift(val + Scale(g % 2, 63), g / 2);
    }
  }

  lemma {:induction false} ScaleNonNegative(g: nat, k: nat)
    ensures 0 <= Scale(g, k)
  {
    if k > 0 {
      ScaleNonNegative(g, k - 1);
    }
  }

  lemma SumBelow(v: int, g: nat, k: nat, j: nat)
    requires v < Pow2(k) && g < Pow2(j)
    ensures v + Scale(g, k) < Pow2(k + j)
  {
    ScaleAdd(g, 1, k);
    ScaleTwice(1, j, k);
    if g + 1 < Pow2(j) {
      ScaleOrder(g + 1, Pow2(j), k);
    }
  }

  /** Bits shifted past bit 63 are lost. */
  lemma TopGroup(g: nat)
    ensures Scale(g, 63) == Scale(g % 2, 63) + g / 2 * TWO_64
    ensures Wrap(Scale(g, 63)) == Wrap(Scale(g % 2, 63))
  {
    ScaleAdd(2 * (g / 2), g % 2, 63);
    ScaleTwice(g / 2, 1, 63);
    assert Scale(g / 2, 1) == 2 * (g / 2);
    Scale64(g / 2);
    WrapShift(Scale(g % 2, 63), g / 2);
  }

  lemma WrapShift(x: int, k: int)
    ensures Wrap(x + k * TWO_64) == Wrap(x)
  {
  }

  /** Adding a wrapped number is adding the number. */
  lemma WrapAdd(x: int, y: int)
    ensures Wrap(Wrap(x) + y) == Wrap(x + y)
  {
  }

  /** One step of the accumulation, seen from the rest of the group. */
  lemma GroupStep(val: Word, bytes: seq<Byte>, i: nat)
    requires bytes != [] && i + |bytes| <= 10 && val < Pow2(7 * i)
    ensures var v := BitOp(OrGate, val, Shl(bytes[0] % 0x80, 7 * i));
            && Wrap(v + Scale(Base128(bytes[1..]), 7 * i + 7)) == Wrap(val + Scale(Base128(bytes), 7 * i))
            && (|bytes| > 1 ==> v < Pow2(7 * i + 7))
  {
    hide BitOp, Scale;
    var g, rest := bytes[0] % 0x80, Base128(bytes[1..]);
    assert Base128(bytes) == g + 0x80 * rest;
    hide Base128, Wrap;
    OrGroup(val, g, i);
    ScaleAdd(g, 0x80 * rest, 7 * i);
    Scale8(rest);
    ScaleTwice(rest, 7, 7 * i);
    WrapAdd(val + Scale(g, 7 * i), Scale(rest, 7 * i + 7));
  }

  lemma {:induction false} UlebGroup(mem: Memory, addr: int, bytes: seq<Byte>, val: Word, i: nat)
    requires IsGroup(bytes) && Holds(mem, addr, bytes)
    requires i + |bytes| <= 10 && val < Pow2(7 * i)
    ensures UlebFrom(mem, addr, val, 7 * i)
            == Ok((Wrap(val + Scale(Base128(bytes), 7 * i)), addr + |bytes|))
    decreases |bytes|
  {
    hide BitOp, Scale;
    GroupStep(val, bytes, i);
    assert mem[addr] == mem[addr..addr + |bytes|][0];
    var v := BitOp(OrGate, val, Shl(bytes[0] % 0x80, 7 * i));
    if |bytes| > 1 {
      assert bytes == [bytes[0]] + bytes[1..];
      HoldsSplit(mem, addr, [bytes[0]], bytes[1..]);
      UlebGroup(mem, addr + 1, bytes[1..], v, i + 1);
    } else {
      ScaleZero(7 * i + 7);
      WrapSmall(v);
    }
  }

  /** The bits above position `k` of the all-ones word. */
  lemma OnesShifted(k: nat)
    requires k < 64
    ensures 0 <= Pow2(64 - k) - 1 < TWO_64
    ensures Scale(Pow2(64 - k) - 1, k) == TWO_64 - Pow2(k)
    ensures Shl(ALL_ONES, k) == Shl(Pow2(64 - k) - 1, k)
  {
    hide Scale, Bitwise;
    Scale64(1);
    Pow2Grows(0, 64 - k);
    Pow2Grows(64 - k, 64);
    ScaleAdd(TWO_64, -1, k);
    ScaleAdd(1, -1, k);
    ScaleZero(k);
    ScaleTwice(1, 64, k);
    ScaleTwice(1, k, 64);
    Scale64(Pow2(k));
    ScaleAdd(Pow2(64 - k), -1, k);
    ScaleTwice(1, 64 - k, k);
    WrapShift(TWO_64 - Pow2(k), Pow2(k) - 1);
  }

  /** The last step of the signed reader. */
  lemma SignFill(v: Word, k: nat)
    requires k < 64 && v < Pow2(k)
    ensures BitOp(OrGate, v, Shl(ALL_ONES, k)) == Wrap(v - Pow2(k))
  {
    OnesShifted(k);
    OrAdds(v, Pow2(64 - k) - 1, k, 64 - k);
    WrapSmall(v + TWO_64 - Pow2(k));
    WrapShift(v - Pow2(k), 1);
  }

  /** The sign bit of a group, weighted by the group's position. */
  lemma SignedScaled(bytes: seq<Byte>, k: nat)
    requires bytes != []
    ensures Scale(SignedBase128(bytes), k)
            == Scale(Base128(bytes), k) - (if bytes[|bytes| - 1] % 0x80 >= 0x40 then Pow2(7 * |bytes| + k) else 0)
  {
    var w := Pow2(7 * |bytes|);
    if bytes[|bytes| - 1] % 0x80 >= 0x40 {
      ScaleAdd(SignedBase128(bytes), w, k);
      ScaleTwice(1, 7 * |bytes|, k);
    }
  }

  lemma {:induction false} SlebGroup(mem: Memory, addr: int, bytes: seq<Byte>, val: Word, i: nat)
    requires IsGroup(bytes) && Holds(mem, addr, bytes)
    requires i + |bytes| <= 10 && val < Pow2(7 * i)
    ensures SlebFrom(mem, addr, val, 7 * i)
            == Ok((Wrap(val + Scale(SignedBase128(bytes), 7 * i)), addr + |bytes|))
    decreases |bytes|
  {
    hide BitOp, Scale;
    GroupStep(val, bytes, i);
    SignedScaled(bytes, 7 * i);
    assert mem[addr] == mem[addr..addr + |bytes|][0];
    var v := BitOp(OrGate, val, Shl(bytes[0] % 0x80, 7 * i));
    if |bytes| > 1 {
      var rest := bytes[1..];
      assert bytes == [bytes[0]] + rest;
      HoldsSplit(mem, addr, [bytes[0]], rest);
      SlebGroup(mem, addr + 1, rest, v, i + 1);
      SignedScaled(rest, 7 * i + 7);
      WrapSub(v + Scale(Base128(rest), 7 * i + 7), val + Scale(Base128(bytes), 7 * i), Pow2(7 * |bytes| + 7 * i));
    } else {
      LastSigned(val, v, bytes, i);
    }
  }

  lemma WrapSub(x: int, y: int, m: int)
    requires Wrap(x) == Wrap(y)
    ensures Wrap(x - m) == Wrap(y - m)
  {
    WrapAdd(x, -m);
    WrapAdd(y, -m);
  }

  lemma LastSigned(val: Word, v: Word, bytes: seq<Byte>, i: nat)
    requires |bytes| == 1 && i < 10 && val < Pow2(7 * i)
    requires v == BitOp(OrGate, val, Shl(bytes[0] % 0x80, 7 * i))
    ensures Wrap(val + Scale(SignedBase128(bytes), 7 * i))
            == if 7 * i + 7 < 64 && bytes[0] % 0x80 >= 0x40 then BitOp(OrGate, v, Shl(ALL_ONES, 7 * i + 7)) else v
  {
    hide Scale, Bitwise;
    var g := bytes[0] % 0x80;
    assert Base128(bytes) == g;
    OrGroup(val, g, i);
    SignedScaled(bytes, 7 * i);
    if g >= 0x40 {
      if i < 9 {
        SignFill(v, 7 * i + 7);
        WrapSmall(v);
        hide Wrap, SignedBase128, Base128;
        WrapSub(v, val + Scale(g, 7 * i), Pow2(7 * i + 7));
      } else {
        ScaleTwice(1, 6, 64);
        Scale64(Pow2(6));
        Scale8(1);
        WrapShift(val + Scale(g, 63), -64);
      }
    }
  }

  // ----- main results -----

  /** Every group of at most ten bytes reads as its base-128 value modulo 2^64,
      and exactly its bytes are consumed. */
  lemma GroupMeaning(mem: Memory, addr: int, bytes: seq<Byte>)
    requires IsGroup(bytes) && |bytes| <= 10 && Holds(mem, addr, bytes)
    ensures ReadUleb(mem, addr) == Ok((Wrap(Base128(bytes)), addr + |bytes|))
    ensures ReadSleb(mem, addr) == Ok((Wrap(SignedBase128(bytes)), addr + |bytes|))
  {
    UlebGroup(mem, addr, bytes, 0, 0);
    SlebGroup(mem, addr, bytes, 0, 0);
  }

  lemma FirstGroup(v: int, rest: seq<Byte>)
    ensures Base128([0x80 + v % 0x80] + rest) == v % 0x80 + 0x80 * Base128(rest)
    ensures v == v % 0x80 + 0x80 * (v / 0x80)
  {
    assert ([0x80 + v % 0x80] + rest)[1..] == rest;
  }

  lemma SignedFirst(b: Byte, rest: seq<Byte>)
    requires rest != []
    ensures SignedBase128([b] + rest) == b % 0x80 + 0x80 * SignedBase128(rest)
  {
    hide Scale;
    var bytes := [b] + rest;
    assert bytes[1..] == rest && bytes[|bytes| - 1] == rest[|rest| - 1];
    Pow2Step(7 * |rest|);
  }

  lemma {:induction false} EncodedUnsigned(v: nat, n: nat)
    requires n > 0 && v < Pow2(7 * n)
    ensures Base128(EncodeLeb(v, n)) == v
  {
    Scale8(1);
    hide Scale;
    if n > 1 {
      Pow2Step(7 * (n - 1));
      hide Base128, Pow2;
      EncodedUnsigned(v / 0x80, n - 1);
      FirstGroup(v, EncodeLeb(v / 0x80, n - 1));
    }
  }

  lemma {:induction false} EncodedSigned(v: int, n: nat)
    requires n > 0 && -Pow2(7 * n - 1) <= v < Pow2(7 * n - 1)
    ensures SignedBase128(EncodeLeb(v, n)) == v
    decreases n
  {
    Scale8(1);
    hide Scale;
    var bytes := EncodeLeb(v, n);
    if n > 1 {
      var rest := EncodeLeb(v / 0x80, n - 1);
      Pow2Step(7 * (n - 1) - 1);
      hide Base128, SignedBase128, Pow2;
      EncodedSigned(v / 0x80, n - 1);
      SignedFirst(0x80 + v % 0x80, rest);
    } else {
      assert Base128(bytes) == v % 0x80;
    }
  }

  /** Reading undoes encoding for every 64-bit value and every number of bytes
      that can hold it, from the shortest form to ten bytes. */
  lemma UnsignedRoundTrip(mem: Memory, addr: int, v: Word, n: nat)
    requires 0 < n <= 10 && v < Pow2(7 * n)
    requires Holds(mem, addr, EncodeLeb(v, n))
    ensures ReadUleb(mem, addr) == Ok((v, addr + n))
  {
    EncodedUnsigned(v, n);
    GroupMeaning(mem, addr, EncodeLeb(v, n));
    WrapSmall(v);
  }

  lemma SignedRoundTrip(mem: Memory, addr: int, v: int, n: nat)
    requires -TWO_63 <= v < TWO_63
    requires 0 < n <= 10 && -Pow2(7 * n - 1) <= v < Pow2(7 * n - 1)
    requires Holds(mem, addr, EncodeLeb(v, n))
    ensures ReadSleb(mem, addr) == Ok((Wrap(v), addr + n))
  {
    EncodedSigned(v, n);
    GroupMeaning(mem, addr, EncodeLeb(v, n));
  }

  /** Ten bytes hold every 64-bit value. */
  lemma TenBytesSuffice(n: nat)
    requires n == 10
    ensures TWO_64 <= Pow2(7 * n) && TWO_63 <= Pow2(7 * n - 1)
  {
    Scale64(1);
    Pow2Grows(64, 7 * n - 1);
    Pow2Grows(64, 7 * n);
  }
}
