/** Machine words, bytes and the outcome type shared by every component.

    `unw_word_t` is a 64-bit unsigned integer; it is modelled as an integer in
    [0, 2^64) and every wrap-around is written out. Memory is a finite sequence
    of bytes addressed from zero: the repository reads its own address space
    directly, and a read outside the mapped bytes is the outcome `Fault`. */
module Words {

  const TWO_7: int := 0x80
  const TWO_8: int := 0x100
  const TWO_16: int := 0x1_0000
  const TWO_32: int := 0x1_0000_0000
  const TWO_63: int := 0x8000_0000_0000_0000
  const TWO_64: int := 0x1_0000_0000_0000_0000

  type Byte = b: int | 0 <= b < 0x100
  type Word = w: int | 0 <= w < 0x1_0000_0000_0000_0000
  type Memory = seq<Byte>

  /** The error returns (`-UNW_E...`), plus `Fault` for an access that traps. */
  datatype Error =
    | Fault | Inval | BadReg | NoInfo | NoMem | BadVersion | BadFrame | StopUnwind | Unspec

  datatype Result<+T> = Ok(value: T) | Err(error: Error) {
    predicate IsFailure() { Err? }

    function PropagateFailure<U>(): Result<U>
      requires Err?
    {
      Err(error)
    }

    function Extract(): T
      requires Ok?
    {
      value
    }
  }

  datatype Option<+T> = None | Some(value: T)

  /** Reduction of any integer to the 64-bit word that represents it. */
  function Wrap(x: int): (w: Word) {
    x % TWO_64
  }

  /** The value of a word read as a two's complement `int64_t`. */
  function Signed(w: Word): (x: int)
    ensures -TWO_63 <= x < TWO_63
    ensures Wrap(x) == w
  {
    if w < TWO_63 then w else w - TWO_64
  }

  /** `x` doubled `k` times: the shift `x * 2^k`, without any width. */
  function Scale(x: int, k: nat): int {
    if k == 0 then x else 2 * Scale(x, k - 1)
  }

  function Pow2(k: nat): int {
    Scale(1, k)
  }

  lemma {:induction false} ScaleAdd(x: int, y: int, k: nat)
    ensures Scale(x + y, k) == Scale(x, k) + Scale(y, k)
  {
    if k > 0 {
      ScaleAdd(x, y, k - 1);
    }
  }

  lemma {:induction false} ScaleTwice(x: int, j: nat, k: nat)
    ensures Scale(Scale(x, j), k) == Scale(x, j + k)
  {
    if k > 0 {
      ScaleTwice(x, j, k - 1);
    }
  }

  lemma {:induction false} ScaleOrder(x: int, y: int, k: nat)
    requires x < y
    ensures Scale(x, k) < Scale(y, k)
  {
    if k > 0 {
      ScaleOrder(x, y, k - 1);
    }
  }

  lemma {:induction false} ScaleZero(k: nat)
    ensures Scale(0, k) == 0
  {
    if k > 0 {
      ScaleZero(k - 1);
    }
  }

  lemma {:induction false} Pow2Grows(m: nat, n: nat)
    requires m <= n
    ensures 0 < Pow2(m) <= Pow2(n)
    decreases n
  {
    ScaleZero(m);
    ScaleOrder(0, 1, m);
    if m < n {
      Pow2Grows(m, n - 1);
    }
  }

  lemma Scale8(x: int)
    ensures Scale(x, 1) == 2 * x && Scale(x, 6) == 64 * x
    ensures Scale(x, 7) == TWO_7 * x && Scale(x, 8) == TWO_8 * x
  {
    assert Scale(x, 1) == 2 * x;
    assert Scale(x, 2) == 4 * x;
    assert Scale(x, 3) == 8 * x;
    assert Scale(x, 4) == 16 * x;
    assert Scale(x, 5) == 32 * x;
    assert Scale(x, 6) == 64 * x;
    assert Scale(x, 7) == 128 * x;
  }

  lemma Scale64(x: int)
    ensures Scale(x, 16) == TWO_16 * x && Scale(x, 32) == TWO_32 * x && Scale(x, 64) == TWO_64 * x
  {
    Scale8(x);
    Scale8(TWO_8 * x);
    ScaleTwice(x, 8, 8);
    Scale8(TWO_16 * x);
    Scale8(TWO_16 * TWO_8 * x);
    ScaleTwice(TWO_16 * x, 8, 8);
    ScaleTwice(x, 16, 16);
    Scale32(TWO_32 * x);
    ScaleTwice(x, 32, 32);
  }

  lemma Scale32(x: int)
    ensures Scale(x, 32) == TWO_32 * x
  {
    Scale8(x);
    Scale8(TWO_8 * x);
    ScaleTwice(x, 8, 8);
    Scale8(TWO_16 * x);
    Scale8(TWO_16 * TWO_8 * x);
    ScaleTwice(TWO_16 * x, 8, 8);
    ScaleTwice(x, 16, 16);
  }

  /** `x` halved `k` times, rounding down: `x >> k`. */
  function Halve(x: int, k: nat): int
    decreases k
  {
    if k == 0 then x else Halve(x / 2, k - 1)
  }

  lemma {:induction false} HalveBound(x: int, k: nat)
    ensures 0 <= x ==> 0 <= Halve(x, k) <= x
    ensures x < 0 ==> x <= Halve(x, k) < 0
    decreases k
  {
    if k > 0 {
      HalveBound(x / 2, k - 1);
    }
  }

  /** `<<` and `>>` on 64-bit words. C leaves counts above 63 undefined; x86-64
      uses the count modulo 64, and so does the model. */
  function Shl(w: Word, count: nat): Word {
    Wrap(Scale(w, count % 64))
  }

  function Shr(w: Word, count: nat): Word {
    HalveBound(w, count % 64);
    Halve(w, count % 64)
  }

  datatype Gate = AndGate | OrGate | XorGate

  function GateBit(g: Gate, a: int, b: int): (r: int)
    ensures 0 <= r <= 1
  {
    match g
    case AndGate => if a == 1 && b == 1 then 1 else 0
    case OrGate => if a == 1 || b == 1 then 1 else 0
    case XorGate => if a == b then 0 else 1
  }

  /** Bitwise combination of two numbers, bit by bit. */
  function Bitwise(g: Gate, a: nat, b: nat): nat
    decreases a + b
  {
    if a == 0 && b == 0 then 0
    else GateBit(g, a % 2, b % 2) + 2 * Bitwise(g, a / 2, b / 2)
  }

  lemma {:induction false} BitwiseBound(g: Gate, a: nat, b: nat, n: nat)
    requires a < Pow2(n) && b < Pow2(n)
    ensures Bitwise(g, a, b) < Pow2(n)
    decreases n
  {
    if n > 0 {
      BitwiseBound(g, a / 2, b / 2, n - 1);
    }
  }

  function BitOp(g: Gate, a: Word, b: Word): Word {
    Scale64(1);
    BitwiseBound(g, a, b, 64);
    Bitwise(g, a, b)
  }

  /** Or-ing a number into a field whose low bits are clear is an addition. */
  lemma {:induction false} OrDisjoint(a: nat, c: nat, k: nat)
    requires a < Pow2(k) && 0 <= Scale(c, k)
    ensures Bitwise(OrGate, a, Scale(c, k)) == a + Scale(c, k)
    decreases k
  {
    if k == 0 {
      OrZero(c);
    } else {
      OrDisjoint(a / 2, c, k - 1);
    }
  }

  lemma {:induction false} OrZero(c: nat)
    ensures Bitwise(OrGate, 0, c) == c
  {
    if c > 0 {
      OrZero(c / 2);
    }
  }

  // ----- fixed-width little-endian readers -----

  function U8(mem: Memory, addr: int): Result<Byte> {
    if 0 <= addr < |mem| then Ok(mem[addr]) else Err(Fault)
  }

  /** The little-endian value of a byte string. */
  function LittleEndian(bytes: seq<Byte>): (v: nat) {
    if bytes == [] then 0 else bytes[0] + 0x100 * LittleEndian(bytes[1..])
  }

  /** The `n`-byte little-endian encoding of the low bytes of `v`. */
  function LittleBytes(v: nat, n: nat): (bytes: seq<Byte>)
    ensures |bytes| == n
  {
    if n == 0 then [] else [v % 0x100] + LittleBytes(v / 0x100, n - 1)
  }

  lemma {:induction false} LittleEndianBound(bytes: seq<Byte>)
    ensures LittleEndian(bytes) < Pow2(8 * |bytes|)
  {
    if bytes != [] {
      LittleEndianBound(bytes[1..]);
      Pow2Step(8 * |bytes[1..]|);
    }
  }

  lemma Pow2Step(k: nat)
    ensures Pow2(k + 1) == 2 * Pow2(k)
    ensures Pow2(k + 8) == TWO_8 * Pow2(k) && Pow2(k + 7) == TWO_7 * Pow2(k)
  {
    Scale8(Pow2(k));
    ScaleTwice(1, k, 8);
    ScaleTwice(1, k, 7);
  }

  lemma {:induction false} LittleRoundTrip(v: nat, n: nat)
    requires v < Pow2(8 * n)
    ensures LittleEndian(LittleBytes(v, n)) == v
  {
    if n > 0 {
      Pow2Step(8 * (n - 1));
      assert LittleBytes(v, n)[1..] == LittleBytes(v / 0x100, n - 1);
      LittleRoundTrip(v / 0x100, n - 1);
    }
  }

  /** An `n`-byte unsigned read, n <= 8: `dwarf_readu8` to `dwarf_readu64`. */
  function ReadUnsigned(mem: Memory, addr: int, n: nat): (r: Result<Word>)
    requires n <= 8
  {
    if 0 <= addr && addr + n <= |mem| then
      LittleEndianBound(mem[addr..addr + n]);
      Pow2Grows(8 * n, 64);
      Scale64(1);
      Ok(LittleEndian(mem[addr..addr + n]))
    else Err(Fault)
  }

  /** The two's complement value of an `n`-byte number. */
  function SignExtend(v: nat, n: nat): int
    requires n > 0
  {
    if v < Pow2(8 * n - 1) then v else v - Pow2(8 * n)
  }

  /** `mem` holds `bytes` from address `addr` on. */
  predicate Holds(mem: Memory, addr: int, bytes: seq<Byte>) {
    0 <= addr && addr + |bytes| <= |mem| && mem[addr..addr + |bytes|] == bytes
  }

  lemma HoldsSplit(mem: Memory, addr: int, a: seq<Byte>, b: seq<Byte>)
    requires Holds(mem, addr, a + b)
    ensures Holds(mem, addr, a) && Holds(mem, addr + |a|, b)
  {
    var whole := mem[addr..addr + |a + b|];
    assert whole[..|a|] == a && whole[|a|..] == b;
    assert mem[addr..addr + |a|] == whole[..|a|];
    assert mem[addr + |a|..addr + |a| + |b|] == whole[|a|..];
  }
}
