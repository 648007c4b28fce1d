/** Machine integer types and outcome wrappers shared by every component. */
module Types {

  /** Rust's `u8`: registers, timers, memory cells, sprite rows. */
  newtype Byte = x: int | 0 <= x < 0x100

  /** Rust's `u16`: program counter, index register, opcodes, stack entries. */
  newtype Word = x: int | 0 <= x < 0x1_0000

  /** A 4-bit field of an opcode, also used as a register number. */
  type Nibble = x: nat | x < 16

  const I32_MIN: int := -0x8000_0000
  const I32_MAX: int := 0x7FFF_FFFF

  /** Values that fit Rust's `i32` (the clock frequency and the tick counter). */
  predicate IsI32(x: int) {
    I32_MIN <= x <= I32_MAX
  }

  datatype Option<T> = None | Some(value: T)

  /** The result of an operation that the Rust code may abort with a panic
      (an out-of-bounds index, a `u16` overflow in a debug build, a stack
      over- or underflow, a remainder by zero). */
  datatype Run<T> = Ok(value: T) | Panic

  /** Truncation of an integer to 8 bits (`as u8`, wrapping arithmetic). */
  function Wrap8(x: int): Byte {
    (x % 0x100) as Byte
  }

  /** `u8::saturating_sub(1)`. */
  function SatDec(x: Byte): Byte {
    if x == 0 then 0 else x - 1
  }

  /** The bitwise operators of Rust, combining the operands bit by bit. */
  datatype BitOp = AndBits | OrBits | XorBits

  /** One bit of the result from one bit (0 or 1) of each operand. */
  function CombineBits(op: BitOp, p: nat, q: nat): nat {
    match op
    case AndBits => if p > 0 && q > 0 then 1 else 0
    case OrBits => if p > 0 || q > 0 then 1 else 0
    case XorBits => if (p > 0) != (q > 0) then 1 else 0
  }

  /** The low k bits of `a op b`, least significant bit first. */
  function Bitwise(op: BitOp, a: nat, b: nat, k: nat): (r: nat)
    ensures r < Pow2(k)
    decreases k
  {
    if k == 0 then 0
    else 2 * Bitwise(op, a / 2, b / 2, k - 1) + CombineBits(op, a % 2, b % 2)
  }

  /** `&`, `|` and `^` on `u8`. */
  function And8(a: Byte, b: Byte): Byte {
    Bitwise(AndBits, a as nat, b as nat, 8) as Byte
  }

  function Or8(a: Byte, b: Byte): Byte {
    Bitwise(OrBits, a as nat, b as nat, 8) as Byte
  }

  function Xor8(a: Byte, b: Byte): Byte {
    Bitwise(XorBits, a as nat, b as nat, 8) as Byte
  }

  /** `a >> b` on `u8`: b halvings, each dropping the low bit. */
  function ShiftRight8(a: Byte, b: nat): (r: Byte)
    ensures r <= a
  {
    if b == 0 then a else ShiftRight8(a / 2, b - 1)
  }

  /** Zero combined with zero is zero, in every bit. */
  lemma {:induction false} BitwiseOfZeros(op: BitOp, k: nat)
    ensures Bitwise(op, 0, 0, k) == 0
  {
    if k > 0 {
      BitwiseOfZeros(op, k - 1);
    }
  }

  /** On one-bit operands the operators act on the lowest bit alone. */
  lemma BitwiseOfBits(op: BitOp, p: nat, q: nat, k: nat)
    requires p <= 1 && q <= 1 && k >= 1
    ensures Bitwise(op, p, q, k) == CombineBits(op, p, q)
  {
    BitwiseOfZeros(op, k - 1);
  }

  /** On one-bit values `|` and `&` are disjunction and conjunction: the
      collision flag of a sprite draw stays a 0/1 value. */
  lemma FlagStep(f: Byte, b: Byte, l: Byte)
    requires f <= 1 && b <= 1 && l <= 1
    ensures Or8(f, And8(b, l)) == if f == 1 || (b == 1 && l == 1) then 1 else 0
  {
    BitwiseOfBits(AndBits, b as nat, l as nat, 8);
    BitwiseOfBits(OrBits, f as nat, And8(b, l) as nat, 8);
  }

  /** Masking with j low one-bits keeps the value modulo 2^j. */
  lemma {:induction false} MaskIsMod(a: nat, j: nat, k: nat)
    requires j <= k
    ensures Bitwise(AndBits, a, Pow2(j) - 1, k) == a % Pow2(j)
    decreases k
  {
    if j == 0 {
      MaskOfZero(a, k);
      assert Pow2(j) == 1;
    } else {
      var m := Pow2(j - 1);
      assert Pow2(j) == 2 * m;
      MaskStep(a, m, k);
      MaskIsMod(a / 2, j - 1, k - 1);
      HalveMod(a, m);
      assert Bitwise(AndBits, a, 2 * m - 1, k) == a % (2 * m);
    }
  }

  /** One step of the mask: the low bit of `2 m - 1` is set and its upper
      bits are `m - 1`. */
  lemma MaskStep(a: nat, m: nat, k: nat)
    requires m >= 1 && k >= 1
    ensures Bitwise(AndBits, a, 2 * m - 1, k) == 2 * Bitwise(AndBits, a / 2, m - 1, k - 1) + a % 2
  {
    var mask := 2 * m - 1;
    assert mask / 2 == m - 1 && mask % 2 == 1;
  }

  lemma {:induction false} MaskOfZero(a: nat, k: nat)
    ensures Bitwise(AndBits, a, 0, k) == 0
  {
    if k > 0 {
      MaskOfZero(a / 2, k - 1);
    }
  }

  /** a mod 2m, read off the halves of a. */
  lemma HalveMod(a: nat, m: nat)
    requires m > 0
    ensures a % (2 * m) == 2 * ((a / 2) % m) + a % 2
  {
    var h, q := a / 2, (a / 2) / m;
    var r := h % m;
    assert a == 2 * h + a % 2;
    assert h == m * q + r;
    assert a == (2 * m) * q + (2 * r + a % 2);
    ModUnique(a, 2 * m, q, 2 * r + a % 2);
  }

  /** `Vx & 1` is the low bit, `Vx & 63` and `Vx & 31` the value modulo the
      screen width and height. */
  lemma ByteMasks(a: Byte)
    ensures And8(a, 1) as int == a as int % 2
    ensures And8(a, 31) as int == a as int % 32
    ensures And8(a, 63) as int == a as int % 64
  {
    MaskIsMod(a as nat, 1, 8);
    MaskIsMod(a as nat, 5, 8);
    MaskIsMod(a as nat, 6, 8);
  }

  /** Quotient and remainder are unique. */
  lemma ModUnique(x: int, d: int, q: int, r: int)
    requires d > 0 && x == d * q + r && 0 <= r < d
    ensures x / d == q && x % d == r
  {
    var q', r' := x / d, x % d;
    assert x == d * q' + r';
    if q' > q {
      MulMono(d, q + 1, q');
    } else if q' < q {
      MulMono(d, q' + 1, q);
    }
  }

  lemma MulMono(d: nat, a: int, b: int)
    requires a <= b
    ensures d * a <= d * b
  {
    assert d * b - d * a == d * (b - a);
  }

  /** Rust's `i32` division, which truncates toward zero. */
  function TruncDiv(a: int, b: nat): int
    requires b > 0
  {
    if a >= 0 then a / b else -((-a) / b)
  }

  function Pow2(k: nat): (r: nat)
    ensures r >= 1
  {
    if k == 0 then 1 else 2 * Pow2(k - 1)
  }

  function Max(a: int, b: int): int {
    if a >= b then a else b
  }
}
