/** The C integer types of the driver, with their wrap-around and conversions written out. */
module MachineInts {

  const SIZE_MODULUS := 0x1_0000_0000_0000_0000
  const UINT_MODULUS := 0x1_0000_0000
  const UINT8_MODULUS := 0x100
  const INT_MAX := 0x7FFF_FFFF

  /** `size_t` on the 64-bit kernels the driver is built for. */
  type size_t = n: nat | n < SIZE_MODULUS
  type uint32 = n: nat | n < UINT_MODULUS
  type uint8 = n: nat | n < UINT8_MODULUS
  type int32 = n: int | -INT_MAX - 1 <= n <= INT_MAX

  function SizeAdd(a: size_t, b: size_t): size_t {
    if a + b < SIZE_MODULUS then a + b else a + b - SIZE_MODULUS
  }

  function SizeSub(a: size_t, b: size_t): size_t {
    if b <= a then a - b else a - b + SIZE_MODULUS
  }

  function Uint8Increment(a: uint8): uint8 {
    if a + 1 < UINT8_MODULUS then a + 1 else 0
  }

  /** An `int` operand of a `size_t` operator is sign-extended. */
  function SizeFromInt(n: int32): size_t {
    if n < 0 then n + SIZE_MODULUS else n
  }

  /** Assigning to an `int` keeps the low 32 bits and reads them as two's complement. */
  function ToInt(n: int): int32 {
    var low := n % UINT_MODULUS;
    if low <= INT_MAX then low else low - UINT_MODULUS
  }

  /** The assignment keeps the value modulo 2^32, and all of it exactly if an `int` can hold it. */
  lemma ToIntExact(n: int)
    ensures ToInt(n) == n <==> -0x8000_0000 <= n <= 0x7FFF_FFFF
    ensures (ToInt(n) - n) % 0x1_0000_0000 == 0
  {
    var high := n / UINT_MODULUS;
    assert n == high * UINT_MODULUS + n % UINT_MODULUS;
    MultipleOf(-high);
    MultipleOf(-high - 1);
  }

  lemma MultipleOf(k: int)
    ensures (k * UINT_MODULUS) % UINT_MODULUS == 0
  {
  }

  /** Unsigned sums and differences that do not fit lose or gain 2^64, as a negative `int` does, and the counter 2^8. */
  lemma Unsigned(a: size_t, b: size_t, c: uint8, n: int32)
    ensures SizeFromInt(n) == if n < 0 then n + 0x1_0000_0000_0000_0000 else n
    ensures SizeAdd(a, b) == a + b || (SizeAdd(a, b) == a + b - 0x1_0000_0000_0000_0000)
    ensures SizeSub(a, b) == a - b || (SizeSub(a, b) == a - b + 0x1_0000_0000_0000_0000)
    ensures 0 <= SizeAdd(a, b) < 0x1_0000_0000_0000_0000 && 0 <= SizeSub(a, b) < 0x1_0000_0000_0000_0000
    ensures Uint8Increment(c) == if c == 255 then 0 else c + 1
  {
  }

  /** Reducing to 32 bits after each addition is the same as reducing once at the end. */
  lemma ToIntOfSum(sum: size_t, s: size_t)
    requires sum + s < SIZE_MODULUS
    ensures ToInt(SizeAdd(SizeFromInt(ToInt(sum)), s)) == ToInt(sum + s)
  {
    var kept := SizeFromInt(ToInt(sum));
    KeptLowBits(sum);
    SameLowBits(kept, sum, s);
    if kept + s >= SIZE_MODULUS {
      SameLowBits(kept + s - SIZE_MODULUS, kept + s, 0);
    }
  }

  /** Going through an `int` changes a size by a multiple of 2^32. */
  lemma KeptLowBits(sum: size_t)
    ensures SizeFromInt(ToInt(sum)) % UINT_MODULUS == sum % UINT_MODULUS
  {
  }

  /** What an `int` gets depends on the low 32 bits alone. */
  lemma SameLowBits(a: nat, b: nat, s: nat)
    requires a % UINT_MODULUS == b % UINT_MODULUS
    ensures ToInt(a + s) == ToInt(b + s)
  {
  }
}
