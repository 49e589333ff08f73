/** The two machine integer types the A32 register helpers compute with:
    `size_t`, a 64-bit unsigned integer whose addition wraps modulo 2^64, and
    `int`, the 32-bit two's complement type that underlies an `enum class`
    declared without an explicit underlying type. Dafny's `int` is unbounded, so the wrap-around and the
    truncating conversion are written out here.
 */
module MachineInt {

  const SIZE_T_MODULUS: int := 0x1_0000_0000_0000_0000
  const INT_MODULUS: int := 0x1_0000_0000
  const INT_MIN: int := -0x8000_0000
  const INT_MAX: int := 0x7fff_ffff

  /** A value of C++ `size_t` on a 64-bit host. */
  type SizeT = x: int | 0 <= x < SIZE_T_MODULUS

  /** A value of C++ `int` (32-bit two's complement). */
  type Int32 = x: int | INT_MIN <= x <= INT_MAX

  /** `a + b` on `size_t`: the exact sum, or the sum less 2^64 when it overflows. */
  function AddSizeT(a: SizeT, b: SizeT): (r: SizeT)
    ensures a + b < SIZE_T_MODULUS ==> r == a + b
    ensures a + b >= SIZE_T_MODULUS ==> r == a + b - SIZE_T_MODULUS
  {
    (a + b) % SIZE_T_MODULUS
  }

  /** `-n` on `size_t`: the value that, added to `n`, wraps round to zero. */
  function NegSizeT(n: SizeT): (r: SizeT)
    ensures AddSizeT(n, r) == 0
    ensures n != 0 ==> r == SIZE_T_MODULUS - n
  {
    if n == 0 then 0 else SIZE_T_MODULUS - n
  }

  /** `static_cast<int>(x)` for a `size_t` x: the only `int` congruent to x
      modulo 2^32 (the low 32 bits, read as two's complement). */
  function SizeTToInt(x: SizeT): (r: Int32)
    ensures (x - r) % INT_MODULUS == 0
    ensures x <= INT_MAX ==> r == x
  {
    var low := x % INT_MODULUS;
    if low <= INT_MAX then low else low - INT_MODULUS
  }

  /** `size_t` addition is associative, wrap-around included. */
  lemma AddSizeTAssociative(a: SizeT, b: SizeT, c: SizeT)
    ensures AddSizeT(AddSizeT(a, b), c) == AddSizeT(a, AddSizeT(b, c))
  {
  }

  /** Converting the wrapped sum to `int` sees only the sum's low 32 bits:
      the wrap modulo 2^64 is invisible to the conversion. */
  lemma {:induction false} SizeTToIntOfSum(a: SizeT, b: SizeT)
    ensures var low := (a + b) % INT_MODULUS;
            SizeTToInt(AddSizeT(a, b)) == if low <= INT_MAX then low else low - INT_MODULUS
  {
    if a + b >= SIZE_T_MODULUS {
      assert SIZE_T_MODULUS == INT_MODULUS * INT_MODULUS;
      assert (a + b - SIZE_T_MODULUS) % INT_MODULUS == (a + b) % INT_MODULUS;
    }
  }

  /** Adding `n` and then its `size_t` negation restores any value below
      2^32, as seen in the low 32 bits. */
  lemma {:induction false} AddNegLow(a: int, n: SizeT)
    requires 0 <= a < INT_MODULUS
    ensures ((a + n) % INT_MODULUS + NegSizeT(n)) % INT_MODULUS == a
  {
    if n != 0 {
      var q := (a + n) / INT_MODULUS;
      assert (a + n) % INT_MODULUS == a + n - q * INT_MODULUS;
      assert (a + n) % INT_MODULUS + NegSizeT(n) == a + (INT_MODULUS - q) * INT_MODULUS;
    }
  }
}
