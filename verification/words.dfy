/**
 * Fixed-width machine integers and the wrap-around arithmetic the clock's
 * read path relies on (Rust's `u32`, `u64` and `u64::wrapping_sub`).
 */
module Words {

  const TWO_32: nat := 0x1_0000_0000
  const TWO_64: nat := 0x1_0000_0000_0000_0000
  const U64_MAX: nat := TWO_64 - 1

  type u32 = x: nat | x < TWO_32
  type u64 = x: nat | x < TWO_64

  /** `a.wrapping_sub(b)`: subtraction modulo 2^64. */
  function WrappingSub(a: u64, b: u64): (r: u64)
    ensures (r + b) % TWO_64 == a
    ensures a >= b ==> r + b == a
  {
    if a >= b then a - b else a + TWO_64 - b
  }

  /** `a.wrapping_mul(b)`: multiplication modulo 2^64. */
  function WrappingMul(a: u64, b: u64): (r: u64)
    ensures a * b < TWO_64 ==> r == a * b
  {
    (a * b) % TWO_64
  }

  /** The result of a wrapping subtraction is the only value that undoes it. */
  lemma WrappingSubUnique(a: u64, b: u64, r: u64)
    requires (r + b) % TWO_64 == a
    ensures r == WrappingSub(a, b)
  {
  }

  function Pow2(k: nat): (p: nat)
    ensures p >= 1
  {
    if k == 0 then 1 else 2 * Pow2(k - 1)
  }

  /** Bitwise AND of two naturals (Rust's `&` on unsigned integers). */
  function BitAnd(a: nat, b: nat): nat
  {
    if a == 0 || b == 0 then 0
    else 2 * BitAnd(a / 2, b / 2) + (if a % 2 == 1 && b % 2 == 1 then 1 else 0)
  }

  /** Masking with the low k bits keeps the value modulo 2^k. */
  lemma {:induction false} MaskLowBits(a: nat, k: nat)
    ensures BitAnd(a, Pow2(k) - 1) == a % Pow2(k)
  {
    if k == 0 {
    } else if a == 0 {
    } else {
      var m := Pow2(k - 1);
      assert Pow2(k) - 1 == 2 * (m - 1) + 1;
      assert (Pow2(k) - 1) / 2 == m - 1;
      assert (Pow2(k) - 1) % 2 == 1;
      MaskLowBits(a / 2, k - 1);
      DivModTwo(a, m);
    }
  }

  lemma DivModTwo(a: nat, m: nat)
    requires m >= 1
    ensures a % (2 * m) == 2 * ((a / 2) % m) + a % 2
  {
    var q := (a / 2) / m;
    var r := (a / 2) % m;
    assert a / 2 == q * m + r;
    assert a == 2 * (a / 2) + a % 2;
    assert q * (2 * m) == 2 * (q * m);
    ModOfDecomposition(a, 2 * m, q, 2 * r + a % 2);
  }

  lemma ModOfDecomposition(a: nat, d: nat, q: nat, r: nat)
    requires d >= 1 && r < d && a == q * d + r
    ensures a % d == r
  {
    var q' := a / d;
    MulDistributes(q, q', d);
    MulDistributes(q', q, d);
    MulAtLeast(q - q', d);
    MulAtLeast(q' - q, d);
  }

  lemma MulDistributes(x: int, y: int, d: int)
    ensures x * d - y * d == (x - y) * d
  {
  }

  lemma MulAtLeast(x: int, d: nat)
    ensures x >= 1 ==> x * d >= d
  {
  }

  /**
   * `aux & 0xfff`: the CPU id field of the IA32_TSC_AUX value, which Linux
   * lays out as a node id in bits 31..12 and a CPU id in bits 11..0.
   */
  function CpuIdOfAux(aux: u32): (id: nat)
    ensures id < 4096
    ensures id == aux % 4096
  {
    MaskLowBits(aux, 12);
    BitAnd(aux, 0xfff)
  }
}
