/** Fixed-width unsigned integers of the C++ target (uint32_t, uint64_t and a
    64-bit size_t), their wrap-around multiplication, and the few facts about
    integer division that the conversions of a sample specification rest on. */
module MachineInts {

  const UINT32_LIMIT: nat := 0x1_0000_0000
  const UINT64_LIMIT: nat := 0x1_0000_0000_0000_0000

  /** numeric_limits<size_t>::max() on a 64-bit target */
  const SIZE_MAX: nat := 0xFFFF_FFFF_FFFF_FFFF

  type uint32 = x: nat | x < 0x1_0000_0000
  type uint64 = x: nat | x < 0x1_0000_0000_0000_0000

  /** Multiplication of two unsigned 64-bit operands as C++ performs it:
      the mathematical product reduced modulo 2^64. */
  function MulU64(a: uint64, b: uint64): (r: uint64)
    ensures a * b <= SIZE_MAX ==> r == a * b
  {
    var product := a * b;
    if product < UINT64_LIMIT then product else product % UINT64_LIMIT
  }

  /** The product of two 32-bit values never wraps in 64 bits. */
  lemma MulUint32Fits(a: uint32, b: uint32)
    ensures a * b <= SIZE_MAX
  {
    MulLeftMono(a, UINT32_LIMIT - 1, b);
    MulLeftMono(b, UINT32_LIMIT - 1, UINT32_LIMIT - 1);
    assert (UINT32_LIMIT - 1) * (UINT32_LIMIT - 1) <= SIZE_MAX;
  }

  lemma MulLeftMono(a: nat, b: nat, c: nat)
    requires a <= b
    ensures a * c <= b * c
  {
  }

  /** `q` is the quotient of `a / d` exactly when `q * d <= a < q * d + d`. */
  lemma {:induction false} DivIsFloor(a: nat, d: nat, q: nat)
    requires d > 0
    requires q * d <= a < q * d + d
    ensures a / d == q
  {
    var k := a / d;
    assert k * d + a % d == a;
    if k < q {
      MulLeftMono(k + 1, q, d);
    } else if k > q {
      MulLeftMono(q + 1, k, d);
    }
  }

  /** Integer division is monotone in its dividend. */
  lemma {:induction false} DivMono(a: nat, b: nat, d: nat)
    requires d > 0
    requires a <= b
    ensures a / d <= b / d
  {
    assert (a / d) * d <= a;
    assert b < (b / d) * d + d;
    if a / d > b / d {
      MulLeftMono(b / d + 1, a / d, d);
    }
  }

  /** A lower bound `lo * d <= a` survives division by `d`. */
  lemma {:induction false} DivLowerBound(a: nat, d: nat, lo: nat)
    requires d > 0
    requires lo * d <= a
    ensures lo <= a / d
  {
    DivMono(lo * d, a, d);
    DivIsFloor(lo * d, d, lo);
  }
}
