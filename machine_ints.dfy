/** Fixed-width unsigned counters used by tapp.c, with their wrap-around made explicit. */
module MachineInts {
  const UINT16_LIMIT: nat := 0x1_0000
  const UINT32_LIMIT: nat := 0x1_0000_0000

  type uint16 = n: nat | n < UINT16_LIMIT
  type uint32 = n: nat | n < UINT32_LIMIT

  /** `++x` on a uint16_t. */
  function Inc16(x: uint16): (y: uint16)
    ensures x + 1 < UINT16_LIMIT ==> y == x + 1
    ensures x + 1 == UINT16_LIMIT ==> y == 0
  {
    (x + 1) % UINT16_LIMIT
  }

  /** `++x` on a uint32_t. */
  function Inc32(x: uint32): (y: uint32)
    ensures x + 1 < UINT32_LIMIT ==> y == x + 1
    ensures x + 1 == UINT32_LIMIT ==> y == 0
  {
    (x + 1) % UINT32_LIMIT
  }

  // Facts about Euclidean division by a positive divisor.

  lemma MulAtLeast(d: nat, t: nat)
    requires t >= 1
    ensures d * t >= d
  {
    if t > 1 {
      MulAtLeast(d, t - 1);
      assert d * t == d * (t - 1) + d;
    }
  }

  lemma DivUnique(a: nat, d: nat, q: nat, r: nat)
    requires d > 0 && r < d && a == d * q + r
    ensures a / d == q
  {
    var q2, r2 := a / d, a % d;
    assert a == d * q2 + r2;
    if q > q2 {
      assert d * (q - q2) == d * q - d * q2;
      MulAtLeast(d, q - q2);
    } else if q < q2 {
      assert d * (q2 - q) == d * q2 - d * q;
      MulAtLeast(d, q2 - q);
    }
  }

  lemma DivStep(x: nat, d: nat)
    requires d > 0
    ensures (x + d) / d == x / d + 1
  {
    var q, r := x / d, x % d;
    assert x == d * q + r;
    assert x + d == d * (q + 1) + r;
    DivUnique(x + d, d, q + 1, r);
  }
}
