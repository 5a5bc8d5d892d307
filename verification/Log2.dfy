/** The branch-free binary logarithms that size the bignum shifts at compile time. */
module Log2 {
  import opened Bignum

  /** v | 1 */
  function Odd(v: nat): nat { if v % 2 == 0 then v + 1 else v }

  function Log2_8Bit(v: nat): int {
    8 - 96 / (Odd(v / 4) + 16) - 10 / (Odd(v) + 2)
  }

  function Log2_16Bit(v: nat): int {
    if v > 255 then 8 + Log2_8Bit(v / 256) else Log2_8Bit(v)
  }

  function Log2_32Bit(v: nat): int {
    if v > 65535 then 16 + Log2_16Bit(v / 65536) else Log2_16Bit(v)
  }

  /** The two quotients, octave by octave. */
  lemma {:induction false} LowOctaves(v: nat)
    requires v < 16
    ensures Log2_8Bit(v) == if v < 2 then 0 else if v < 4 then 1 else if v < 8 then 2 else 3
  {
    if v < 2 {
      Quotients(v, 5, 3);
    } else if v < 4 {
      Quotients(v, 5, 2);
    } else if v < 8 {
      Quotients(v, 5, 1);
    } else {
      Quotients(v, 5, 0);
    }
  }

  lemma {:induction false} HighOctaves(v: nat)
    requires 16 <= v < 256
    ensures Log2_8Bit(v) == if v < 32 then 4 else if v < 64 then 5 else if v < 128 then 6 else 7
  {
    if v < 32 {
      Quotients(v, 4, 0);
    } else if v < 64 {
      Quotients(v, 3, 0);
    } else if v < 128 {
      Quotients(v, 2, 0);
    } else {
      Quotients(v, 1, 0);
    }
  }

  lemma {:induction false} Quotients(v: nat, p: nat, q: nat)
    requires var a := Odd(v / 4) + 16; p * a <= 96 < p * a + a
    requires var b := Odd(v) + 2; q * b <= 10 < q * b + b
    ensures Log2_8Bit(v) == 8 - p - q
  {
    var a, b := Odd(v / 4) + 16, Odd(v) + 2;
    QuotientIs(96, a, p, 96 - p * a);
    QuotientIs(10, b, q, 10 - q * b);
  }

  lemma {:induction false} Floor8(v: nat)
    requires 0 < v < 256
    ensures 0 <= Log2_8Bit(v) && Pow(2, Log2_8Bit(v)) <= v < 2 * Pow(2, Log2_8Bit(v))
  {
    if v < 16 { LowOctaves(v); } else { HighOctaves(v); }
    assert Pow(2, 0) == 1 && Pow(2, 1) == 2 && Pow(2, 2) == 4 && Pow(2, 3) == 8;
    assert Pow(2, 4) == 16 && Pow(2, 5) == 32 && Pow(2, 6) == 64 && Pow(2, 7) == 128;
  }

  lemma {:induction false} Halves(v: nat, k: nat, s: nat, p: nat)
    requires p == Pow(2, s) && Pow(2, k) <= v / p < 2 * Pow(2, k)
    ensures Pow(2, s + k) <= v < 2 * Pow(2, s + k)
  {
    PowAdd(2, s, k);
    HalvesProduct(v, p, Pow(2, k), v / p, v % p);
  }

  lemma {:induction false} HalvesProduct(v: nat, p: nat, q: nat, d: nat, r: nat)
    requires v == d * p + r && r < p && q <= d < 2 * q
    ensures p * q <= v < 2 * (p * q)
  {
    MulMonotonic(q, d, p);
    MulMonotonic(d + 1, 2 * q, p);
    Distribute(d, 1, p);
    Reassociate(2, q, p);
  }

  lemma {:induction false} Floor16(v: nat)
    requires 0 < v < 65536
    ensures 0 <= Log2_16Bit(v) && Pow(2, Log2_16Bit(v)) <= v < 2 * Pow(2, Log2_16Bit(v))
  {
    if v > 255 {
      Floor8(v / 256);
      assert Pow(2, 8) == 256;
      Halves(v, Log2_8Bit(v / 256), 8, 256);
    } else {
      Floor8(v);
    }
  }

  /** The macro computes the floor of the binary logarithm of every non-zero 32-bit integer. */
  lemma {:induction false} Floor32(v: nat)
    requires 0 < v < 0x1_0000_0000
    ensures 0 <= Log2_32Bit(v) && Pow(2, Log2_32Bit(v)) <= v < 2 * Pow(2, Log2_32Bit(v))
  {
    if v > 65535 {
      Floor16(v / 65536);
      PowAdd(2, 8, 8);
      assert Pow(2, 8) == 256;
      Halves(v, Log2_16Bit(v / 65536), 16, 65536);
    } else {
      Floor16(v);
    }
  }

  /** The shift limit of the bignum loops: one bit less than a digit holds. */
  lemma {:induction false} ShiftWidth(v: nat)
    requires v == BBASE
    ensures Log2_32Bit(v) - 1 == BDIG_PER_DIG
  {
    assert v / 65536 == 15258 && 15258 / 256 == 59;
    HighOctaves(59);
  }
}
