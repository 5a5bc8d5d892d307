/**
 Base 10^9 numbers held in an array, most significant digit first, and their
 exact division and multiplication by powers of two through shifts.
 */
module Bignum {

  const BBASE := 1_000_000_000
  const BDIG_PER_DIG := 28
  const DDIG_PER_DIG := 9

  // Powers

  function Pow(b: nat, e: nat): (r: nat)
    ensures b > 0 ==> r > 0
  {
    if e == 0 then 1 else Product(b, Pow(b, e - 1))
  }

  function Product(a: nat, b: nat): (r: nat)
    ensures r == a * b
    ensures a > 0 && b > 0 ==> r > 0
  {
    a * b
  }

  lemma {:induction false} PowAdd(b: nat, d: nat, e: nat)
    ensures Pow(b, d + e) == Pow(b, d) * Pow(b, e)
  {
    if d > 0 {
      PowAdd(b, d - 1, e);
      Reassociate(b, Pow(b, d - 1), Pow(b, e));
    }
  }

  lemma {:induction false} Reassociate(a: int, b: int, c: int)
    ensures a * (b * c) == a * b * c
  {
  }

  lemma {:induction false} PowProduct(a: nat, b: nat, e: nat)
    ensures Pow(a * b, e) == Pow(a, e) * Pow(b, e)
  {
    if e > 0 {
      PowProduct(a, b, e - 1);
      Interchange(a, b, Pow(a, e - 1), Pow(b, e - 1));
    }
  }

  lemma {:induction false} Interchange(a: int, b: int, c: int, d: int)
    ensures (a * b) * (c * d) == (a * c) * (b * d)
  {
  }

  /** (b^d)^e == b^(d e) */
  lemma {:induction false} PowPow(b: nat, d: nat, e: nat)
    ensures Pow(Pow(b, d), e) == Pow(b, d * e)
  {
    if e > 0 {
      PowPow(b, d, e - 1);
      PowAdd(b, d, d * (e - 1));
      assert d + d * (e - 1) == d * e;
    }
  }

  lemma {:induction false} PowMonotonic(b: nat, d: nat, e: nat)
    requires b > 0 && d <= e
    ensures Pow(b, d) <= Pow(b, e)
  {
    PowAdd(b, d, e - d);
    Grows(Pow(b, d), Pow(b, e - d));
  }

  lemma {:induction false} Swap(a: int, b: int, c: int)
    ensures (a * b) * c == (a * c) * b
  {
  }

  lemma {:induction false} Ordered(a: int, b: int, c: int)
    requires c > 0
    ensures a <= b <==> a * c <= b * c
  {
  }

  lemma {:induction false} Grows(a: nat, b: nat)
    requires b > 0
    ensures a <= a * b
  {
  }

  /** The base in powers of two and five. */
  lemma {:induction false} BasePower(c: nat)
    ensures Pow(BBASE, c) == Pow(2, 9 * c) * Pow(5, 9 * c) == Pow(10, 9 * c)
  {
    assert Pow(10, 9) == BBASE by { PowersOfTen(); }
    PowPow(10, 9, c);
    PowProduct(2, 5, 9 * c);
  }

  lemma {:induction false} PowersOfTen()
    ensures Pow(10, 1) == 10 && Pow(10, 2) == 100 && Pow(10, 3) == 1000 && Pow(10, 4) == 10000
    ensures Pow(10, 5) == 100000 && Pow(10, 6) == 1000000 && Pow(10, 7) == 10000000 && Pow(10, 8) == 100000000
    ensures Pow(10, 9) == 1000000000
  {
    assert Pow(10, 3) == 1000;
    PowAdd(10, 3, 1);
    PowAdd(10, 3, 2);
    PowAdd(10, 3, 3);
    PowAdd(10, 6, 1);
    PowAdd(10, 6, 2);
    PowAdd(10, 6, 3);
  }

  lemma {:induction false} SmallShift(s: nat)
    requires s <= BDIG_PER_DIG
    ensures Pow(2, s) <= 268_435_456
  {
    assert Pow(2, 4) == 16;
    PowAdd(2, 4, 4);
    PowAdd(2, 8, 8);
    PowAdd(2, 16, 8);
    PowAdd(2, 24, 4);
    PowMonotonic(2, s, 28);
  }

  // Values

  /** The number whose digits these are. */
  function Val(s: seq<int>): int {
    if s == [] then 0 else Val(s[..|s| - 1]) * BBASE + s[|s| - 1]
  }

  predicate IsDigit(d: int) {
    0 <= d < BBASE
  }

  predicate Digits(s: seq<int>) {
    forall i :: 0 <= i < |s| ==> IsDigit(s[i])
  }

  predicate Zeros(s: seq<int>) {
    forall i :: 0 <= i < |s| ==> s[i] == 0
  }

  lemma {:induction false} ValAppend(s: seq<int>, d: int)
    ensures Val(s + [d]) == Val(s) * BBASE + d
  {
    assert (s + [d])[..|s|] == s;
  }

  lemma {:induction false} ValConcat(a: seq<int>, b: seq<int>)
    ensures Val(a + b) == Val(a) * Pow(BBASE, |b|) + Val(b)
  {
    if b == [] {
      assert a + b == a;
    } else {
      var n := |b| - 1;
      ValConcat(a, b[..n]);
      assert (a + b)[..|a| + n] == a + b[..n];
      ShiftedSum(Val(a), Pow(BBASE, n), Val(b[..n]));
    }
  }

  lemma {:induction false} ShiftedSum(a: int, p: nat, b: int)
    ensures (a * p + b) * BBASE == a * (BBASE * p) + b * BBASE
  {
  }

  lemma {:induction false} ValZeros(s: seq<int>)
    requires Zeros(s)
    ensures Val(s) == 0
  {
    if s != [] { ValZeros(s[..|s| - 1]); }
  }

  lemma {:induction false} ValBounds(s: seq<int>)
    requires Digits(s)
    ensures 0 <= Val(s) < Pow(BBASE, |s|)
  {
    if s != [] { ValBounds(s[..|s| - 1]); }
  }

  lemma {:induction false} ValPositive(s: seq<int>, i: nat)
    requires Digits(s) && i < |s| && s[i] != 0
    ensures Val(s) > 0
  {
    ValBounds(s[..|s| - 1]);
    if i < |s| - 1 { ValPositive(s[..|s| - 1], i); }
  }

  /** Zeros in front do not count. */
  lemma {:induction false} ValZerosFront(a: seq<int>, b: seq<int>)
    requires Zeros(a)
    ensures Val(a + b) == Val(b)
  {
    ValConcat(a, b);
    ValZeros(a);
  }

  /** A number that is not zero has a digit that is not zero. */
  lemma {:induction false} NonzeroDigit(s: seq<int>) returns (i: nat)
    requires Val(s) != 0
    ensures i < |s| && s[i] != 0
  {
    if s[|s| - 1] != 0 {
      i := |s| - 1;
    } else {
      i := NonzeroDigit(s[..|s| - 1]);
    }
  }

  /** Only the digits from msd to lsd may be non-zero. */
  predicate Extent(s: seq<int>, msd: int, lsd: int) {
    && 0 <= msd && lsd < |s| && Digits(s)
    && (forall i :: 0 <= i < |s| && (i < msd || i > lsd) ==> s[i] == 0)
  }

  // Right shift

  /** One step of the long division by 2^s. */
  lemma {:induction false} DivisionStep(p: nat, before: nat, d: nat, quotient: nat, remainder: nat)
    requires p > 0 && quotient == before / p && remainder == (before % p) * BBASE && d < BBASE
    ensures var dividend := remainder + d;
      && (before * BBASE + d) / p == quotient * BBASE + dividend / p
      && (before * BBASE + d) % p == dividend % p
      && dividend < p * BBASE && dividend / p < BBASE
  {
    var r := before % p;
    var dividend := remainder + d;
    assert before == quotient * p + r;
    ShiftedSum(quotient, p, r);
    assert before * BBASE + d == quotient * (BBASE * p) + dividend;
    Reassociate(quotient, BBASE, p);
    assert before * BBASE + d == (quotient * BBASE + dividend / p) * p + dividend % p by {
      assert dividend == (dividend / p) * p + dividend % p;
      Distribute(quotient * BBASE, dividend / p, p);
    }
    QuotientIs(before * BBASE + d, p, quotient * BBASE + dividend / p, dividend % p);
    Bounded(r, p, d);
    BelowProduct(dividend, p);
  }

  lemma {:induction false} Distribute(a: int, b: int, p: int)
    ensures (a + b) * p == a * p + b * p
  {
  }

  lemma {:induction false} Bounded(r: nat, p: nat, d: nat)
    requires r < p && d < BBASE
    ensures r * BBASE + d < p * BBASE
  {
  }

  lemma {:induction false} BelowProduct(x: nat, p: nat)
    requires p > 0 && x < p * BBASE
    ensures x / p < BBASE
  {
    var q := x / p;
    assert x == q * p + x % p;
    if q >= BBASE {
      MulMonotonic(BBASE, q, p);
      assert false;
    }
  }

  lemma {:induction false} MulMonotonic(a: nat, b: nat, c: nat)
    requires a <= b
    ensures a * c <= b * c
  {
  }

  lemma {:induction false} QuotientIs(x: nat, p: nat, q: nat, r: nat)
    requires p > 0 && r < p && x == q * p + r
    ensures x / p == q && x % p == r
  {
    var q', r' := x / p, x % p;
    assert x == q' * p + r';
    if q' < q {
      MulMonotonic(q' + 1, q, p);
      Distribute(q', 1, p);
      assert false;
    } else if q' > q {
      MulMonotonic(q + 1, q', p);
      Distribute(q, 1, p);
      assert false;
    }
  }

  /** A number that ends in k zero digits. */
  lemma {:induction false} ValTail(s: seq<int>, n: nat)
    requires n <= |s| && Zeros(s[n..])
    ensures Val(s) == Val(s[..n]) * Pow(BBASE, |s| - n)
  {
    assert s == s[..n] + s[n..];
    ValConcat(s[..n], s[n..]);
    ValZeros(s[n..]);
  }

  /** The long division has reached index work of the original digits. */
  ghost predicate Divided(s: seq<int>, orig: seq<int>, work: nat, p: nat, remainder: int)
    requires p > 0
  {
    && |s| == |orig| && work <= |s|
    && Val(orig[..work]) >= 0 && Val(s[..work]) == Val(orig[..work]) / p
    && remainder == (Val(orig[..work]) % p) * BBASE
    && s[work..] == orig[work..] && Digits(s)
  }

  lemma {:induction false} DividedStep(s: seq<int>, orig: seq<int>, work: nat, p: nat, remainder: nat)
    requires p > 0 && Divided(s, orig, work, p, remainder) && work < |s| && Digits(orig)
    ensures var dividend := remainder + s[work];
      && Divided(s[work := dividend / p], orig, work + 1, p, (dividend % p) * BBASE)
      && dividend < p * BBASE
  {
    var d := orig[work];
    assert s[work] == s[work..][0] == d;
    DivisionStep(p, Val(orig[..work]), d, Val(s[..work]), remainder);
    var t := s[work := (remainder + d) / p];
    LastDigit(orig, work);
    LastDigit(t, work);
    assert t[..work] == s[..work];
    assert t[work + 1..] == s[work..][1..] == orig[work..][1..] == orig[work + 1..];
  }

  lemma {:induction false} LastDigit(s: seq<int>, work: nat)
    requires work < |s|
    ensures Val(s[..work + 1]) == Val(s[..work]) * BBASE + s[work]
  {
    assert s[..work + 1] == s[..work] + [s[work]];
    ValAppend(s[..work], s[work]);
  }

  /** The whole number has been divided once the remainder is zero and only zero digits are left. */
  lemma {:induction false} DividedWhole(s: seq<int>, orig: seq<int>, work: nat, p: nat)
    requires p > 0 && Divided(s, orig, work, p, 0) && Zeros(orig[work..])
    ensures Val(s) * p == Val(orig)
  {
    ValTail(orig, work);
    ValTail(s, work);
    WholeQuotient(Val(s), Val(orig), Val(s[..work]), Val(orig[..work]), p, Pow(BBASE, |s| - work));
  }

  lemma {:induction false} WholeQuotient(v: int, w: int, b: int, a: nat, p: nat, q: nat)
    requires p > 0 && (a % p) * BBASE == 0 && b == a / p && v == b * q && w == a * q
    ensures v * p == w
  {
    assert a == (a / p) * p + a % p;
    Swap(a / p, q, p);
  }

  /** Divides one digit, in 64-bit arithmetic. */
  method DivideDigit(digits: array<int>, work: nat, p: nat, remainder: nat, ghost orig: seq<int>) returns (remainder': nat)
    requires 0 < p <= 268_435_456 && work < digits.Length && Digits(orig)
    requires Divided(digits[..], orig, work, p, remainder)
    modifies digits
    ensures Divided(digits[..], orig, work + 1, p, remainder')
    ensures forall i :: 0 <= i < digits.Length && i != work ==> digits[i] == old(digits[i])
  {
    DividedStep(digits[..], orig, work, p, remainder);
    var dividend := remainder + digits[work];
    assert dividend < 0x1_0000_0000_0000_0000;
    ghost var before := digits[..];
    digits[work] := dividend / p;
    assert digits[..] == before[work := dividend / p];
    remainder' := (dividend % p) * BBASE;
  }

  /**
   One pass of division by 2^shift, through index last and as much further as
   there is a remainder.  The pass leaves the array, which is reported by ok
   being false, exactly if the whole number is not divisible; and it does not
   go beyond the index bound if the number up to there is divisible.
   */
  method ShiftRight(digits: array<int>, msd: nat, last: nat, shift: nat, ghost bound: nat) returns (ok: bool, lsd: nat)
    requires 1 <= shift <= BDIG_PER_DIG && msd <= last <= bound < digits.Length
    requires Extent(digits[..], msd, last)
    modifies digits
    ensures ok <==> Val(old(digits[..])) % Pow(2, shift) == 0
    ensures ok ==> last <= lsd < digits.Length && Extent(digits[..], msd, lsd)
    ensures ok ==> Val(digits[..]) * Pow(2, shift) == Val(old(digits[..]))
    ensures Val(old(digits[..bound + 1])) % Pow(2, shift) == 0 ==> ok && lsd <= bound
  {
    ghost var orig := digits[..];
    var p := Pow(2, shift);
    SmallShift(shift);
    var remainder: nat := 0;
    var work := msd;
    DivisionStarts(orig, msd, p);
    ok := true;
    while work <= last || remainder != 0
      invariant msd <= work <= digits.Length
      invariant Val(orig[..bound + 1]) % p == 0 ==> work <= bound + 1
      invariant Divided(digits[..], orig, work, p, remainder)
      invariant forall i :: 0 <= i < msd ==> digits[i] == 0
      decreases digits.Length - work
    {
      if work == digits.Length {
        assert orig[..work] == orig;
        return false, work;
      }
      remainder := DivideDigit(digits, work, p, remainder, orig);
      work := work + 1;
    }
    lsd := work - 1;
    DividedWhole(digits[..], orig, work, p);
    ValBounds(digits[..]);
    MultipleOf(Val(digits[..]), p);
    assert forall i :: work <= i < digits.Length ==> digits[i] == digits[..][work..][i - work];
  }

  lemma {:induction false} MultipleOf(a: nat, b: nat)
    requires b > 0
    ensures (a * b) % b == 0
  {
    QuotientIs(a * b, b, a, 0);
  }

  lemma {:induction false} DivisionStarts(orig: seq<int>, msd: nat, p: nat)
    requires p > 0 && Digits(orig) && msd <= |orig| && forall i :: 0 <= i < msd ==> orig[i] == 0
    ensures Divided(orig, orig, msd, p, 0)
  {
    ValZeros(orig[..msd]);
  }

  // Left shift

  /** The long multiplication has passed the digits from index work + 1 on. */
  ghost predicate Multiplied(s: seq<int>, orig: seq<int>, work: int, p: nat, carry: int) {
    && |s| == |orig| && -1 <= work < |s| && 0 <= carry < p
    && Val(orig[work + 1..]) * p == Val(s[work + 1..]) + carry * Pow(BBASE, |s| - 1 - work)
    && s[..work + 1] == orig[..work + 1] && Digits(s)
  }

  lemma {:induction false} ValFront(d: int, s: seq<int>)
    ensures Val([d] + s) == d * Pow(BBASE, |s|) + Val(s)
  {
    ValConcat([d], s);
    assert [d][..0] == [];
  }

  /** One step of the long multiplication by p. */
  lemma {:induction false} MultiplicationStep(p: nat, d: nat, tail: int, newTail: int, carry: nat, q: nat)
    requires tail * p == newTail + carry * q && carry < p && d < BBASE
    ensures var product := d * p + carry;
      && (d * q + tail) * p == (product % BBASE) * q + newTail + (product / BBASE) * (BBASE * q)
      && product < p * BBASE && product / BBASE < p
  {
    var product := d * p + carry;
    var h, l := product / BBASE, product % BBASE;
    assert product == h * BBASE + l;
    Distribute(d * q, tail, p);
    assert (d * q) * p == (d * p) * q;
    Distribute(d * p, carry, q);
    Distribute(h * BBASE, l, q);
    Reassociate(h, BBASE, q);
    Bounded'(d, p, carry);
    BelowProduct'(product, p);
  }

  lemma {:induction false} Bounded'(d: nat, p: nat, carry: nat)
    requires carry < p && d < BBASE
    ensures d * p + carry < p * BBASE
  {
    MulMonotonic(d + 1, BBASE, p);
    Distribute(d, 1, p);
  }

  lemma {:induction false} BelowProduct'(x: nat, p: nat)
    requires x < p * BBASE
    ensures x / BBASE < p
  {
  }

  lemma {:induction false} MultipliedStep(s: seq<int>, orig: seq<int>, work: nat, p: nat, carry: nat)
    requires Multiplied(s, orig, work, p, carry) && Digits(orig)
    ensures var product := s[work] * p + carry;
      Multiplied(s[work := product % BBASE], orig, work - 1, p, product / BBASE) && product < p * BBASE
  {
    var d := orig[work];
    assert s[work] == s[..work + 1][work] == d;
    var t := s[work := (d * p + carry) % BBASE];
    assert t[work + 1..] == s[work + 1..];
    MultipliedValue(t, orig, work, p, carry);
    assert t[..work] == s[..work + 1][..work] == orig[..work + 1][..work] == orig[..work];
  }

  lemma {:induction false} MultipliedValue(t: seq<int>, orig: seq<int>, work: nat, p: nat, carry: nat)
    requires |t| == |orig| && work < |t| && IsDigit(orig[work]) && carry < p
    requires Val(orig[work + 1..]) * p == Val(t[work + 1..]) + carry * Pow(BBASE, |t| - 1 - work)
    requires t[work] == (orig[work] * p + carry) % BBASE
    ensures var product := orig[work] * p + carry;
      && Val(orig[work..]) * p == Val(t[work..]) + product / BBASE * Pow(BBASE, |t| - work)
      && product < p * BBASE && 0 <= product / BBASE < p
  {
    FrontDigit(orig, work);
    FrontDigit(t, work);
    MultiplicationStep(p, orig[work], Val(orig[work + 1..]), Val(t[work + 1..]), carry, Pow(BBASE, |t| - 1 - work));
  }

  lemma {:induction false} FrontDigit(s: seq<int>, work: nat)
    requires work < |s|
    ensures Val(s[work..]) == s[work] * Pow(BBASE, |s| - 1 - work) + Val(s[work + 1..])
  {
    assert s[work..] == [s[work]] + s[work + 1..];
    ValFront(s[work], s[work + 1..]);
  }

  /** There is no carry out of the whole number when the product fits. */
  lemma {:induction false} NoCarryOut(s: seq<int>, orig: seq<int>, p: nat, carry: int)
    requires Multiplied(s, orig, -1, p, carry) && Val(orig) * p < Pow(BBASE, |s|)
    ensures carry == 0
  {
    assert s[0..] == s && orig[0..] == orig;
    ValBounds(s);
    SmallSum(Val(s), carry, Pow(BBASE, |s|));
  }

  lemma {:induction false} SmallSum(v: nat, carry: nat, q: nat)
    requires v + carry * q < q
    ensures carry == 0
  {
    if carry > 0 { MulMonotonic(1, carry, q); }
  }

  /** The whole number has been multiplied once the carry is zero and only zero digits are left. */
  lemma {:induction false} MultipliedWhole(s: seq<int>, orig: seq<int>, work: int, p: nat)
    requires Multiplied(s, orig, work, p, 0) && Zeros(orig[..work + 1])
    ensures Val(s) == Val(orig) * p
  {
    assert s == s[..work + 1] + s[work + 1..] && orig == orig[..work + 1] + orig[work + 1..];
    ValConcat(s[..work + 1], s[work + 1..]);
    ValConcat(orig[..work + 1], orig[work + 1..]);
    ValZeros(orig[..work + 1]);
  }

  /** Multiplies one digit, in 64-bit arithmetic. */
  method MultiplyDigit(digits: array<int>, work: nat, p: nat, carry: nat, ghost orig: seq<int>) returns (carry': nat)
    requires 0 < p <= 268_435_456 && work < digits.Length && Digits(orig)
    requires Multiplied(digits[..], orig, work, p, carry)
    modifies digits
    ensures Multiplied(digits[..], orig, work - 1, p, carry')
    ensures forall i :: 0 <= i < digits.Length && i != work ==> digits[i] == old(digits[i])
    ensures (orig[work] != 0 || carry != 0) && carry' == 0 ==> digits[work] != 0
  {
    MultipliedStep(digits[..], orig, work, p, carry);
    assert digits[work] == digits[..][..work + 1][work] == orig[work];
    var product := digits[work] * p + carry;
    assert product < 0x1_0000_0000_0000_0000;
    ghost var before := digits[..];
    if orig[work] != 0 { Grows(p, orig[work]); }
    digits[work] := product % BBASE;
    assert digits[..] == before[work := product % BBASE];
    carry' := product / BBASE;
  }

  /** One pass of multiplication by 2^shift. */
  method ShiftLeft(digits: array<int>, msd: nat, lsd: nat, shift: nat) returns (msd': nat)
    requires 1 <= shift <= BDIG_PER_DIG && msd <= lsd < digits.Length
    requires Extent(digits[..], msd, lsd)
    requires Val(digits[..]) * Pow(2, shift) < Pow(BBASE, digits.Length)
    modifies digits
    ensures msd' <= msd && Extent(digits[..], msd', lsd)
    ensures Val(digits[..]) == Val(old(digits[..])) * Pow(2, shift)
    ensures old(digits[msd]) != 0 ==> digits[msd'] != 0
  {
    ghost var orig := digits[..];
    var p := Pow(2, shift);
    SmallShift(shift);
    var carry: nat := 0;
    var work: int := lsd;
    assert Zeros(orig[lsd + 1..]);
    ValZeros(orig[lsd + 1..]);
    while work >= msd || carry != 0
      invariant -1 <= work <= lsd
      invariant Multiplied(digits[..], orig, work, p, carry)
      invariant forall i :: lsd < i < digits.Length ==> digits[i] == 0
      invariant work < msd && orig[msd] != 0 && carry == 0 ==> digits[work + 1] != 0
      decreases work
    {
      if work == -1 {
        NoCarryOut(digits[..], orig, p, carry);
      }
      carry := MultiplyDigit(digits, work, p, carry, orig);
      work := work - 1;
    }
    msd' := work + 1;
    assert digits[..][..work + 1] == orig[..work + 1];
    assert Zeros(orig[..work + 1]);
    MultipliedWhole(digits[..], orig, work, p);
    assert forall i :: 0 <= i <= work ==> digits[i] == digits[..][..work + 1][i];
  }
}
