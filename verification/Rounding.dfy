/**
 Rounding to nearest with ties to even, and the tail-based rounding of a base
 10^9 number at an arbitrary decimal place that to_digits performs.
 */
module Rounding {
  import opened Bignum

  const HALF := BBASE / 2

  /** q is num/den rounded to the nearest integer, halves to the even one. */
  predicate RoundsTo(num: int, den: int, q: int) {
    && den > 0
    && -den <= 2 * (num - q * den) <= den
    && (2 * (num - q * den) == den || 2 * (num - q * den) == -den ==> q % 2 == 0)
  }

  /** There is only one correctly rounded result. */
  lemma {:induction false} RoundsToUnique(num: int, den: int, q: int, q': int)
    requires RoundsTo(num, den, q) && RoundsTo(num, den, q')
    ensures q == q'
  {
    var d := q - q';
    assert q * den == q' * den + d * den by { Distribute(q', d, den); }
    if d >= 2 { MulMonotonic(2, d, den); }
    if d <= -2 { MulMonotonic(2, -d, den); Negative(d, den); }
  }

  lemma {:induction false} Negative(a: int, b: int)
    ensures (-a) * b == -(a * b)
  {
  }

  /** Rounding depends on the value of a fraction only. */
  lemma {:induction false} RoundsToFraction(num: int, den: int, num': int, den': int, q: int)
    requires den' > 0 && num * den' == num' * den && RoundsTo(num, den, q)
    ensures RoundsTo(num', den', q)
  {
    var r, r' := 2 * (num - q * den), 2 * (num' - q * den');
    assert r * den' == r' * den by { CrossRemainder(num, den, num', den', q); }
    SameSide(r, den, r', den');
    SameSide(-r, den, -r', den');
  }

  lemma {:induction false} CrossRemainder(num: int, den: int, num': int, den': int, q: int)
    requires num * den' == num' * den
    ensures (2 * (num - q * den)) * den' == (2 * (num' - q * den')) * den
  {
    assert (q * den) * den' == (q * den') * den;
    assert (num - q * den) * den' == num * den' - (q * den) * den';
    assert (num' - q * den') * den == num' * den - (q * den') * den;
    Reassociate(2, num - q * den, den');
    Reassociate(2, num' - q * den', den);
  }

  lemma {:induction false} SameSide(r: int, den: int, r': int, den': int)
    requires den > 0 && den' > 0 && r * den' == r' * den
    ensures (r < den <==> r' < den') && (r == den <==> r' == den')
  {
    Compare(r, den, den');
    Compare(r', den', den);
  }

  lemma {:induction false} Compare(a: int, b: int, c: int)
    requires c > 0
    ensures (a < b <==> a * c < b * c) && (a == b <==> a * c == b * c)
  {
  }

  /** check and rest say on which side of one half of den the tail num is. */
  predicate TailOf(num: int, den: int, check: int, rest: seq<int>) {
    && 0 <= num < den
    && (2 * num < den <==> check < HALF)
    && (2 * num == den <==> check == HALF && Zeros(rest))
  }

  /** Are all digits of the tail zero? */
  method IsZero(digits: array<int>, check: int, work0: nat, lsd: nat) returns (zero: bool)
    requires work0 < digits.Length && Extent(digits[..], 0, lsd)
    ensures zero <==> check == 0 && Zeros(digits[work0 + 1..])
  {
    if check != 0 { return false; }
    var work := work0;
    while work < lsd
      invariant work0 <= work && (work <= lsd || work == work0)
      invariant forall i :: work0 < i <= work ==> digits[i] == 0
    {
      work := work + 1;
      if digits[work] != 0 {
        assert digits[work0 + 1..][work - work0 - 1] != 0;
        return false;
      }
    }
    return true;
  }

  /** Compares the tail with one half of the last digit kept. */
  method CompareHalf(digits: array<int>, check: int, work: nat, lsd: nat) returns (compare: int)
    requires work < digits.Length && Extent(digits[..], 0, lsd)
    requires work <= lsd || check == 0
    ensures compare < 0 <==> check < HALF
    ensures compare == 0 <==> check == HALF && Zeros(digits[work + 1..])
  {
    if check < HALF { return -1; }
    if check == HALF {
      if work == lsd { return 0; }
      var zero := IsZero(digits, digits[work + 1], work + 1, lsd);
      NextZero(digits[..], work);
      if zero { return 0; }
    }
    return 1;
  }

  lemma {:induction false} NextZero(s: seq<int>, work: nat)
    requires work + 1 < |s|
    ensures Zeros(s[work + 1..]) <==> s[work + 1] == 0 && Zeros(s[work + 2..])
  {
    assert s[work + 1..] == [s[work + 1]] + s[work + 2..];
  }

  /** Rounds up, down or to even. */
  method RoundIt(digits: array<int>, value: nat, check: int, work: nat, lsd: nat, ghost num: int, ghost den: int)
    returns (rounded: nat)
    requires work < digits.Length && Extent(digits[..], 0, lsd)
    requires work <= lsd || check == 0
    requires TailOf(num, den, check, digits[work + 1..])
    ensures RoundsTo(value * den + num, den, rounded) && value <= rounded <= value + 1
    ensures check == 0 ==> rounded == value
  {
    var compare := CompareHalf(digits, check, work, lsd);
    Distribute(value, 1, den);
    if compare > 0 {
      return value + 1;
    } else if compare == 0 {
      return (value + 1) - (value + 1) % 2;
    } else {
      return value;
    }
  }

  /** A tail that begins with c out of p, where p is even. */
  lemma {:induction false} TailCompares(c: nat, p: nat, v: nat, q: nat)
    requires c < p && p % 2 == 0 && v < q
    ensures 0 <= c * q + v < p * q
    ensures 2 * (c * q + v) < p * q <==> 2 * c < p
    ensures 2 * (c * q + v) == p * q <==> 2 * c == p && v == 0
  {
    var h := p / 2;
    Reassociate(2, h, q);
    Distribute(c, 1, q);
    MulMonotonic(c + 1, p, q);
    if c < h { MulMonotonic(c + 1, h, q); } else { MulMonotonic(h, c, q); }
    if c > h { MulMonotonic(h + 1, c, q); Distribute(h, 1, q); }
  }

  lemma {:induction false} ZeroOnly(s: seq<int>)
    requires Digits(s)
    ensures 0 <= Val(s) < Pow(BBASE, |s|) && (Val(s) == 0 <==> Zeros(s))
  {
    ValBounds(s);
    if Zeros(s) {
      ValZeros(s);
    } else {
      var i :| 0 <= i < |s| && s[i] != 0;
      ValPositive(s, i);
    }
  }

  /** A tail that begins inside the digit d: c places of it out of p, scaled up to be compared. */
  lemma {:induction false} TailInside(c: nat, p: nat, scale: nat, t: seq<int>)
    requires c < p && p % 2 == 0 && p * scale == BBASE && Digits(t)
    ensures TailOf(c * Pow(BBASE, |t|) + Val(t), p * Pow(BBASE, |t|), c * scale, t)
  {
    ZeroOnly(t);
    TailCompares(c, p, Val(t), Pow(BBASE, |t|));
    var h := p / 2;
    Halved(p, h, scale);
    if c < h { MulMonotonic(c + 1, h, scale); Distribute(c, 1, scale); }
    if c > h { MulMonotonic(h + 1, c, scale); Distribute(h, 1, scale); }
  }

  lemma {:induction false} Halved(p: nat, h: nat, scale: nat)
    requires p == 2 * h && p * scale == BBASE
    ensures h * scale == HALF && scale > 0
  {
    Reassociate(2, h, scale);
  }

  /** A tail of whole digits. */
  lemma {:induction false} TailAligned(t: seq<int>)
    requires |t| > 0 && Digits(t)
    ensures TailOf(Val(t), Pow(BBASE, |t|), t[0], t[1..])
  {
    var rest := t[1..];
    assert t == [t[0]] + rest;
    ValFront(t[0], rest);
    assert t[0] * 1 == t[0];
    TailInside(t[0], BBASE, 1, rest);
  }

  /** H = (a BBASE + rv p + c) q + v is (a (BBASE / p) + rv) p q + (c q + v). */
  lemma {:induction false} SplitAt(a: nat, rv: nat, c: nat, p: nat, scale: nat, q: nat, v: nat)
    requires p * scale == BBASE
    ensures (a * BBASE + (rv * p + c)) * q + v == (a * scale + rv) * (p * q) + (c * q + v)
  {
    assert a * BBASE == (a * scale) * p by { Reassociate(a, p, scale); Swap(a, p, scale); }
    Distribute(a * scale, rv, p);
    Distribute((a * scale + rv) * p, c, q);
    Reassociate(a * scale + rv, p, q);
  }

  /** Adding an even multiple to the kept value does not change how it is rounded. */
  lemma {:induction false} RoundsAbove(k: int, value: int, num: int, den: int, r: int)
    requires RoundsTo(value * den + num, den, r) && k % 2 == 0
    ensures RoundsTo((k + value) * den + num, den, k + r)
  {
    Distribute(k, value, den);
    Distribute(k, r, den);
  }

  lemma {:induction false} EvenProduct(a: int, b: int)
    requires b % 2 == 0
    ensures (a * b) % 2 == 0
  {
    var h := b / 2;
    assert a * b == 2 * (a * h);
  }
}
