/**
 The rounding step of to_digits: a laid-out number is rounded in place at a
 decimal place, and carries out of the digit rounded are propagated.
 */
module DigitRounding {
  import opened Bignum
  import opened Rounding

  /** 10^pos, by repeated multiplication. */
  method PowerOfTen(pos: nat) returns (p10: nat)
    ensures p10 == Pow(10, pos)
  {
    p10 := 1;
    var left := pos;
    while left > 0
      invariant 0 <= left <= pos && p10 == Pow(10, pos - left)
    {
      p10 := p10 * 10;
      left := left - 1;
    }
  }

  lemma {:induction false} WholeDigit(pos: nat, rest: nat)
    requires pos + rest == 9
    ensures Pow(10, pos) * Pow(10, rest) == BBASE
  {
    PowAdd(10, pos, rest);
    PowersOfTen();
  }

  lemma {:induction false} TenIsEven(n: nat)
    requires n > 0
    ensures Pow(10, n) % 2 == 0
  {
    EvenProduct(Pow(10, n - 1), 10);
  }

  /** The number kept by rounding at digit rd, pos decimal places into it, when that digit's kept part becomes r. */
  ghost function KeptPart(s: seq<int>, rd: nat, pos: nat, r: int): int
    requires rd < |s| && pos <= 9
  {
    Val(s[..rd]) * Pow(10, 9 - pos) + r
  }

  /** The unit of the last place kept. */
  function Place(s: seq<int>, rd: nat, pos: nat): nat
    requires rd < |s|
  {
    Product(Pow(10, pos), Pow(BBASE, |s| - 1 - rd))
  }

  /** The part of the number below the last place kept. */
  ghost function Tail(s: seq<int>, rd: nat, pos: nat): int
    requires rd < |s|
  {
    s[rd] % Pow(10, pos) * Pow(BBASE, |s| - 1 - rd) + Val(s[rd + 1..])
  }

  /** Rounding the digit rounds the whole number. */
  lemma {:induction false} KeptIsRounded(s: seq<int>, rd: nat, pos: nat, r: int)
    requires rd < |s| && pos < 9 && Digits(s)
    requires RoundsTo(s[rd] / Pow(10, pos) * Place(s, rd, pos) + Tail(s, rd, pos), Place(s, rd, pos), r)
    ensures RoundsTo(Val(s), Place(s, rd, pos), KeptPart(s, rd, pos, r))
  {
    var a, d, q, rest := Val(s[..rd]), s[rd], Pow(BBASE, |s| - 1 - rd), s[rd + 1..];
    var p, scale := Pow(10, pos), Pow(10, 9 - pos);
    ThreeParts(s, rd);
    WholeDigit(pos, 9 - pos);
    Whole(d, p);
    SplitAt(a, d / p, d % p, p, scale, q, Val(rest));
    TenIsEven(9 - pos);
    EvenProduct(a, scale);
    RoundsAbove(a * scale, d / p, Tail(s, rd, pos), Place(s, rd, pos), r);
  }

  /** A number before, at and after a digit. */
  lemma {:induction false} ThreeParts(s: seq<int>, rd: nat)
    requires rd < |s| && Digits(s)
    ensures Val(s) == (Val(s[..rd]) * BBASE + s[rd]) * Pow(BBASE, |s| - 1 - rd) + Val(s[rd + 1..])
    ensures Val(s[..rd]) >= 0 && Val(s[rd + 1..]) >= 0
  {
    var rest := s[rd + 1..];
    assert s == s[..rd + 1] + rest && s[..rd + 1] == s[..rd] + [s[rd]];
    ValConcat(s[..rd + 1], rest);
    ValAppend(s[..rd], s[rd]);
    ValBounds(s[..rd]);
    ValBounds(rest);
  }

  lemma {:induction false} Whole(d: int, p: int)
    requires p > 0 && d >= 0
    ensures d == d / p * p + d % p && d / p >= 0
  {
  }

  /** The rounded digit, put back in its place. */
  lemma {:induction false} KeptInPlace(s: seq<int>, rd: nat, pos: nat, r: int)
    requires rd < |s| && pos < 9
    ensures Val(s[..rd] + [Pow(10, pos) * r]) == Pow(10, pos) * KeptPart(s, rd, pos, r)
  {
    var a, p, scale := Val(s[..rd]), Pow(10, pos), Pow(10, 9 - pos);
    ValAppend(s[..rd], p * r);
    WholeDigit(pos, 9 - pos);
    Factor(a, p, scale, r);
  }

  lemma {:induction false} Factor(a: int, p: int, scale: int, r: int)
    requires p * scale == BBASE
    ensures a * BBASE + p * r == p * (a * scale + r)
  {
    assert p * (a * scale) == a * (p * scale);
  }

  /** Takes the tail out of the digit to round, and scales it up to be compared with one half. */
  method TakeTail(digits: array<int>, lsd: nat, rd: nat, pos: nat) returns (p10: nat, check: nat, work: nat)
    requires Extent(digits[..], 0, lsd) && rd + 1 < digits.Length && pos < 9
    modifies digits
    ensures p10 == Pow(10, pos) && rd <= work <= rd + 1
    ensures digits[..] == old(digits[..])[rd := old(digits[rd]) / p10 * p10] && Extent(digits[..], 0, lsd)
    ensures work <= lsd || check == 0
    ensures old(digits[rd]) == 0 && pos > 0 ==> check == 0
    ensures TailOf(Tail(old(digits[..]), rd, pos), Place(old(digits[..]), rd, pos), check, digits[work + 1..])
  {
    p10 := 1;
    ghost var s := digits[..];
    assert IsDigit(s[rd]) && IsDigit(s[rd + 1]) && Digits(s[rd + 1..]);
    if pos == 0 {
      work := rd + 1;
      check := digits[work];
      TailAligned(s[rd + 1..]);
      assert s[rd + 1..][1..] == digits[work + 1..];
      assert digits[..] == s[rd := s[rd] / p10 * p10];
    } else {
      p10 := PowerOfTen(pos);
      work := rd;
      check := digits[work] % p10;
      Whole(digits[work], p10);
      digits[work] := digits[work] - check;
      assert digits[..] == s[rd := s[rd] / p10 * p10];
      TenIsEven(pos);
      WholeDigit(pos, 9 - pos);
      Quotient(p10, Pow(10, 9 - pos));
      TailInside(check, p10, BBASE / p10, s[rd + 1..]);
      assert s[rd + 1..] == digits[work + 1..];
      check := check * (BBASE / p10);
    }
  }

  lemma {:induction false} Quotient(p: nat, scale: nat)
    requires p > 0 && p * scale == BBASE
    ensures BBASE / p == scale && p * (BBASE / p) == BBASE
  {
    QuotientIs(BBASE, p, scale, 0);
  }

  /** Rounds the number at pos decimal places into digit rd. */
  method RoundDigit(digits: array<int>, lsd: nat, rd: nat, pos: nat) returns (p10: nat, ghost q: int)
    requires Extent(digits[..], 0, lsd) && rd + 1 < digits.Length && pos < 9
    modifies digits
    ensures p10 == Pow(10, pos)
    ensures digits[..] == old(digits[..])[rd := digits[rd]] && 0 <= digits[rd] <= BBASE
    ensures digits[rd] <= old(digits[rd]) + p10 && (digits[rd] == 0 ==> old(digits[rd]) < p10)
    ensures old(digits[rd]) == 0 ==> digits[rd] <= 1 && (pos > 0 ==> digits[rd] == 0)
    ensures Val(digits[..rd + 1]) == p10 * q
    ensures RoundsTo(Val(old(digits[..])), Place(old(digits[..]), rd, pos), q)
  {
    ghost var s := digits[..];
    assert IsDigit(s[rd]);
    var check, work;
    p10, check, work := TakeTail(digits, lsd, rd, pos);
    var value := digits[rd] / p10;
    Exact(s[rd], p10);
    var r := RoundIt(digits, value, check, work, lsd, Tail(s, rd, pos), Place(s, rd, pos));
    RoundedKept(s, rd, pos, r);
    digits[rd] := p10 * r;
    q := KeptPart(s, rd, pos, r);
    assert digits[..rd + 1] == s[..rd] + [p10 * r];
  }

  /** What the rounded digit means. */
  lemma {:induction false} RoundedKept(s: seq<int>, rd: nat, pos: nat, r: nat)
    requires rd < |s| && pos < 9 && Digits(s)
    requires s[rd] / Pow(10, pos) <= r <= s[rd] / Pow(10, pos) + 1
    requires RoundsTo(s[rd] / Pow(10, pos) * Place(s, rd, pos) + Tail(s, rd, pos), Place(s, rd, pos), r)
    ensures var p := Pow(10, pos);
      0 <= p * r <= BBASE && p * r <= s[rd] + p && (p * r == 0 ==> s[rd] < p) && (s[rd] == 0 ==> r <= 1)
    ensures Val(s[..rd] + [Pow(10, pos) * r]) == Pow(10, pos) * KeptPart(s, rd, pos, r)
    ensures RoundsTo(Val(s), Place(s, rd, pos), KeptPart(s, rd, pos, r))
  {
    WholeDigit(pos, 9 - pos);
    KeptBounds(s[rd], Pow(10, pos), Pow(10, 9 - pos), r);
    KeptIsRounded(s, rd, pos, r);
    KeptInPlace(s, rd, pos, r);
  }

  lemma {:induction false} Exact(d: nat, p: nat)
    requires p > 0
    ensures (d / p * p) / p == d / p
  {
    QuotientIs(d / p * p, p, d / p, 0);
  }

  lemma {:induction false} KeptBounds(d: nat, p: nat, scale: nat, r: nat)
    requires p > 0 && p * scale == BBASE && d < BBASE && d / p <= r <= d / p + 1
    ensures 0 <= p * r <= BBASE && p * r <= d + p && (p * r == 0 ==> d < p) && (d == 0 ==> r <= 1)
  {
    var v := d / p;
    Whole(d, p);
    if v >= scale { MulMonotonic(scale, v, p); assert false; }
    RoundedBounds(v, p, scale, r);
    if d == 0 { QuotientIs(d, p, 0, 0); }
  }

  lemma {:induction false} RoundedBounds(v: nat, p: nat, scale: nat, r: nat)
    requires p > 0 && v < scale && v <= r <= v + 1
    ensures 0 <= p * r <= p * scale && p * r <= v * p + p && (p * r == 0 ==> v == 0)
  {
    MulMonotonic(r, scale, p);
    MulMonotonic(r, v + 1, p);
    Distribute(v, 1, p);
    if r > 0 { Grows(p, r); }
  }
}
