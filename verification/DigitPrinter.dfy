/**
 The output step of to_digits: carries out of the rounded digit, and the
 conversion of base 10^9 digits to decimal ones.
 */
module DigitPrinter {
  import opened Bignum
  import opened Decimals

  /** Only the low nine decimal digits of each digit are printed. */
  function Wrap(s: seq<int>): (r: seq<int>)
    ensures |r| == |s|
    ensures forall i :: 0 <= i < |s| ==> r[i] == s[i] % BBASE
  {
    seq(|s|, i requires 0 <= i < |s| => s[i] % BBASE)
  }

  predicate Wide(s: seq<int>) {
    forall i :: 0 <= i < |s| ==> 0 <= s[i] <= BBASE
  }

  /** A carry moves one unit to the next digit up. */
  lemma {:induction false} CarryStep(a: seq<int>, x: int, tail: seq<int>)
    ensures Val(a + [x + 1] + [0] + tail) == Val(a + [x] + [BBASE] + tail)
  {
    ValConcat(a + [x + 1] + [0], tail);
    ValConcat(a + [x] + [BBASE], tail);
    ValAppend(a + [x + 1], 0);
    ValAppend(a + [x], BBASE);
    ValAppend(a, x + 1);
    ValAppend(a, x);
  }

  /** The carry loop has reached index work; the digits behind it are wrapped. */
  ghost predicate Carrying(s: seq<int>, orig: seq<int>, work: nat) {
    && |s| == |orig| && work < |s| && Wide(s)
    && Val(s[..work + 1] + Wrap(s[work + 1..])) == Val(orig)
    && s[..work] == orig[..work]
    && (work < |s| - 1 ==> s[work] == orig[work] + 1)
    && (work == |s| - 1 ==> s[work] == orig[work])
  }

  lemma {:induction false} CarryingStarts(s: seq<int>)
    requires |s| > 0 && Wide(s)
    ensures Carrying(s, s, |s| - 1)
  {
    assert s[..|s|] + Wrap(s[|s|..]) == s;
  }

  lemma {:induction false} CarryingStep(s: seq<int>, orig: seq<int>, work: nat)
    requires Carrying(s, orig, work) && s[work] >= BBASE && work > 0 && s[work - 1] < BBASE
    ensures Carrying(s[work - 1 := s[work - 1] + 1], orig, work - 1)
  {
    CarryStep(s[..work - 1], s[work - 1], Wrap(s[work + 1..]));
    CarriedParts(s, work);
    assert s[work - 1] == s[..work][work - 1] == orig[work - 1];
    var t := s[work - 1 := s[work - 1] + 1];
    assert t[..work - 1] == s[..work][..work - 1] == orig[..work][..work - 1] == orig[..work - 1];
  }

  lemma {:induction false} CarriedParts(s: seq<int>, work: nat)
    requires 0 < work < |s| && s[work] == BBASE
    ensures var t, a, tail := s[work - 1 := s[work - 1] + 1], s[..work - 1], Wrap(s[work + 1..]);
      && s[..work + 1] + tail == a + [s[work - 1]] + [BBASE] + tail
      && t[..work] + Wrap(t[work..]) == a + [s[work - 1] + 1] + [0] + tail
  {
    var t, tail := s[work - 1 := s[work - 1] + 1], Wrap(s[work + 1..]);
    assert t[work..] == [BBASE] + s[work + 1..];
    assert Wrap(t[work..]) == [0] + tail;
  }

  lemma {:induction false} CarryingEnds(s: seq<int>, orig: seq<int>, work: nat)
    requires Carrying(s, orig, work) && s[work] < BBASE && Digits(orig[..work])
    ensures Val(Wrap(s)) == Val(orig)
  {
    forall i | 0 <= i <= work ensures Wrap(s)[i] == s[i] {
      if i < work { assert s[i] == s[..work][i] == orig[..work][i]; }
    }
    assert s[..work + 1] + Wrap(s[work + 1..]) == Wrap(s);
  }

  /** Propagates a carry out of digit rd. */
  method Carry(digits: array<int>, rd: nat) returns (work: nat)
    requires rd < digits.Length && Digits(digits[..rd]) && 0 <= digits[rd] <= BBASE
    requires digits[0] < if rd == 0 then BBASE else BBASE - 1
    modifies digits
    ensures digits[rd + 1..] == old(digits[rd + 1..])
    ensures Carrying(digits[..rd + 1], old(digits[..rd + 1]), work) && digits[work] < BBASE
    ensures Val(Wrap(digits[..rd + 1])) == Val(old(digits[..rd + 1]))
  {
    ghost var orig := digits[..rd + 1];
    assert orig[..rd] == digits[..rd];
    WideFront(orig);
    CarryingStarts(orig);
    work := rd;
    while digits[work] >= BBASE
      invariant work <= rd && Carrying(digits[..rd + 1], orig, work)
      invariant digits[rd + 1..] == old(digits[rd + 1..])
      decreases work
    {
      ghost var s := digits[..rd + 1];
      AboveZero(s, orig, work);
      var carry := digits[work] / BBASE;
      digits[work - 1] := digits[work - 1] + carry;
      CarryingStep(s, orig, work);
      assert digits[..rd + 1] == s[work - 1 := s[work - 1] + 1];
      work := work - 1;
    }
    assert orig[..work] == digits[..rd + 1][..work];
    assert orig[..rd] == old(digits[..rd]);
    assert Digits(orig[..work]) by { assert orig[..work] == orig[..rd][..work]; }
    CarryingEnds(digits[..rd + 1], orig, work);
  }

  /** The carry never runs off the front. */
  lemma {:induction false} WideFront(s: seq<int>)
    requires |s| > 0 && Digits(s[..|s| - 1]) && 0 <= s[|s| - 1] <= BBASE
    ensures Wide(s)
  {
    assert forall i :: 0 <= i < |s| - 1 ==> s[i] == s[..|s| - 1][i];
  }

  lemma {:induction false} AboveZero(s: seq<int>, orig: seq<int>, work: nat)
    requires Carrying(s, orig, work) && s[work] >= BBASE && Digits(orig[..|orig| - 1])
    requires orig[0] < if |orig| == 1 then BBASE else BBASE - 1
    ensures work > 0 && s[work - 1] < BBASE
  {
    if work > 0 {
      assert s[work - 1] == s[..work][work - 1] == orig[work - 1] == orig[..|orig| - 1][work - 1];
    }
  }

  /** i places have been counted, and check is what lies above them. */
  ghost predicate Counting(check: int, d: nat, i: nat) {
    1 <= i && check == d / Pow(10, i) && (i > 1 ==> Pow(10, i - 1) <= d)
  }

  lemma {:induction false} CountingStarts(d: nat, i: nat)
    requires i == 1
    ensures Counting(d / 10, d, i)
  {
    assert Pow(10, 1) == 10;
  }

  lemma {:induction false} CountingStep(check: nat, d: nat, i: nat)
    requires Counting(check, d, i) && check > 0
    ensures Counting(check / 10, d, i + 1)
  {
    MorePlaces(d, i);
  }

  lemma {:induction false} CountingEnds(d: nat, i: nat, nine: nat)
    requires Counting(0, d, i) && d < BBASE && nine == 9
    ensures i <= 9 && d < Pow(10, i)
  {
    BelowPower(d, Pow(10, i));
    WholeDigitPower(nine);
    if i > nine { PowMonotonic(10, nine, i - 1); }
  }

  /** How many decimal digits a digit has, at least one. */
  method CountDigits(d: nat) returns (i: nat)
    requires d < BBASE
    ensures 1 <= i <= DDIG_PER_DIG && d < Pow(10, i) && (i > 1 ==> Pow(10, i - 1) <= d)
  {
    i := 1;
    var check := d / 10;
    CountingStarts(d, i);
    while check > 0
      invariant check >= 0 && Counting(check, d, i)
      decreases check
    {
      CountingStep(check, d, i);
      i := i + 1;
      check := check / 10;
    }
    CountingEnds(d, i, DDIG_PER_DIG);
  }

  lemma {:induction false} BelowPower(d: nat, p: nat)
    requires p > 0 && d / p == 0
    ensures d < p
  {
  }

  lemma {:induction false} MorePlaces(d: nat, i: nat)
    requires d / Pow(10, i) > 0
    ensures d / Pow(10, i) / 10 == d / Pow(10, i + 1) && Pow(10, i) <= d
    ensures d % Pow(10, i + 1) == d / Pow(10, i) % 10 * Pow(10, i) + d % Pow(10, i)
  {
    NextPlace(d, Pow(10, i));
    BelowPower'(d, Pow(10, i));
  }

  lemma {:induction false} BelowPower'(d: nat, p: nat)
    requires p > 0 && d / p > 0
    ensures p <= d
  {
  }

  lemma {:induction false} NextPlace(d: nat, p: nat)
    requires p > 0
    ensures d / p / 10 == d / (10 * p) && d % (10 * p) == d / p % 10 * p + d % p
  {
    var q, r := d / p, d % p;
    var x, y := q / 10, q % 10;
    assert d == q * p + r && q == x * 10 + y;
    TensAndOnes(d, p, q, r, x, y);
    QuotientIs(d, 10 * p, x, y * p + r);
  }

  lemma {:induction false} TensAndOnes(d: nat, p: nat, q: nat, r: nat, x: nat, y: nat)
    requires d == q * p + r && r < p && q == x * 10 + y && y < 10
    ensures d == x * (10 * p) + (y * p + r) && 0 <= y * p + r < 10 * p
  {
    Distribute(x * 10, y, p);
    Reassociate(x, 10, p);
    MulMonotonic(y, 9, p);
  }

  /** What has been printed of a digit: its low n - j places are in the result, and the rest is left in it. */
  ghost predicate Printing(t: seq<nat>, left: int, d: nat, places: nat) {
    && |t| == places && DecimalDigits(t)
    && Dec(t) == d % Pow(10, places) && left == d / Pow(10, places)
  }

  lemma {:induction false} PrintingStep(t: seq<nat>, left: nat, d: nat, places: nat)
    requires Printing(t, left, d, places)
    ensures Printing([left % 10] + t, left / 10, d, places + 1)
  {
    NextPlace(d, Pow(10, places));
    DecFront(left % 10, t);
  }

  /** Prints the low n decimal digits of digit k, last first. */
  method PrintDigit(digits: array<int>, k: nat, result: array<nat>, work: nat, n: nat)
    requires k < digits.Length && digits[k] >= 0 && work + n <= result.Length
    modifies digits, result
    ensures digits[..] == old(digits[..])[k := digits[k]]
    ensures result[..work] == old(result[..work])
    ensures Printing(result[work..work + n], digits[k], old(digits[k]), n)
  {
    var j := n;
    ghost var d := digits[k];
    PrintingStarts(d);
    assert result[work + j..work + n] == [];
    while j > 0
      invariant 0 <= j <= n
      invariant digits[..] == old(digits[..])[k := digits[k]] && digits[k] >= 0
      invariant result[..work] == old(result[..work])
      invariant Printing(result[work + j..work + n], digits[k], d, n - j)
    {
      ghost var t := result[work + j..work + n];
      PrintingStep(t, digits[k], d, n - j);
      j := j - 1;
      result[work + j] := digits[k] % 10;
      assert result[work + j..work + n] == [digits[k] % 10] + t;
      digits[k] := digits[k] / 10;
    }
  }

  lemma {:induction false} PrintingStarts(d: nat)
    ensures Printing([], d, d, 0)
  {
  }

  /** Nine more places, the low nine places of one more digit. */
  lemma {:induction false} OneMoreDigit(a: seq<nat>, b: seq<nat>, s: seq<int>, d: int, nine: nat)
    requires Dec(a) == Val(Wrap(s)) && |b| == nine == 9 && Dec(b) == d % BBASE
    ensures Dec(a + b) == Val(Wrap(s + [d]))
  {
    DecConcat(a, b);
    WholeDigitPower(nine);
    assert Wrap(s + [d]) == Wrap(s) + [d % BBASE];
    ValAppend(Wrap(s), d % BBASE);
  }

  lemma {:induction false} WholeDigitPower(nine: nat)
    requires nine == 9
    ensures Pow(10, nine) == BBASE
  {
    PowersOfTen();
  }

  /** The decimal digits printed so far, of the base 10^9 digits from msd up to k. */
  ghost predicate Printed(t: seq<nat>, s: seq<int>, msd: nat, k: nat) {
    && msd < k <= |s| && 1 <= |t| <= 9 * (k - msd) && DecimalDigits(t)
    && Dec(t) == Val(Wrap(s[msd..k]))
    && (s[msd] != 0 ==> t[0] != 0)
    && (s[msd] == 0 && k == msd + 1 ==> |t| == 1)
  }

  /** Prints the leading digit, without leading zeros. */
  method PrintLeading(digits: array<int>, msd: nat, result: array<nat>) returns (work: nat)
    requires msd < digits.Length && IsDigit(digits[msd]) && result.Length >= 9
    modifies digits, result
    ensures digits[..] == old(digits[..])[msd := digits[msd]]
    ensures work <= 9 && Printed(result[..work], old(digits[..]), msd, msd + 1)
  {
    ghost var s := digits[..];
    work := CountDigits(digits[msd]);
    PrintDigit(digits, msd, result, 0, work);
    ghost var t := result[0..work];
    assert result[..work] == t;
    SmallRemainder(s[msd], Pow(10, work));
    LeadingValue(s, msd);
    if work > 1 || s[msd] > 0 { FirstDigit(t); }
  }

  lemma {:induction false} SmallRemainder(d: nat, p: nat)
    requires d < p
    ensures d % p == d
  {
  }

  lemma {:induction false} LeadingValue(s: seq<int>, msd: nat)
    requires msd < |s| && IsDigit(s[msd])
    ensures Val(Wrap(s[msd..msd + 1])) == s[msd]
  {
    assert Wrap(s[msd..msd + 1]) == [] + [s[msd]];
    ValAppend([], s[msd]);
  }

  lemma {:induction false} PrintedStep(t: seq<nat>, b: seq<nat>, s: seq<int>, msd: nat, k: nat, left: int)
    requires Printed(t, s, msd, k) && k < |s| && s[k] >= 0 && (s[msd] != 0 || msd == k)
    requires Printing(b, left, s[k], 9)
    ensures Printed(t + b, s, msd, k + 1)
  {
    var nine: nat := |b|;
    WholeDigitPower(nine);
    OneMoreDigit(t, b, s[msd..k], s[k], nine);
    assert s[msd..k + 1] == s[msd..k] + [s[k]];
  }

  /** Prints the nine places of one more digit. */
  method PrintNext(digits: array<int>, msd: nat, k: nat, result: array<nat>, work: nat, ghost s: seq<int>)
    requires msd < k < digits.Length == |s| && digits[k..] == s[k..] && s[k] >= 0 && s[msd] != 0
    requires work + 9 <= result.Length && Printed(result[..work], s, msd, k)
    modifies digits, result
    ensures digits[k + 1..] == s[k + 1..] && Printed(result[..work + 9], s, msd, k + 1)
  {
    assert digits[k] == digits[k..][0] == s[k];
    ghost var t := result[..work];
    PrintDigit(digits, k, result, work, DDIG_PER_DIG);
    PrintedStep(t, result[work..work + 9], s, msd, k, digits[k]);
    assert result[..work + 9] == t + result[work..work + 9];
    assert digits[k + 1..] == s[k + 1..];
  }

  /** Prints the digits from msd through rd. */
  method PrintDigits(digits: array<int>, msd: nat, rd: nat, result: array<nat>) returns (work: nat)
    requires msd <= rd < digits.Length && IsDigit(digits[msd]) && Wide(digits[..rd + 1])
    requires digits[msd] == 0 ==> msd == rd
    requires result.Length >= 9 * (1 + rd - msd)
    modifies digits, result
    ensures work <= result.Length && Printed(result[..work], old(digits[..]), msd, rd + 1)
  {
    ghost var s := digits[..];
    assert forall i :: 0 <= i <= rd ==> s[i] == digits[..rd + 1][i];
    work := PrintLeading(digits, msd, result);
    var k := msd + 1;
    while k <= rd
      invariant msd < k <= rd + 1 && work <= 9 * (k - msd)
      invariant digits[k..] == s[k..]
      invariant Printed(result[..work], s, msd, k)
    {
      PrintNext(digits, msd, k, result, work, s);
      work := work + DDIG_PER_DIG;
      k := k + 1;
    }
  }
}
