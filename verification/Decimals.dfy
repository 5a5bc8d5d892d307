/** Strings of decimal digits, most significant first, and the numbers they denote. */
module Decimals {
  import opened Bignum

  function Dec(s: seq<nat>): nat {
    if s == [] then 0 else Dec(s[..|s| - 1]) * 10 + s[|s| - 1]
  }

  predicate DecimalDigits(s: seq<nat>) {
    forall i :: 0 <= i < |s| ==> s[i] <= 9
  }

  predicate NoLeadingZero(s: seq<nat>) {
    |s| > 1 ==> s[0] != 0
  }

  lemma {:induction false} DecConcat(a: seq<nat>, b: seq<nat>)
    ensures Dec(a + b) == Dec(a) * Pow(10, |b|) + Dec(b)
  {
    if b == [] {
      assert a + b == a;
    } else {
      var n := |b| - 1;
      DecConcat(a, b[..n]);
      assert (a + b)[..|a| + n] == a + b[..n];
      Tenfold(Dec(a), Pow(10, n), Dec(b[..n]));
    }
  }

  lemma {:induction false} Tenfold(a: int, p: nat, b: int)
    ensures (a * p + b) * 10 == a * (10 * p) + b * 10
  {
  }

  lemma {:induction false} DecFront(d: nat, s: seq<nat>)
    ensures Dec([d] + s) == d * Pow(10, |s|) + Dec(s)
  {
    DecConcat([d], s);
    assert [d][..0] == [];
  }

  lemma {:induction false} DecBound(s: seq<nat>)
    requires DecimalDigits(s)
    ensures Dec(s) < Pow(10, |s|)
  {
    if s != [] { DecBound(s[..|s| - 1]); }
  }

  /** A number with as many places as digits has no leading zero. */
  lemma {:induction false} FirstDigit(s: seq<nat>)
    requires |s| > 0 && DecimalDigits(s) && Dec(s) >= Pow(10, |s| - 1)
    ensures s[0] != 0
  {
    assert s == [s[0]] + s[1..];
    DecFront(s[0], s[1..]);
    DecBound(s[1..]);
  }

  /** A digit string with a leading digit other than zero is not zero. */
  lemma {:induction false} LeadingPositive(s: seq<nat>)
    requires |s| > 0 && DecimalDigits(s) && s[0] > 0
    ensures Dec(s) > 0
  {
    assert s == [s[0]] + s[1..];
    DecFront(s[0], s[1..]);
    Grows(Pow(10, |s| - 1), s[0]);
  }

  /** A digit string without a leading zero is determined by the number. */
  lemma {:induction false} DecInjective(s: seq<nat>, t: seq<nat>)
    requires DecimalDigits(s) && DecimalDigits(t) && |s| == |t| && Dec(s) == Dec(t)
    ensures s == t
  {
    if s != [] {
      var n := |s| - 1;
      DecInjective(s[..n], t[..n]);
      assert s == s[..n] + [s[n]] && t == t[..n] + [t[n]];
    }
  }

  /** Cutting places off the end divides by a power of ten. */
  lemma {:induction false} DecCut(s: seq<nat>, n: nat, q: nat)
    requires DecimalDigits(s) && n <= |s| && Dec(s) == Pow(10, n) * q
    ensures Dec(s[..|s| - n]) == q
  {
    var a, b := CutAt(s, n);
    OnlyQuotient(Dec(s), Pow(10, n), Dec(a), b, q);
  }

  lemma {:induction false} CutAt(s: seq<nat>, n: nat) returns (a: seq<nat>, b: nat)
    requires DecimalDigits(s) && n <= |s|
    ensures a == s[..|s| - n] && Dec(s) == Dec(a) * Pow(10, n) + b && b < Pow(10, n)
  {
    a := s[..|s| - n];
    var tail := s[|s| - n..];
    assert s == a + tail;
    DecConcat(a, tail);
    DecBound(tail);
    b := Dec(tail);
  }

  lemma {:induction false} OnlyQuotient(x: nat, p: nat, a: nat, b: nat, q: nat)
    requires x == a * p + b && b < p && x == p * q
    ensures a == q
  {
    QuotientIs(x, p, a, b);
    assert x == q * p + 0;
    QuotientIs(x, p, q, 0);
  }

  /** Fewer digits than places: only zero is a multiple of the power of ten. */
  lemma {:induction false} DecShort(s: seq<nat>, n: nat, q: nat)
    requires DecimalDigits(s) && |s| <= n && Dec(s) == Pow(10, n) * q
    ensures q == 0
  {
    DecBound(s);
    PowMonotonic(10, |s|, n);
    if q > 0 { Grows(Pow(10, n), q); }
  }
}
