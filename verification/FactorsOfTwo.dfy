/** How often a number can be halved. */
module FactorsOfTwo {
  import opened Bignum

  function Twos(n: nat): nat {
    if n > 0 && n % 2 == 0 then 1 + Twos(n / 2) else 0
  }

  /** A power of two divides a number exactly if it has as many factors of two. */
  lemma {:induction false} TwosMeaning(n: nat, k: nat)
    requires n > 0
    ensures n % Pow(2, k) == 0 <==> k <= Twos(n)
    decreases k
  {
    if k > 0 {
      var p := Pow(2, k - 1);
      assert Pow(2, k) == 2 * p;
      if n % 2 == 0 {
        TwosMeaning(n / 2, k - 1);
        DoubleDivisible(n / 2, p);
      } else {
        OddNotDivisible(n, p);
      }
    }
  }

  lemma {:induction false} DoubleDivisible(h: nat, p: nat)
    requires p > 0
    ensures (2 * h) % (2 * p) == 0 <==> h % p == 0
  {
    var q, r := h / p, h % p;
    assert h == q * p + r;
    assert 2 * h == q * (2 * p) + 2 * r;
    QuotientIs(2 * h, 2 * p, q, 2 * r);
  }

  lemma {:induction false} OddNotDivisible(n: nat, p: nat)
    requires p > 0 && n % 2 == 1
    ensures n % (2 * p) != 0
  {
    var q, r := n / (2 * p), n % (2 * p);
    assert n == q * (2 * p) + r;
    assert q * (2 * p) == 2 * (q * p);
  }

  /** Five has no factors of two, and ten has one. */
  lemma {:induction false} TwosOfFivefold(n: nat)
    ensures Twos(5 * n) == Twos(n)
  {
    var h := n / 2;
    if n > 0 && n % 2 == 0 {
      FivefoldEven(n, h);
      TwosOfFivefold(h);
    } else if n > 0 {
      FivefoldOdd(n, h);
    }
  }

  lemma {:induction false} FivefoldEven(n: nat, h: nat)
    requires n == 2 * h
    ensures (5 * n) % 2 == 0 && (5 * n) / 2 == 5 * h
  {
    assert 5 * n == 2 * (5 * h);
  }

  lemma {:induction false} FivefoldOdd(n: nat, h: nat)
    requires n == 2 * h + 1
    ensures (5 * n) % 2 == 1
  {
    assert 5 * n == 2 * (5 * h + 2) + 1;
  }

  lemma {:induction false} TwosOfTenfold(n: nat, p: nat)
    requires n > 0
    ensures n * Pow(10, p) > 0 && Twos(n * Pow(10, p)) == Twos(n) + p
    decreases p
  {
    if p > 0 {
      var m := n * Pow(10, p - 1);
      TwosOfTenfold(n, p - 1);
      TenTimes(n, Pow(10, p - 1));
      assert n * Pow(10, p) == 10 * m;
      assert (10 * m) / 2 == 5 * m;
      TwosOfFivefold(m);
    }
  }

  lemma {:induction false} TenTimes(n: nat, q: nat)
    ensures n * (10 * q) == 10 * (n * q)
  {
  }

  /** What is left of x after k halvings can be halved s times more exactly if x can be halved k + s times. */
  lemma {:induction false} HalvedFurther(v: nat, x: nat, k: nat, s: nat)
    requires v * Pow(2, k) == x
    ensures v % Pow(2, s) == 0 <==> x % Pow(2, k + s) == 0
  {
    PowAdd(2, k, s);
    DividedFurther(v, Pow(2, k), Pow(2, s));
  }

  lemma {:induction false} DividedFurther(v: nat, a: nat, b: nat)
    requires a > 0 && b > 0
    ensures v % b == 0 <==> (v * a) % (a * b) == 0
  {
    var q, r := v / b, v % b;
    assert v == q * b + r;
    Distribute(q * b, r, a);
    Reassociate(q, b, a);
    assert v * a == q * (a * b) + r * a by { assert b * a == a * b; }
    SmallerMultiple(r, b, a);
    QuotientIs(v * a, a * b, q, r * a);
    if r > 0 { Grows(a, r); }
  }

  lemma {:induction false} SmallerMultiple(r: nat, b: nat, a: nat)
    requires r < b && a > 0
    ensures r * a < a * b
  {
    MulMonotonic(r + 1, b, a);
    Distribute(r, 1, a);
  }

  /** Divisible by a power of two means divisible by the smaller ones. */
  lemma {:induction false} SmallerPower(x: nat, j: nat, k: nat)
    requires x > 0 && j <= k && x % Pow(2, k) == 0
    ensures x % Pow(2, j) == 0
  {
    TwosMeaning(x, j);
    TwosMeaning(x, k);
  }
}
