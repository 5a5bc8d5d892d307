/**
 The input of to_double: the significant digits of a decimal digit string, and
 their conversion to base 10^9 digits around a units digit.
 */
module DecimalInput {
  import opened Bignum
  import opened Decimals
  import opened DoubleScaling

  const MAX_DIGITS := 2048

  /** Index of the first digit that is not zero. */
  function FirstNonzero(d: seq<nat>): (i: nat)
    ensures i <= |d| && (forall j :: 0 <= j < i ==> d[j] == 0) && (i < |d| ==> d[i] != 0)
  {
    if d == [] || d[0] != 0 then 0 else
      var i := FirstNonzero(d[1..]);
      assert forall j :: 0 < j < i + 1 ==> d[j] == d[1..][j - 1];
      i + 1
  }

  /** Number of digits up to the last that is not zero. */
  function LastNonzero(d: seq<nat>): (n: nat)
    ensures n <= |d| && (forall j :: n <= j < |d| ==> d[j] == 0) && (n > 0 ==> d[n - 1] != 0)
  {
    if d == [] then 0 else if d[|d| - 1] != 0 then |d| else LastNonzero(d[..|d| - 1])
  }

  function Least(a: nat, b: nat): nat { if a < b then a else b }

  /** The digits converted: from the first to the last that is not zero, but no more than 2048. */
  function Kept(d: seq<nat>): seq<nat> {
    var i, n := FirstNonzero(d), LastNonzero(d);
    if n <= i then [] else d[i..i + Least(n - i, MAX_DIGITS)]
  }

  /** The decimal places of the most and least significant digits kept. */
  function MostPlace(d: seq<nat>, scale: int): int { |d| - FirstNonzero(d) - 1 - scale }
  function LeastPlace(d: seq<nat>, scale: int): int { MostPlace(d, scale) - |Kept(d)| + 1 }

  lemma {:induction false} DecZeros(s: seq<nat>)
    requires forall i :: 0 <= i < |s| ==> s[i] == 0
    ensures Dec(s) == 0
  {
    if s != [] { DecZeros(s[..|s| - 1]); }
  }

  /** Nothing but zeros is dropped from a string of at most 2048 significant digits. */
  lemma {:induction false} KeptValue(d: seq<nat>, scale: int)
    requires LastNonzero(d) - FirstNonzero(d) <= MAX_DIGITS
    ensures LeastPlace(d, scale) + scale >= 0 || Kept(d) == []
    ensures Kept(d) == [] ==> Dec(d) == 0
    ensures Kept(d) != [] ==> Dec(d) == Dec(Kept(d)) * Pow(10, LeastPlace(d, scale) + scale)
  {
    if LastNonzero(d) <= FirstNonzero(d) {
      DecZeros(d);
    } else {
      KeptSome(d, FirstNonzero(d), LastNonzero(d), scale);
    }
  }

  lemma {:induction false} KeptSome(d: seq<nat>, i: nat, n: nat, scale: int)
    requires i == FirstNonzero(d) < LastNonzero(d) == n && n - i <= MAX_DIGITS
    ensures Kept(d) != [] && LeastPlace(d, scale) + scale >= 0
    ensures Dec(d) == Dec(Kept(d)) * Pow(10, LeastPlace(d, scale) + scale)
  {
    KeptSlice(d, i, n, scale);
    DecMiddle(d[..i], d[i..n], d[n..]);
  }

  lemma {:induction false} KeptSlice(d: seq<nat>, i: nat, n: nat, scale: int)
    requires i == FirstNonzero(d) < LastNonzero(d) == n && n - i <= MAX_DIGITS
    ensures Kept(d) == d[i..n] && d == d[..i] + d[i..n] + d[n..] && LeastPlace(d, scale) + scale == |d[n..]|
    ensures forall j :: 0 <= j < |d[n..]| ==> d[n..][j] == 0
  {
    ThreeSlices(d, i, n);
  }

  lemma {:induction false} ThreeSlices(d: seq<nat>, i: nat, n: nat)
    requires i <= n <= |d| && forall j :: n <= j < |d| ==> d[j] == 0
    ensures d == d[..i] + d[i..n] + d[n..]
    ensures forall j :: 0 <= j < |d[n..]| ==> d[n..][j] == 0
  {
  }

  lemma {:induction false} DecMiddle(a: seq<nat>, k: seq<nat>, b: seq<nat>)
    requires (forall i :: 0 <= i < |a| ==> a[i] == 0) && (forall i :: 0 <= i < |b| ==> b[i] == 0)
    ensures Dec(a + k + b) == Dec(k) * Pow(10, |b|)
  {
    DecConcat(a + k, b);
    DecConcat(a, k);
    DecZeros(a);
    DecZeros(b);
  }

  /** Finds the digits to convert, and their places. */
  method Trim(d: seq<nat>, scale: int) returns (kept: seq<nat>, msp: int, lsp: int)
    ensures kept == Kept(d)
    ensures kept != [] ==> kept[0] != 0 && msp == MostPlace(d, scale) && lsp == LeastPlace(d, scale)
  {
    var first := 0;
    while first < |d| && d[first] == 0
      invariant 0 <= first <= |d| && forall j :: 0 <= j < first ==> d[j] == 0
    {
      first := first + 1;
    }
    FirstIs(d, first);
    msp, lsp := -scale, -scale;
    if first == |d| {
      return [], msp, lsp;
    }
    msp := msp + (|d| - first - 1);
    var last := |d| - 1;
    while d[last] == 0
      invariant first <= last < |d| && forall j :: last < j < |d| ==> d[j] == 0
      invariant lsp == -scale + (|d| - 1 - last)
      decreases last
    {
      lsp := lsp + 1;
      last := last - 1;
    }
    LastIs(d, last + 1);
    if msp - lsp >= MAX_DIGITS {
      lsp := 1 + msp - MAX_DIGITS;
      last := first + (msp - lsp);
    }
    kept := d[first..last + 1];
  }

  lemma {:induction false} FirstIs(d: seq<nat>, i: nat)
    requires i <= |d| && (forall j :: 0 <= j < i ==> d[j] == 0) && (i < |d| ==> d[i] != 0)
    ensures FirstNonzero(d) == i
  {
  }

  lemma {:induction false} LastIs(d: seq<nat>, n: nat)
    requires n <= |d| && (forall j :: n <= j < |d| ==> d[j] == 0) && (n > 0 ==> d[n - 1] != 0)
    ensures LastNonzero(d) == n
  {
  }

  /** The digit and the number of free places in it for decimal place place, relative to the units digit. */
  function DigitOffset(place: int): int {
    if place >= 0 then -(place / DDIG_PER_DIG) else (DDIG_PER_DIG - 1 - place) / DDIG_PER_DIG
  }

  function PlacesLeft(place: int): int {
    if place >= 0 then place % DDIG_PER_DIG + 1 else DDIG_PER_DIG - (-place - 1) % DDIG_PER_DIG
  }

  lemma {:induction false} PlaceOf(place: int)
    ensures 1 <= PlacesLeft(place) <= 9 && place == PlacesLeft(place) - 1 - 9 * DigitOffset(place)
  {
  }

  /** After some decimal digits: those in full digits are before index i, and those of a digit in progress in it. */
  ghost predicate Reading(s: seq<int>, msd: nat, i: nat, left: int, read: seq<nat>) {
    && msd <= i < |s| && 1 <= left <= 9 && Digits(s)
    && (forall j :: 0 <= j < |s| && (j < msd || j > i) ==> s[j] == 0)
    && s[i] < Pow(10, 9 - left)
    && Val(s[..i]) * Pow(10, 9 - left) + s[i] == Dec(read)
  }

  lemma {:induction false} ReadingDigit(s: seq<int>, msd: nat, i: nat, left: int, read: seq<nat>, d: nat)
    requires Reading(s, msd, i, left, read) && d <= 9
    ensures var t := s[i := s[i] * 10 + d];
      && 0 <= t[i] < BBASE
      && (left > 1 ==> Reading(t, msd, i, left - 1, read + [d]))
      && (left == 1 && i + 1 < |s| ==> Reading(t, msd, i + 1, 9, read + [d]))
  {
    var t := s[i := s[i] * 10 + d];
    assert (read + [d])[..|read|] == read;
    assert t[..i] == s[..i];
    var places: nat := 9 - left;
    Tenfold(Val(s[..i]), Pow(10, places), s[i]);
    assert Dec(read + [d]) == Val(s[..i]) * Pow(10, places + 1) + t[i];
    WithinDigit(places + 1);
    if left == 1 && i + 1 < |s| {
      assert t[..i + 1] == s[..i] + [t[i]];
      ValAppend(s[..i], t[i]);
      FullDigit(places + 1);
      assert Pow(10, 0) == 1;
    }
  }

  lemma {:induction false} WithinDigit(places: nat)
    requires places <= 9
    ensures Pow(10, places) <= BBASE
  {
    PowMonotonic(10, places, 9);
    PowersOfTen();
  }

  lemma {:induction false} FullDigit(places: nat)
    requires places == 9
    ensures Pow(10, places) == BBASE
  {
    PowersOfTen();
  }

  lemma {:induction false} ReadingStarts(s: seq<int>, i: nat, left: int)
    requires i < |s| && Zeros(s) && 1 <= left <= 9
    ensures Reading(s, i, i, left, [])
  {
    ValZeros(s[..i]);
  }

  /** Reads decimal digits, most significant first, into base 10^9 digits. */
  method ReadDigits(digits: array<int>, kept: seq<nat>, start: nat, left0: int) returns (next: nat, left: int)
    requires Zeros(digits[..]) && DecimalDigits(kept) && 1 <= left0 <= 9
    requires start < digits.Length && |kept| - left0 < 9 * (digits.Length - 1 - start)
    modifies digits
    ensures Reading(digits[..], start, next, left, kept)
    ensures 9 * next - left == 9 * start - left0 + |kept|
  {
    next, left := start, left0;
    var j := 0;
    ReadingStarts(digits[..], start, left0);
    assert kept[..0] == [];
    while j < |kept|
      invariant 0 <= j <= |kept| && 9 * next - left == 9 * start - left0 + j
      invariant Reading(digits[..], start, next, left, kept[..j])
    {
      ghost var s := digits[..];
      ReadingDigit(s, start, next, left, kept[..j], kept[j]);
      assert kept[..j + 1] == kept[..j] + [kept[j]];
      digits[next] := digits[next] * 10 + kept[j];
      assert digits[..] == s[next := s[next] * 10 + kept[j]];
      left := left - 1;
      if left == 0 {
        next := next + 1;
        left := DDIG_PER_DIG;
      }
      j := j + 1;
    }
    assert kept[..j] == kept;
  }

  /** The digit in progress after some of its free places have been filled with zeros. */
  ghost predicate Filling(s: seq<int>, msd: nat, i: nat, left: int, zeros: nat, value: nat) {
    && msd <= i < |s| && 0 <= left <= 9 && Digits(s)
    && (forall j :: 0 <= j < |s| && (j < msd || j > i) ==> s[j] == 0)
    && s[i] < Pow(10, 9 - left)
    && Val(s[..i]) * Pow(10, 9 - left) + s[i] == value * Pow(10, zeros)
  }

  lemma {:induction false} FillingStep(s: seq<int>, msd: nat, i: nat, left: int, zeros: nat, value: nat)
    requires Filling(s, msd, i, left, zeros, value) && left > 0
    ensures Filling(s[i := s[i] * 10], msd, i, left - 1, zeros + 1, value)
  {
    var t := s[i := s[i] * 10];
    assert t[..i] == s[..i];
    var places: nat := 9 - left;
    Tenfold(Val(s[..i]), Pow(10, places), s[i]);
    Reassociate(value, Pow(10, zeros), 10);
    assert Pow(10, zeros) * 10 == Pow(10, zeros + 1);
    WithinDigit(places + 1);
  }

  /** Fills out the last digit with zeros, if it has been begun. */
  method FillOut(digits: array<int>, msd: nat, next: nat, left0: int, ghost read: seq<nat>)
    requires next < digits.Length && Reading(digits[..], msd, next, left0, read)
    modifies digits
    ensures Extent(digits[..], msd, next)
    ensures Val(digits[..next + 1]) == Dec(read) * Pow(10, left0)
  {
    var left := left0;
    ghost var zeros := 0;
    if left < DDIG_PER_DIG {
      assert Filling(digits[..], msd, next, left, 0, Dec(read));
      while left > 0
        invariant 0 <= left <= left0 && zeros == left0 - left
        invariant Filling(digits[..], msd, next, left, zeros, Dec(read))
      {
        ghost var s := digits[..];
        FillingStep(s, msd, next, left, zeros, Dec(read));
        digits[next] := digits[next] * 10;
        assert digits[..] == s[next := s[next] * 10];
        left := left - 1;
        zeros := zeros + 1;
      }
      FilledValue(digits[..], msd, next, zeros, Dec(read));
    } else {
      assert Pow(10, 0) == 1;
      UnfilledValue(digits[..], msd, next, left, read);
    }
    assert digits[..][..next + 1] == digits[..next + 1];
  }

  lemma {:induction false} FilledValue(s: seq<int>, msd: nat, i: nat, zeros: nat, value: nat)
    requires Filling(s, msd, i, 0, zeros, value)
    ensures Val(s[..i + 1]) == value * Pow(10, zeros)
  {
    var nine: nat := 9;
    FullDigit(nine);
    assert s[..i + 1] == s[..i] + [s[i]];
    ValAppend(s[..i], s[i]);
  }

  lemma {:induction false} UnfilledValue(s: seq<int>, msd: nat, i: nat, left: nat, read: seq<nat>)
    requires Reading(s, msd, i, left, read) && left == 9
    ensures Val(s[..i + 1]) == Dec(read) * Pow(10, left)
  {
    FullDigit(left);
    assert s[..i + 1] == s[..i] + [s[i]];
    ValAppend(s[..i], s[i]);
    assert Pow(10, 0) == 1;
  }

  /** Loads the digits kept into the work space, with their units at the given digit. */
  method LoadDecimal(digits: array<int>, kept: seq<nat>, msp: int, lsp: int, units: nat) returns (msd: nat, lsd: nat)
    requires Zeros(digits[..]) && DecimalDigits(kept) && |kept| == msp - lsp + 1 > 0
    requires units < digits.Length && msp < 9 * (units + 1) && -lsp < 9 * (digits.Length - 1 - units)
    modifies digits
    ensures msd <= lsd < digits.Length && Extent(digits[..], msd, lsd)
    ensures lsp + 9 * (digits.Length - 1 - units) >= 0
    ensures Val(digits[..]) == Dec(kept) * Pow(10, lsp + 9 * (digits.Length - 1 - units))
  {
    PlaceOf(msp);
    msd := units + DigitOffset(msp);
    var left := PlacesLeft(msp);
    lsd, left := ReadDigits(digits, kept, msd, left);
    FillOut(digits, msd, lsd, left, kept);
    assert Zeros(digits[..][lsd + 1..]);
    ValTail(digits[..], lsd + 1);
    assert digits[..][..lsd + 1] == digits[..lsd + 1];
    var places := digits.Length - (lsd + 1);
    BasePower(places);
    PowAdd(10, left, 9 * places);
    Reassociate(Dec(kept), Pow(10, left), Pow(10, 9 * places));
  }
}
