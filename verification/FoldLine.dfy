/**
 Choice of the place at which one logical line of a text field is folded.
 */
module FoldLine {
  import opened Units

  /** May the line be cut before its unit at index len? */
  predicate Admissible(line: Text, len: int, forPrefix: bool)
    requires 0 < len < |line|
  {
    (line[len] != SEMI || forPrefix) && !IsSurrogatePair(line[len - 1], line[len])
  }

  /** Index of the last blank among the first n units, or -1. */
  function LastBlank(line: Text, n: nat): (k: int)
    requires n <= |line|
    ensures -1 <= k < n
    ensures k >= 0 ==> IsBlank(line[k])
    ensures forall i :: k < i < n ==> !IsBlank(line[i])
  {
    if n == 0 then -1
    else if IsBlank(line[n - 1]) then n - 1
    else LastBlank(line, n - 1)
  }

  /** Index of the first blank at or after lo and before hi, or hi. */
  function FirstBlank(line: Text, lo: nat, hi: nat): (k: nat)
    requires lo <= hi <= |line|
    ensures lo <= k <= hi
    ensures k < hi ==> IsBlank(line[k])
    ensures forall i :: lo <= i < k ==> !IsBlank(line[i])
    decreases hi - lo
  {
    if lo == hi || IsBlank(line[lo]) then lo
    else FirstBlank(line, lo + 1, hi)
  }

  /** The k-th place tried around the target: 0, +1, -1, +2, -2, ... */
  function Zigzag(target: int, k: nat): (len: int)
    ensures target - (k + 1) / 2 <= len <= target + (k + 1) / 2
  {
    if k % 2 == 1 then target + (k + 1) / 2 else target - k / 2
  }

  /** Which zigzag place (counting from k) is the first admissible one?  2 * window + 1 if none is. */
  ghost function NearTarget(line: Text, target: nat, window: nat, forPrefix: bool, k: nat): (r: nat)
    requires window < target && target + window < |line|
    requires k <= 2 * window + 1
    ensures k <= r <= 2 * window + 1
    ensures r <= 2 * window ==> Admissible(line, Zigzag(target, r), forPrefix)
    ensures forall i :: k <= i < r ==> !Admissible(line, Zigzag(target, i), forPrefix)
    decreases 2 * window + 1 - k
  {
    if k == 2 * window + 1 || Admissible(line, Zigzag(target, k), forPrefix) then k
    else NearTarget(line, target, window, forPrefix, k + 1)
  }

  /** Greatest admissible cut below len, or 0. */
  ghost function Below(line: Text, len: nat, forPrefix: bool): (r: nat)
    requires 0 < len <= |line|
    ensures r < len
    ensures r > 0 ==> Admissible(line, r, forPrefix)
    ensures forall i :: r < i < len ==> !Admissible(line, i, forPrefix)
  {
    if len == 1 then 0
    else if Admissible(line, len - 1, forPrefix) then len - 1
    else Below(line, len - 1, forPrefix)
  }

  /** Least admissible cut at or above len, or |line|. */
  ghost function Above(line: Text, len: nat, forPrefix: bool): (r: nat)
    requires 0 < len <= |line|
    ensures len <= r <= |line|
    ensures r < |line| ==> Admissible(line, r, forPrefix)
    ensures forall i :: len <= i < r ==> !Admissible(line, i, forPrefix)
    decreases |line| - len
  {
    if len == |line| || Admissible(line, len, forPrefix) then len
    else Above(line, len + 1, forPrefix)
  }

  /** The cut of a long line without a blank in the upper half of the window; 0 if it cannot be cut. */
  ghost function CutAt(line: Text, target: nat, window: nat, forPrefix: bool): (r: nat)
    requires window < target && target + window < |line|
  {
    var k := NearTarget(line, target, window, forPrefix, 0);
    if k <= 2 * window then Zigzag(target, k)
    else
      var below := Below(line, target - window, forPrefix);
      var above := Above(line, target + window + 1, forPrefix);
      if below > 0 then below else if above < |line| then above else 0
  }

  /** The length of the next segment of a line that is folded; 0 if it cannot be cut at all. */
  ghost function FoldAt(line: Text, target: nat, window: nat, forPrefix: bool): (r: nat)
    requires window < target
  {
    if |line| <= target + window then |line|
    else
      var low := LastBlank(line, target + 1);
      var high := FirstBlank(line, target + 1, target + window + 1);
      if high <= target + window then
        if low < target - window || (high + low) / 2 < target then high else low
      else
        CutAt(line, target, window, forPrefix)
  }

  /** The segment length write_text uses: folding off means the whole line. */
  ghost function SegmentLength(line: Text, fold: bool, target: nat, window: nat, forPrefix: bool): (r: nat)
    requires window < target
  {
    if fold then FoldAt(line, target, window, forPrefix) else |line|
  }

  /** Every place within distance window of the target is a zigzag place. */
  lemma {:induction false} ZigzagCovers(target: nat, window: nat, len: int) returns (k: nat)
    requires target - window <= len <= target + window
    ensures k <= 2 * window && Zigzag(target, k) == len
  {
    if len > target {
      var d := len - target - 1;
      k := 2 * d + 1;
      assert (k + 1) / 2 == d + 1 && k % 2 == 1;
    } else {
      var d := target - len;
      k := 2 * d;
      assert k / 2 == d && k % 2 == 0;
    }
  }

  /** A blank cut is always admissible. */
  lemma {:induction false} BlankIsAdmissible(line: Text, len: nat, forPrefix: bool)
    requires 0 < len < |line| && IsBlank(line[len])
    ensures Admissible(line, len, forPrefix)
  {
  }

  /**
   What a fold guarantees.  The line is kept whole exactly when it fits in
   target + window units.  Otherwise the cut is admissible: no surrogate pair
   is split and, without prefixing, the next segment does not start with a
   semicolon.  Zero is returned exactly when no cut is admissible, and a cut
   beyond the window exactly when every cut up to its end is blocked.
   */
  lemma {:induction false} FoldContract(line: Text, target: nat, window: nat, forPrefix: bool)
    requires window < target
    ensures var r := FoldAt(line, target, window, forPrefix);
      && r <= |line|
      && (r == |line| <==> |line| <= target + window)
      && (0 < r < |line| ==> Admissible(line, r, forPrefix))
      && (|line| > target + window ==>
           (r == 0 <==> forall i :: 0 < i < |line| ==> !Admissible(line, i, forPrefix)))
      && (|line| > target + window ==>
           (0 < r <= target + window <==>
             exists i :: 0 < i <= target + window && Admissible(line, i, forPrefix)))
  {
    if |line| > target + window {
      var low := LastBlank(line, target + 1);
      var high := FirstBlank(line, target + 1, target + window + 1);
      if high <= target + window {
        BlankIsAdmissible(line, high, forPrefix);
        if low > 0 { BlankIsAdmissible(line, low, forPrefix); }
      } else {
        var k := NearTarget(line, target, window, forPrefix, 0);
        if k > 2 * window {
          forall i | target - window <= i <= target + window
            ensures !Admissible(line, i, forPrefix)
          {
            var j := ZigzagCovers(target, window, i);
          }
        }
      }
    }
  }

  /** The distance of a cut from the target. */
  function Distance(target: int, len: int): nat {
    if len < target then target - len else len - target
  }

  /**
   If the upper half of the window has a blank, the line is cut at the blank of
   the window that is nearest to the target, the lower one of two.
   */
  lemma {:induction false} NearestBlank(line: Text, target: nat, window: nat, forPrefix: bool)
    requires window < target && target + window < |line|
    requires exists i :: target < i <= target + window && IsBlank(line[i])
    ensures var r := FoldAt(line, target, window, forPrefix);
      && r < |line| && IsBlank(line[r]) && Distance(target, r) <= window
      && (forall i :: target - window <= i <= target + window && IsBlank(line[i]) ==>
           Distance(target, r) < Distance(target, i) || (Distance(target, r) == Distance(target, i) && r <= i))
  {
  }

  /** Of two places tried around the target, the first is the nearer, or as near and above. */
  lemma {:induction false} ZigzagOrder(target: nat, j: nat, k: nat)
    requires j <= k
    ensures Distance(target, Zigzag(target, j)) < Distance(target, Zigzag(target, k))
         || (Distance(target, Zigzag(target, j)) == Distance(target, Zigzag(target, k)) && Zigzag(target, j) >= Zigzag(target, k))
  {
  }

  /**
   If it has none, the line is cut at the admissible place of the window that is
   nearest to the target, the upper one of two; else at the last admissible place
   below the window; else at the first above it.
   */
  lemma {:induction false} NearestCut(line: Text, target: nat, window: nat, forPrefix: bool)
    requires window < target && target + window < |line|
    requires forall i :: target < i <= target + window ==> !IsBlank(line[i])
    ensures var r := FoldAt(line, target, window, forPrefix);
      forall i :: 0 < i < |line| && Admissible(line, i, forPrefix) ==>
        && 0 < r < |line|
        && (Distance(target, i) <= window ==>
             Distance(target, r) < Distance(target, i) || (Distance(target, r) == Distance(target, i) && r >= i))
        && (i < target - window ==> r >= i && r <= target + window)
        && (i > target + window ==> r <= i)
  {
    var k := NearTarget(line, target, window, forPrefix, 0);
    forall i | 0 < i < |line| && Distance(target, i) <= window && Admissible(line, i, forPrefix)
      ensures k <= 2 * window
      ensures Distance(target, Zigzag(target, k)) < Distance(target, i)
           || (Distance(target, Zigzag(target, k)) == Distance(target, i) && Zigzag(target, k) >= i)
    {
      var j := ZigzagCovers(target, window, i);
      ZigzagOrder(target, k, j);
    }
  }

  /** The NUL-terminated string that starts at index tok of the array. */
  ghost predicate CString(text: array<Unit>, tok: nat, line: Text)
    reads text
  {
    && tok + |line| < text.Length
    && text[tok + |line|] == NUL
    && forall i :: 0 <= i < |line| ==> text[tok + i] == line[i] && line[i] != NUL
  }

  /** Only the end of the string is marked by NUL. */
  lemma {:induction false} Terminator(text: array<Unit>, tok: nat, line: Text, len: nat)
    requires CString(text, tok, line) && len <= |line|
    ensures text[tok + len] == NUL <==> len == |line|
    ensures len < |line| ==> text[tok + len] == line[len]
  {
  }

  /** The first loop of fold_line: up to the target, remembering the last blank. */
  method ScanToTarget(text: array<Unit>, tok: nat, target: nat, ghost line: Text) returns (len: nat, low: int)
    requires CString(text, tok, line)
    ensures len == if |line| <= target then |line| else target + 1
    ensures low == LastBlank(line, len)
  {
    len, low := 0, -1;
    while len <= target && text[tok + len] != NUL
      invariant len <= |line| && len <= target + 1
      invariant low == LastBlank(line, len)
    {
      if IsBlank(text[tok + len]) {
        low := len;
      }
      len := len + 1;
    }
    Terminator(text, tok, line, len);
  }

  /** The second loop of fold_line, without its nested choice: to the first blank of the window. */
  method ScanWindow(text: array<Unit>, tok: nat, start: nat, limit: nat, ghost line: Text) returns (len: nat)
    requires CString(text, tok, line) && start <= |line| && start <= limit
    ensures start <= len <= |line| && len <= limit
    ensures forall i :: start <= i < len ==> !IsBlank(line[i])
    ensures len < limit ==> len == |line| || IsBlank(line[len])
  {
    len := start;
    while len < limit && text[tok + len] != NUL && !IsBlank(text[tok + len])
      invariant start <= len <= |line| && len <= limit
      invariant forall i :: start <= i < len ==> !IsBlank(line[i])
    {
      len := len + 1;
    }
  }

  /** Where the string ends, looking no further than limit. */
  method ScanToEnd(text: array<Unit>, tok: nat, start: nat, limit: nat, ghost line: Text) returns (len: nat)
    requires CString(text, tok, line) && start <= |line| && start <= limit
    ensures len == if |line| < limit then |line| else limit
  {
    len := start;
    while len < limit && text[tok + len] != NUL
      invariant start <= len <= |line| && len <= limit
    {
      len := len + 1;
    }
    Terminator(text, tok, line, len);
  }

  /** u_strlen */
  method Length(text: array<Unit>, tok: nat, ghost line: Text) returns (len: nat)
    requires CString(text, tok, line)
    ensures len == |line|
  {
    len := 0;
    while text[tok + len] != NUL
      invariant len <= |line|
      decreases |line| - len
    {
      len := len + 1;
    }
    Terminator(text, tok, line, len);
  }

  /** The third loop of fold_line: a cut near the target. */
  method CutNear(text: array<Unit>, tok: nat, target: nat, window: nat, forPrefix: bool, ghost line: Text)
    returns (found: bool, len: int)
    requires CString(text, tok, line) && window < target && target + window < |line|
    ensures var k := NearTarget(line, target, window, forPrefix, 0);
      && (found <==> k <= 2 * window)
      && len == if found then Zigzag(target, k) else target - window
  {
    len, found := target, false;
    var counter := 0;
    ghost var goal := NearTarget(line, target, window, forPrefix, 0);
    while counter <= 2 * window
      invariant counter <= 2 * window + 1
      invariant len == if counter == 0 then target else Zigzag(target, counter - 1)
      invariant goal == NearTarget(line, target, window, forPrefix, counter)
    {
      found, len := TryCut(text, tok, target, window, forPrefix, counter, len, line);
      if found {
        return;
      }
      counter := counter + 1;
    }
    LastZigzag(target, window);
  }

  /** One turn of the third loop of fold_line. */
  method TryCut(text: array<Unit>, tok: nat, target: nat, window: nat, forPrefix: bool, counter: nat, len0: int, ghost line: Text)
    returns (found: bool, len: int)
    requires CString(text, tok, line) && window < target && target + window < |line| && counter <= 2 * window
    requires len0 == if counter == 0 then target else Zigzag(target, counter - 1)
    ensures len == Zigzag(target, counter)
    ensures NearTarget(line, target, window, forPrefix, counter)
      == if found then counter else NearTarget(line, target, window, forPrefix, counter + 1)
  {
    ZigzagStep(target, counter);
    NearStep(line, target, window, forPrefix, counter);
    len := if counter % 2 == 1 then len0 + counter else len0 - counter;
    found := Cuttable(text, tok, len, forPrefix, line);
  }

  lemma {:induction false} LastZigzag(target: int, window: nat)
    ensures Zigzag(target, 2 * window) == target - window
  {
  }

  /** The test of a cut. */
  method Cuttable(text: array<Unit>, tok: nat, len: int, forPrefix: bool, ghost line: Text) returns (ok: bool)
    requires CString(text, tok, line) && 0 < len < |line|
    ensures ok <==> Admissible(line, len, forPrefix)
  {
    AdmissibleAt(text, tok, line, len, forPrefix);
    ok := (text[tok + len] != SEMI || forPrefix) && !IsSurrogatePair(text[tok + len - 1], text[tok + len]);
  }

  lemma {:induction false} ZigzagStep(target: int, k: nat)
    ensures Zigzag(target, k) == (if k == 0 then target else Zigzag(target, k - 1)) + (if k % 2 == 1 then k as int else -(k as int))
  {
  }

  lemma {:induction false} NearStep(line: Text, target: nat, window: nat, forPrefix: bool, k: nat)
    requires window < target && target + window < |line| && k <= 2 * window
    ensures 0 < Zigzag(target, k) < |line|
    ensures NearTarget(line, target, window, forPrefix, k)
      == if Admissible(line, Zigzag(target, k), forPrefix) then k else NearTarget(line, target, window, forPrefix, k + 1)
  {
  }

  /** The test of a cut on the units of the array. */
  lemma {:induction false} AdmissibleAt(text: array<Unit>, tok: nat, line: Text, len: int, forPrefix: bool)
    requires CString(text, tok, line) && 0 < len < |line|
    ensures Admissible(line, len, forPrefix)
       <==> (text[tok + len] != SEMI || forPrefix) && !IsSurrogatePair(text[tok + len - 1], text[tok + len])
  {
    assert text[tok + (len - 1)] == line[len - 1];
  }

  /** The fourth loop of fold_line: the nearest cut below the window. */
  method CutBelow(text: array<Unit>, tok: nat, start: nat, forPrefix: bool, ghost line: Text) returns (len: nat)
    requires CString(text, tok, line) && 0 < start <= |line|
    ensures len == Below(line, start, forPrefix)
  {
    len := start - 1;
    while len > 0
      invariant len < start && Below(line, start, forPrefix) == Below(line, len + 1, forPrefix)
    {
      if (text[tok + len] != SEMI || forPrefix) && !IsSurrogatePair(text[tok + len - 1], text[tok + len]) {
        return;
      }
      len := len - 1;
    }
  }

  /** The fifth loop of fold_line: the nearest cut above the window, or the end of the string. */
  method CutAbove(text: array<Unit>, tok: nat, start: nat, forPrefix: bool, ghost line: Text) returns (len: nat)
    requires CString(text, tok, line) && 0 < start <= |line|
    ensures len == Above(line, start, forPrefix)
  {
    len := start;
    while text[tok + len] != NUL
      invariant start <= len <= |line|
      invariant Above(line, start, forPrefix) == Above(line, len, forPrefix)
      decreases |line| - len
    {
      if (text[tok + len] != SEMI || forPrefix) && !IsSurrogatePair(text[tok + len - 1], text[tok + len]) {
        return;
      }
      len := len + 1;
    }
  }

  /** The part of fold_line that does not look for blanks. */
  method CutAnywhere(text: array<Unit>, tok: nat, target: nat, window: nat, forPrefix: bool, ghost line: Text)
    returns (r: nat)
    requires CString(text, tok, line) && window < target && target + window < |line|
    ensures r == CutAt(line, target, window, forPrefix)
  {
    var found, cut := CutNear(text, tok, target, window, forPrefix, line);
    if found {
      return cut;
    }
    r := CutBelow(text, tok, cut, forPrefix, line);
    if r == 0 {
      r := CutAbove(text, tok, target + window + 1, forPrefix, line);
      if text[tok + r] == NUL {
        r := 0;
      }
    }
  }

  /** fold_line: the length of the next segment of the string at index tok. */
  method Fold(text: array<Unit>, tok: nat, doFold: bool, target: nat, window: nat, forPrefix: bool, ghost line: Text)
    returns (r: nat)
    requires window < target
    requires CString(text, tok, line)
    ensures r == SegmentLength(line, doFold, target, window, forPrefix)
  {
    if !doFold {
      r := Length(text, tok, line);
      return;
    }
    var len, low := ScanToTarget(text, tok, target, line);
    if len <= target {
      return len;
    }
    len := ScanWindow(text, tok, len, target + window + 1, line);
    Terminator(text, tok, line, len);
    if len <= target + window && text[tok + len] == NUL {
      return len;
    } else if len <= target + window {
      var end := ScanToEnd(text, tok, len, target + window + 1, line);
      if end <= target + window {
        return end;
      }
      assert FirstBlank(line, target + 1, target + window + 1) == len;
      return if low < target - window || (len + low) / 2 < target then len else low;
    }
    r := CutAnywhere(text, tok, target, window, forPrefix, line);
  }
}
