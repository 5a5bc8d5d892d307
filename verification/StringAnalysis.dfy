/**
 Analysis of a string to be written: its line statistics, and the delimiters
 it can be written with.
 */
module StringAnalysis {
  import opened Units

  // Runs: of units other than NL (lines), or of semicolons

  predicate InRun(c: Unit, semis: bool) {
    if semis then c == SEMI else c != NL
  }

  /** Length of the run that ends the string. */
  function LastRun(s: Text, semis: bool): (n: nat)
    ensures n <= |s|
  {
    if s == [] || !InRun(s[|s| - 1], semis) then 0 else LastRun(s[..|s| - 1], semis) + 1
  }

  /** Length of the longest run. */
  function LongestRun(s: Text, semis: bool): nat {
    if s == [] then 0 else Max(LongestRun(s[..|s| - 1], semis), LastRun(s, semis))
  }

  function Max(a: nat, b: nat): nat {
    if a < b then b else a
  }

  /** All units from i up to j are of the kind that forms runs. */
  ghost predicate IsRun(s: Text, semis: bool, i: nat, j: nat)
    requires i <= j <= |s|
  {
    forall k :: i <= k < j ==> InRun(s[k], semis)
  }

  /** The last run is the longest one that ends the string. */
  lemma {:induction false} LastRunMeaning(s: Text, semis: bool, i: nat)
    requires i <= |s|
    ensures IsRun(s, semis, i, |s|) <==> |s| - i <= LastRun(s, semis)
  {
    if i < |s| {
      var init := s[..|s| - 1];
      if InRun(s[|s| - 1], semis) {
        LastRunMeaning(init, semis, i);
        assert IsRun(init, semis, i, |init|) ==> IsRun(s, semis, i, |s|);
        assert IsRun(s, semis, i, |s|) ==> IsRun(init, semis, i, |init|);
      } else {
        assert !InRun(s[|s| - 1], semis);
      }
    }
  }

  /** No run is longer than the longest, and some run is as long. */
  lemma {:induction false} LongestRunMeaning(s: Text, semis: bool)
    ensures forall i: nat, j: nat :: i <= j <= |s| && IsRun(s, semis, i, j) ==> j - i <= LongestRun(s, semis)
    ensures exists i: nat, j: nat :: i <= j <= |s| && IsRun(s, semis, i, j) && j - i == LongestRun(s, semis)
  {
    if s == [] {
      assert IsRun(s, semis, 0, 0);
    } else {
      var init := s[..|s| - 1];
      LongestRunMeaning(init, semis);
      forall i: nat, j: nat | i <= j <= |s| && IsRun(s, semis, i, j)
        ensures j - i <= LongestRun(s, semis)
      {
        if j == |s| {
          LastRunMeaning(s, semis, i);
        } else {
          assert IsRun(init, semis, i, j);
        }
      }
      LastRunMeaning(s, semis, |s| - LastRun(s, semis));
      if LongestRun(init, semis) >= LastRun(s, semis) {
        var i: nat, j: nat :| i <= j <= |init| && IsRun(init, semis, i, j) && j - i == LongestRun(init, semis);
        assert IsRun(s, semis, i, j);
      }
    }
  }

  /** A semicolon run extends, a line grows: how the statistics change with one more unit. */
  lemma {:induction false} RunAppend(s: Text, c: Unit, semis: bool)
    ensures LastRun(s + [c], semis) == if InRun(c, semis) then LastRun(s, semis) + 1 else 0
    ensures LongestRun(s + [c], semis) == Max(LongestRun(s, semis), LastRun(s + [c], semis))
  {
    assert (s + [c])[..|s|] == s;
  }

  function Count(s: Text, c: Unit): nat {
    if s == [] then 0 else Count(s[..|s| - 1], c) + if s[|s| - 1] == c then 1 else 0
  }

  lemma {:induction false} CountAppend(s: Text, x: Unit, c: Unit)
    ensures Count(s + [x], c) == Count(s, c) + if x == c then 1 else 0
  {
    assert (s + [x])[..|s|] == s;
  }

  lemma {:induction false} CountZero(s: Text, c: Unit)
    ensures Count(s, c) == 0 <==> c !in s
  {
    if s != [] {
      CountZero(s[..|s| - 1], c);
      assert s == s[..|s| - 1] + [s[|s| - 1]];
    }
  }

  predicate IsTrailingSpace(c: Unit) {
    c == SP || c == TAB || c == VT
  }

  predicate IsLastOfLine(s: Text, i: nat)
    requires i < |s|
  {
    i + 1 == |s| || s[i + 1] == NL
  }

  /** Does a line that ends at or before index n end in white space? */
  predicate HasTrailingSpace(s: Text, n: nat)
    requires n <= |s|
  {
    exists i :: 0 <= i < n && IsLastOfLine(s, i) && IsTrailingSpace(s[i])
  }

  /** Three equal units in a row. */
  predicate HasTriple(s: Text, q: Unit) {
    exists i :: 0 <= i < |s| - 2 && s[i] == q && s[i + 1] == q && s[i + 2] == q
  }

  // Reserved strings

  /** A keyword's letters, each matched in either case; w is in lower case. */
  predicate Matches(s: Text, w: Text) {
    |w| <= |s| && forall i :: 0 <= i < |w| ==> s[i] == w[i] || (0x61 <= w[i] <= 0x7A && s[i] == w[i] - 0x20)
  }

  const DATA_: Text := [0x64, 0x61, 0x74, 0x61, 0x5F]
  const SAVE_: Text := [0x73, 0x61, 0x76, 0x65, 0x5F]
  const LOOP_: Text := [0x6C, 0x6F, 0x6F, 0x70, 0x5F]
  const STOP_: Text := [0x73, 0x74, 0x6F, 0x70, 0x5F]
  const GLOBAL_: Text := [0x67, 0x6C, 0x6F, 0x62, 0x61, 0x6C, 0x5F]

  /** cif_is_reserved_string */
  predicate Reserved(s: Text) {
    s != [] &&
    ( s[0] in {UNDER, HASH, DOLLAR, SQ, DQ}
      || Matches(s, DATA_) || Matches(s, SAVE_)
      || (|s| == 5 && (Matches(s, LOOP_) || Matches(s, STOP_)))
      || (|s| == 7 && Matches(s, GLOBAL_)))
  }

  // The choice of delimiters

  datatype Delimiter = Bare | Quoted(quote: Unit) | Tripled(quote: Unit) | Field

  datatype Analysis = Analysis(
    delim: Delimiter, numLines: nat, length: nat, lengthFirst: nat, lengthLast: nat, lengthMax: nat,
    containsTextDelim: bool, maxSemiRun: nat, hasTrailingSpace: bool, hasReservedStart: bool)

  predicate CanBeBare(s: Text) {
    && s != [] && NL !in s && CR !in s && SP !in s && TAB !in s
    && OBRAK !in s && CBRAK !in s && OCURL !in s && CCURL !in s
    && s[0] !in {SQ, DQ, HASH, DOLLAR, UNDER, SEMI}
    && s != [QUERY] && s != [DOT] && !Reserved(s)
  }

  predicate CanBeQuoted(s: Text, q: Unit, limit: int) {
    NL !in s && |s| <= limit - 2 && q !in s
  }

  predicate CanBeTripled(s: Text, q: Unit, limit: int) {
    && (if NL !in s then |s| <= limit - 6
        else LongestRun(s, false) <= limit && LastRun(s, false) < limit - 3 && LineEnd(s) < limit - 3)
    && s != [] && s[|s| - 1] != q && !HasTriple(s, q)
  }

  /** The first acceptable delimiter in the order of preference. */
  function Preferred(s: Text, bare: bool, triple: bool, limit: int): Delimiter {
    if bare && |s| <= limit && CanBeBare(s) then Bare
    else if CanBeQuoted(s, SQ, limit) then Quoted(SQ)
    else if CanBeQuoted(s, DQ, limit) then Quoted(DQ)
    else if triple && CanBeTripled(s, SQ, limit) then Tripled(SQ)
    else if triple && CanBeTripled(s, DQ, limit) then Tripled(DQ)
    else Field
  }

  /** May the string be written in this form?  A text field takes any. */
  predicate Usable(d: Delimiter, s: Text, bare: bool, triple: bool, limit: int) {
    match d
    case Bare => bare && |s| <= limit && CanBeBare(s)
    case Quoted(q) => q in {SQ, DQ} && CanBeQuoted(s, q, limit)
    case Tripled(q) => q in {SQ, DQ} && triple && CanBeTripled(s, q, limit)
    case Field => true
  }

  /** Unquoted before quoted, with fewer quotes before with more, single before double, a text field last. */
  function Rank(d: Delimiter): nat {
    match d
    case Bare => 0
    case Quoted(q) => if q == SQ then 1 else 2
    case Tripled(q) => if q == SQ then 3 else 4
    case Field => 5
  }

  /** The delimiter preferred is usable, and comes before any other that is. */
  lemma {:induction false} PreferredFirst(s: Text, bare: bool, triple: bool, limit: int)
    ensures Usable(Preferred(s, bare, triple, limit), s, bare, triple, limit)
    ensures forall d :: Usable(d, s, bare, triple, limit) && d != Preferred(s, bare, triple, limit) ==>
      Rank(Preferred(s, bare, triple, limit)) < Rank(d)
  {
  }

  // cif_analyze_string

  /** The running counters of cif_analyze_string, other than the unit counts. */
  datatype Tally = Tally(firstLine: nat, thisLine: nat, maxLine: nat, consecSemis: nat, mostSemis: nat,
                         crlfCount: nat, hasNlSemi: bool, hasTrailingSpace: bool)

  predicate NlSemiBefore(s: Text, n: nat)
    requires n <= |s|
  {
    exists i :: 0 <= i < n && i < |s| - 1 && s[i] == NL && s[i + 1] == SEMI
  }

  predicate TrailingSpaceBefore(s: Text, n: nat)
    requires n <= |s|
  {
    exists i :: 0 <= i < n - 1 && s[i + 1] == NL && IsTrailingSpace(s[i])
  }

  /** The counters describe the first n units of a string without carriage returns. */
  ghost predicate Describes(t: Tally, s: Text, n: nat)
    requires n <= |s|
  {
    var p := s[..n];
    && t.thisLine == LastRun(p, false) && Max(t.maxLine, t.thisLine) == LongestRun(p, false)
    && (NL in p ==> t.firstLine == LineEnd(p)) && (NL !in p ==> t.maxLine == 0)
    && t.consecSemis == LastRun(p, true) && Max(t.mostSemis, t.consecSemis) == LongestRun(p, true)
    && t.crlfCount == 0
    && t.hasNlSemi == NlSemiBefore(s, n) && t.hasTrailingSpace == TrailingSpaceBefore(s, n)
  }

  ghost predicate Counts(counts: array<nat>, s: Text, n: nat)
    requires n <= |s| && counts.Length == 128
    reads counts
  {
    forall u: Unit :: u < 127 ==> counts[u] == Count(s[..n], u)
  }

  lemma {:induction false} LineEndAppend(p: Text, c: Unit)
    ensures NL in p ==> LineEnd(p + [c]) == LineEnd(p)
    ensures NL !in p && c == NL ==> LineEnd(p + [c]) == |p| == LastRun(p, false)
  {
    if NL in p {
      LineEndIs(p + [c], LineEnd(p));
    } else if c == NL {
      LineEndIs(p + [c], |p|);
      assert IsRun(p, false, 0, |p|);
      LastRunMeaning(p, false, 0);
    }
  }

  method CountUnit(counts: array<nat>, s: Text, n: nat)
    requires n < |s| && counts.Length == 128 && Counts(counts, s, n)
    modifies counts
    ensures Counts(counts, s, n + 1)
  {
    var ch := s[n];
    assert s[..n + 1] == s[..n] + [ch];
    forall u: Unit { CountAppend(s[..n], ch, u); }
    var k := if ch < 127 then ch else 127;
    counts[k] := counts[k] + 1;
  }

  /** The effect of a line terminator on the counters. */
  method TallyEol(s: Text, n: nat, t: Tally, eols: nat) returns (t': Tally)
    requires n < |s| && IsEol(s[n])
    requires NoCr(s) ==> Describes(t, s, n) && eols == Count(s[..n + 1], NL)
    ensures NoCr(s) ==> Describes(t', s, n + 1)
  {
    t' := t.(hasNlSemi := t.hasNlSemi || UnitAt(s, n + 1) == SEMI,
             hasTrailingSpace := t.hasTrailingSpace || (n > 0 && IsTrailingSpace(s[n - 1])));
    if eols == 1 {
      t' := t'.(firstLine := t.thisLine, maxLine := t.thisLine);
    } else if t.thisLine > t.maxLine {
      t' := t'.(maxLine := t.thisLine);
    }
    t' := t'.(mostSemis := Max(t.mostSemis, t.consecSemis), consecSemis := 0, thisLine := 0);
    if NoCr(s) {
      EolDescribed(s, n, t, t', eols);
    }
  }

  lemma {:induction false} EolDescribed(s: Text, n: nat, t: Tally, t': Tally, eols: nat)
    requires n < |s| && s[n] == NL && Describes(t, s, n) && eols == Count(s[..n + 1], NL)
    requires t'.hasNlSemi == (t.hasNlSemi || UnitAt(s, n + 1) == SEMI)
    requires t'.hasTrailingSpace == (t.hasTrailingSpace || (n > 0 && IsTrailingSpace(s[n - 1])))
    requires t'.firstLine == if eols == 1 then t.thisLine else t.firstLine
    requires t'.maxLine == if eols == 1 then t.thisLine else Max(t.maxLine, t.thisLine)
    requires t'.mostSemis == Max(t.mostSemis, t.consecSemis) && t'.consecSemis == 0 == t'.thisLine
    requires t'.crlfCount == t.crlfCount
    ensures Describes(t', s, n + 1)
  {
    var p := s[..n];
    assert s[..n + 1] == p + [NL];
    RunAppend(p, NL, false);
    RunAppend(p, NL, true);
    LineEndAppend(p, NL);
    CountAppend(p, NL, NL);
    CountZero(p, NL);
    NlSemiStep(s, n);
    TrailingSpaceStep(s, n);
  }

  lemma {:induction false} NlSemiStep(s: Text, n: nat)
    requires n < |s|
    ensures NlSemiBefore(s, n + 1) <==> NlSemiBefore(s, n) || (s[n] == NL && UnitAt(s, n + 1) == SEMI)
  {
    if NlSemiBefore(s, n) {
      var i :| 0 <= i < n && i < |s| - 1 && s[i] == NL && s[i + 1] == SEMI;
      assert i < n + 1;
    }
    if s[n] == NL && UnitAt(s, n + 1) == SEMI {
      assert n < |s| - 1 && s[n + 1] == SEMI;
    }
  }

  lemma {:induction false} TrailingSpaceStep(s: Text, n: nat)
    requires n < |s|
    ensures TrailingSpaceBefore(s, n + 1)
       <==> TrailingSpaceBefore(s, n) || (n > 0 && s[n] == NL && IsTrailingSpace(s[n - 1]))
  {
    if n > 0 && s[n] == NL && IsTrailingSpace(s[n - 1]) {
      assert s[n - 1 + 1] == NL;
    }
    if TrailingSpaceBefore(s, n) {
      var i :| 0 <= i < n - 1 && s[i + 1] == NL && IsTrailingSpace(s[i]);
      assert i < n;
    }
  }

  /** The effect of a unit that does not end a line on the counters. */
  method TallyUnit(s: Text, n: nat, t: Tally) returns (t': Tally)
    requires n < |s| && !IsEol(s[n])
    requires NoCr(s) ==> Describes(t, s, n)
    ensures NoCr(s) ==> Describes(t', s, n + 1)
  {
    if s[n] == SEMI {
      t' := t.(consecSemis := t.consecSemis + 1, thisLine := t.thisLine + 1);
    } else {
      t' := t.(mostSemis := Max(t.mostSemis, t.consecSemis), consecSemis := 0, thisLine := t.thisLine + 1);
    }
    assert s[..n + 1] == s[..n] + [s[n]];
    RunAppend(s[..n], s[n], false);
    RunAppend(s[..n], s[n], true);
    LineEndAppend(s[..n], s[n]);
    NlSemiStep(s, n);
    TrailingSpaceStep(s, n);
  }

  /** The counting loop of cif_analyze_string. */
  method Survey(s: Text) returns (counts: array<nat>, t: Tally)
    ensures counts.Length == 128 && Counts(counts, s, |s|)
    ensures NoCr(s) ==> Describes(t, s, |s|)
  {
    counts := new nat[128](_ => 0);
    t := Tally(0, 0, 0, 0, 0, 0, false, false);
    var length := 0;
    while length < |s|
      invariant length <= |s| && counts.Length == 128 && fresh(counts)
      invariant Counts(counts, s, length)
      invariant NoCr(s) ==> Describes(t, s, length)
    {
      CountUnit(counts, s, length);
      assert NoCr(s) ==> CR !in s[..length + 1];
      CountZero(s[..length + 1], CR);
      if s[length] == CR && UnitAt(s, length + 1) == NL {
        t := t.(crlfCount := t.crlfCount + 1,
                hasTrailingSpace := t.hasTrailingSpace || (length > 0 && IsTrailingSpace(s[length - 1])));
      } else if IsEol(s[length]) {
        t := TallyEol(s, length, t, counts[NL] + counts[CR]);
      } else {
        t := TallyUnit(s, length, t);
      }
      length := length + 1;
    }
    assert s[..|s|] == s;
  }

  /** Does the first line look like the mark of a protocol? */
  method EmulatesMark(s: Text, firstLine: nat) returns (reserved: bool)
    requires firstLine <= |s|
    ensures reserved <==> FoldMark(s[..firstLine]) >= 0
  {
    var index: nat := firstLine;
    while index > 0
      invariant index <= firstLine
      invariant FoldMark(s[..firstLine]) >= 0 <==> FoldMark(s[..index]) >= 0
    {
      assert s[..index][..index - 1] == s[..index - 1];
      if !IsBlank(s[index - 1]) {
        return s[index - 1] == BSL;
      }
      index := index - 1;
    }
    reserved := false;
  }

  /** u_strstr for three equal units */
  method FindTriple(s: Text, q: Unit) returns (found: bool)
    ensures found <==> HasTriple(s, q)
  {
    var i := 0;
    while i + 2 < |s|
      invariant forall k :: 0 <= k < i && k < |s| - 2 ==> !(s[k] == q && s[k + 1] == q && s[k + 2] == q)
    {
      if s[i] == q && s[i + 1] == q && s[i + 2] == q {
        return true;
      }
      i := i + 1;
    }
    found := false;
  }

  /** The tests for each kind of delimiter, as made from the counters. */
  method Tripleable(s: Text, q: Unit) returns (ok: bool)
    requires s != []
    ensures ok <==> s[|s| - 1] != q && !HasTriple(s, q)
  {
    if s[|s| - 1] == q {
      return false;
    }
    var found := FindTriple(s, q);
    ok := !found;
  }

  method ChooseTriple(s: Text) returns (delim: Delimiter)
    requires s != []
    ensures delim == if s[|s| - 1] != SQ && !HasTriple(s, SQ) then Tripled(SQ)
                     else if s[|s| - 1] != DQ && !HasTriple(s, DQ) then Tripled(DQ) else Field
  {
    var single := Tripleable(s, SQ);
    if single {
      return Tripled(SQ);
    }
    var double := Tripleable(s, DQ);
    delim := if double then Tripled(DQ) else Field;
  }

  /** The choice for a string without newlines that fits in a line. */
  method ChooseForLine(s: Text, bare: bool, triple: bool, limit: int, counts: array<nat>) returns (delim: Delimiter)
    requires counts.Length == 128 && Counts(counts, s, |s|)
    requires NL !in s && CR !in s && |s| <= limit
    ensures delim == Preferred(s, bare, triple, limit)
  {
    assert s[..|s|] == s;
    forall c: Unit { CountZero(s, c); }
    if bare && |s| > 0
      && counts[SP] + counts[TAB] + counts[OBRAK] + counts[CBRAK] + counts[OCURL] + counts[CCURL] == 0
      && s[0] !in {SQ, DQ, HASH, DOLLAR, UNDER, SEMI}
      && (|s| > 1 || (s[0] != QUERY && s[0] != DOT)) && !Reserved(s)
    {
      return Bare;
    }
    assert !(bare && |s| <= limit && CanBeBare(s));
    if |s| <= limit - 2 {
      if counts[SQ] == 0 {
        return Quoted(SQ);
      } else if counts[DQ] == 0 {
        return Quoted(DQ);
      }
    }
    if triple && |s| <= limit - 6 {
      delim := ChooseTriple(s);
    } else {
      delim := Field;
    }
  }

  /** The choice for any string, once the counters are known. */
  method Choose(s: Text, bare: bool, triple: bool, limit: int, counts: array<nat>, t: Tally, numLines: nat)
    returns (delim: Delimiter)
    requires NoCr(s) && counts.Length == 128 && Counts(counts, s, |s|)
    requires NL in s ==> numLines > 1 && t.firstLine == LineEnd(s)
    requires NL !in s ==> numLines == 1 && t.maxLine == |s|
    requires t.thisLine == LastRun(s, false) && t.maxLine == LongestRun(s, false)
    ensures delim == Preferred(s, bare, triple, limit)
  {
    delim := Field;
    if t.maxLine <= limit {
      if numLines == 1 {
        delim := ChooseForLine(s, bare, triple, limit, counts);
      } else if triple && t.thisLine < limit - 3 && t.firstLine < limit - 3 {
        delim := ChooseTriple(s);
      }
    }
  }

  lemma {:induction false} TrailingSpaceAtEnd(s: Text)
    ensures HasTrailingSpace(s, |s|)
       <==> TrailingSpaceBefore(s, |s|) || (s != [] && IsTrailingSpace(s[|s| - 1]))
  {
    if TrailingSpaceBefore(s, |s|) {
      var i :| 0 <= i < |s| - 1 && s[i + 1] == NL && IsTrailingSpace(s[i]);
      assert IsLastOfLine(s, i);
    }
    if s != [] && IsTrailingSpace(s[|s| - 1]) {
      assert IsLastOfLine(s, |s| - 1);
      assert HasTrailingSpace(s, |s|);
    }
    if HasTrailingSpace(s, |s|) {
      var i :| 0 <= i < |s| && IsLastOfLine(s, i) && IsTrailingSpace(s[i]);
      if i + 1 < |s| {
        assert s[i + 1] == NL && IsTrailingSpace(s[i]);
        assert TrailingSpaceBefore(s, |s|);
      }
    }
  }

  /** The last line's part in the counters. */
  lemma {:induction false} FinalLine(s: Text, t: Tally)
    requires Describes(t, s, |s|)
    ensures Max(t.mostSemis, t.consecSemis) == LongestRun(s, true)
    ensures t.thisLine == LastRun(s, false)
    ensures (if NL in s then Max(t.maxLine, t.thisLine) else t.thisLine) == LongestRun(s, false)
    ensures NL in s ==> t.firstLine == LineEnd(s)
    ensures NL !in s ==> t.thisLine == |s| == LineEnd(s)
    ensures t.hasNlSemi == HasNlSemi(s)
    ensures (t.hasTrailingSpace || (s != [] && IsTrailingSpace(s[|s| - 1]))) == HasTrailingSpace(s, |s|)
  {
    assert s[..|s|] == s;
    if NL !in s {
      assert IsRun(s, false, 0, |s|);
      LastRunMeaning(s, false, 0);
    }
    TrailingSpaceAtEnd(s);
    if HasNlSemi(s) {
      var i :| 0 <= i < |s| - 1 && s[i] == NL && s[i + 1] == SEMI;
      assert i < |s|;
    }
  }

  /**
   cif_analyze_string: the statistics are the true ones and the delimiter is
   the first acceptable one, for every string without carriage returns.
   */
  method AnalyzeString(s: Text, bare: bool, triple: bool, limit: int) returns (a: Analysis)
    requires NoNul(s) && NoCr(s)
    ensures a.delim == Preferred(s, bare, triple, limit) && Usable(a.delim, s, bare, triple, limit)
    ensures forall d :: Usable(d, s, bare, triple, limit) && d != a.delim ==> Rank(a.delim) < Rank(d)
    ensures a.numLines == 1 + Count(s, NL) && a.length == |s|
    ensures a.lengthFirst == LineEnd(s) && a.lengthLast == LastRun(s, false)
    ensures a.lengthMax == LongestRun(s, false) && a.maxSemiRun == LongestRun(s, true)
    ensures a.containsTextDelim == HasNlSemi(s) && a.hasTrailingSpace == HasTrailingSpace(s, |s|)
    ensures a.hasReservedStart ==
      (a.delim == Field && (s == [] || s[0] != SEMI) && FoldMark(s[..LineEnd(s)]) >= 0)
  {
    PreferredFirst(s, bare, triple, limit);
    var counts, t := Survey(s);
    FinalLine(s, t);
    assert s[..|s|] == s && CR !in s;
    CountZero(s, CR);
    CountZero(s, NL);
    t := t.(mostSemis := Max(t.mostSemis, t.consecSemis),
            hasTrailingSpace := t.hasTrailingSpace || (|s| > 0 && IsTrailingSpace(s[|s| - 1])));
    var numLines := 1 + counts[NL] + counts[CR] - t.crlfCount;
    if numLines == 1 {
      t := t.(firstLine := t.thisLine, maxLine := t.thisLine);
    } else if t.thisLine > t.maxLine {
      t := t.(maxLine := t.thisLine);
    }
    var delim := Choose(s, bare, triple, limit, counts, t, numLines);
    var reserved := false;
    if delim == Field && UnitAt(s, 0) != SEMI {
      reserved := EmulatesMark(s, t.firstLine);
    }
    a := Analysis(delim, numLines, |s|, t.firstLine, t.thisLine, t.maxLine,
                  t.hasNlSemi, t.mostSemis, t.hasTrailingSpace, reserved);
  }
}
