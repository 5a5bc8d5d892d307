/**
 UTF-16 code units, the unit classes of the CIF 2 scanner, and the line
 structure of text.  A C string is a sequence of non-zero units.
 */
module Units {

  type Unit = c: int | 0 <= c < 0x1_0000

  type Text = seq<Unit>

  const NUL: Unit := 0x00
  const TAB: Unit := 0x09
  const NL: Unit := 0x0A
  const VT: Unit := 0x0B
  const CR: Unit := 0x0D
  const SP: Unit := 0x20
  const DQ: Unit := 0x22
  const HASH: Unit := 0x23
  const DOLLAR: Unit := 0x24
  const SQ: Unit := 0x27
  const DOT: Unit := 0x2E
  const COLON: Unit := 0x3A
  const SEMI: Unit := 0x3B
  const GT: Unit := 0x3E
  const QUERY: Unit := 0x3F
  const OBRAK: Unit := 0x5B
  const BSL: Unit := 0x5C
  const CBRAK: Unit := 0x5D
  const UNDER: Unit := 0x5F
  const OCURL: Unit := 0x7B
  const CCURL: Unit := 0x7D

  const LINE_LENGTH := 2048

  predicate IsBlank(c: Unit) {
    c == SP || c == TAB
  }

  predicate IsEol(c: Unit) {
    c == NL || c == CR
  }

  /** Lead and trail surrogates of one supplementary character. */
  predicate IsSurrogatePair(u1: Unit, u2: Unit) {
    0xDC00 <= u2 <= 0xDFFF && 0xD800 <= u1 < 0xDC00
  }

  predicate NoNul(s: Text) {
    forall i :: 0 <= i < |s| ==> s[i] != NUL
  }

  predicate NoCr(s: Text) {
    forall i :: 0 <= i < |s| ==> s[i] != CR
  }

  predicate NoNl(s: Text) {
    forall i :: 0 <= i < |s| ==> s[i] != NL
  }

  predicate AllBlank(s: Text) {
    forall i :: 0 <= i < |s| ==> IsBlank(s[i])
  }

  /** Is there a line, other than the first, that begins with a semicolon? */
  predicate HasNlSemi(s: Text) {
    exists i :: 0 <= i < |s| - 1 && s[i] == NL && s[i + 1] == SEMI
  }

  /** Length of the first line, terminated by NL or by the end of the text. */
  function LineEnd(s: Text): (k: nat)
    ensures k <= |s|
    ensures NoNl(s[..k])
    ensures forall i :: 0 <= i < k ==> s[i] != NL
    ensures k < |s| ==> s[k] == NL
  {
    if s == [] || s[0] == NL then 0
    else
      var k := LineEnd(s[1..]);
      assert s[..k + 1] == [s[0]] + s[1..][..k];
      k + 1
  }

  lemma {:induction false} LineEndIs(s: Text, k: nat)
    requires k <= |s| && (forall i :: 0 <= i < k ==> s[i] != NL) && (k < |s| ==> s[k] == NL)
    ensures LineEnd(s) == k
  {
  }

  /** The text with one trailing newline removed, if it has one. */
  function Chomp(s: Text): (r: Text) {
    if s != [] && s[|s| - 1] == NL then s[..|s| - 1] else s
  }

  lemma {:induction false} SliceAppend(s: Text, i: nat, j: nat)
    requires i <= j < |s|
    ensures s[i..j + 1] == s[i..j] + [s[j]]
  {
  }

  /** The unit at an index of a C string. */
  function UnitAt(s: Text, i: nat): Unit {
    if i < |s| then s[i] else NUL
  }

  /** Index of the last backslash that only blanks follow, or -1. */
  function FoldMark(line: Text): (k: int)
    ensures -1 <= k < |line|
    ensures k >= 0 ==> line[k] == BSL && AllBlank(line[k + 1..])
  {
    if line == [] then -1
    else
      var n := |line| - 1;
      if line[n] == BSL then n
      else if IsBlank(line[n]) then
        var k := FoldMark(line[..n]);
        assert k >= 0 ==> line[k + 1..] == line[..n][k + 1..] + [line[n]];
        k
      else -1
  }

  /** A backslash appended to a line becomes its fold mark. */
  lemma {:induction false} FoldMarkAppend(line: Text, c: Unit)
    ensures FoldMark(line + [c]) == if c == BSL then |line| else if IsBlank(c) then FoldMark(line) else -1
  {
    assert (line + [c])[..|line|] == line;
  }

  /** A suffix of a line without a fold mark has none. */
  lemma {:induction false} FoldMarkSuffix(a: Text, b: Text)
    requires FoldMark(a + b) == -1
    ensures FoldMark(b) == -1
  {
    if b != [] {
      var n := |b| - 1;
      assert (a + b)[..|a| + n] == a + b[..n];
      assert (a + b)[|a| + n] == b[n];
      if IsBlank(b[n]) {
        FoldMarkSuffix(a, b[..n]);
      }
    }
  }
}
