/**
 Columns as the scanner counts them: characters since the last line
 terminator, a surrogate pair being one character.
 */
module Columns {
  import opened Units
  import opened Lexer

  /** The column limit for terminators inside a token, which are counted before the test. */
  const TOKEN_LIMIT := LINE_LENGTH - 1

  function ColumnOver(column: int, c: Unit): int {
    if IsEol(c) then 0 else NextColumn(column, c)
  }

  /** The column after some text. */
  function ColumnAfter(column: int, t: Text): int
    decreases |t|
  {
    if t == [] then column else ColumnAfter(ColumnOver(column, t[0]), t[1..])
  }

  /** No terminator in the text is at a column beyond the limit. */
  predicate Within(column: int, t: Text, limit: int)
    decreases |t|
  {
    t == [] || ((IsEol(t[0]) ==> column <= limit) && Within(ColumnOver(column, t[0]), t[1..], limit))
  }

  lemma {:induction false} ColumnConcat(column: int, a: Text, b: Text)
    ensures ColumnAfter(column, a + b) == ColumnAfter(ColumnAfter(column, a), b)
    decreases |a|
  {
    if a == [] {
      assert a + b == b;
    } else {
      assert (a + b)[0] == a[0] && (a + b)[1..] == a[1..] + b;
      ColumnConcat(ColumnOver(column, a[0]), a[1..], b);
    }
  }

  lemma {:induction false} WithinConcat(column: int, a: Text, b: Text, limit: int)
    ensures Within(column, a + b, limit) <==> Within(column, a, limit) && Within(ColumnAfter(column, a), b, limit)
    decreases |a|
  {
    if a == [] {
      assert a + b == b;
    } else {
      assert (a + b)[0] == a[0] && (a + b)[1..] == a[1..] + b;
      WithinConcat(ColumnOver(column, a[0]), a[1..], b, limit);
    }
  }

  /** Each terminator is at most limit characters behind the start of its line. */
  lemma {:induction false} WithinMeaning(column: int, t: Text, limit: int)
    ensures Within(column, t, limit)
       <==> forall i :: 0 <= i < |t| && IsEol(t[i]) ==> ColumnAfter(column, t[..i]) <= limit
    decreases |t|
  {
    if t != [] {
      var c, t' := ColumnOver(column, t[0]), t[1..];
      WithinMeaning(c, t', limit);
      forall i | 0 < i < |t| ensures t[i] == t'[i - 1] && ColumnAfter(column, t[..i]) == ColumnAfter(c, t'[..i - 1]) {
        assert t[..i][0] == t[0] && t[..i][1..] == t'[..i - 1];
      }
      assert t[..0] == [];
      if forall i :: 0 <= i < |t| && IsEol(t[i]) ==> ColumnAfter(column, t[..i]) <= limit {
        forall i | 0 <= i < |t'| && IsEol(t'[i]) ensures ColumnAfter(c, t'[..i]) <= limit {
          assert t[i + 1] == t'[i];
        }
      }
    }
  }

  /** After a terminator the column is zero. */
  lemma {:induction false} ColumnAfterEol(column: int, t: Text)
    requires t != [] && IsEol(t[|t| - 1])
    ensures ColumnAfter(column, t) == 0
  {
    var n := |t| - 1;
    assert t == t[..n] + [t[n]];
    ColumnConcat(column, t[..n], [t[n]]);
    assert [t[n]][1..] == [];
  }

  /** Text without terminators is within any limit, and advances by no more than its length. */
  lemma {:induction false} NoTerminator(column: int, t: Text, limit: int)
    requires forall i :: 0 <= i < |t| ==> !IsEol(t[i])
    ensures Within(column, t, limit) && column <= ColumnAfter(column, t) <= column + |t|
    decreases |t|
  {
    if t != [] {
      assert !IsEol(t[0]) && forall i :: 0 <= i < |t[1..]| ==> t[1..][i] == t[i + 1];
      NoTerminator(ColumnOver(column, t[0]), t[1..], limit);
    }
  }
}
