/** The segments that repeated folding makes of a logical line. */
module FoldedLines {
  import opened FoldLine
  import opened TextFieldWriter
  import opened Units
  import opened Wrappers

  /** The segments of a line; None when what is left of it cannot be folded. */
  ghost function Pieces(line: Text, fold: bool, prefix: bool): (r: Option<seq<Text>>) {
    if line == [] then Some([])
    else
      var n := Cut(line, fold, prefix);
      if n == 0 then None
      else
        match Pieces(line[n..], fold, prefix)
        case None => None
        case Some(more) => Some([line[..n]] + more)
  }

  function Join(pieces: seq<Text>): Text {
    if pieces == [] then [] else pieces[0] + Join(pieces[1..])
  }

  /** The physical lines of some segments; all but the last, or all, end with a backslash. */
  function Render(pieces: seq<Text>, protect: bool, prefix: bool): Text {
    if pieces == [] then []
    else Physical(pieces[0], |pieces| > 1 || protect, prefix) + Render(pieces[1..], protect, prefix)
  }

  ghost predicate NoneEmpty(pieces: seq<Text>) {
    forall i :: 0 <= i < |pieces| ==> pieces[i] != []
  }

  /** The segments, put together, are the line, and none is empty. */
  lemma {:induction false} PiecesJoin(line: Text, fold: bool, prefix: bool)
    requires Pieces(line, fold, prefix).Some?
    ensures var ps := Pieces(line, fold, prefix).value;
      Join(ps) == line && NoneEmpty(ps) && (line != [] ==> ps != [])
  {
    if line != [] {
      var n := Cut(line, fold, prefix);
      FirstPiece(line, fold, prefix);
      PiecesJoin(line[n..], fold, prefix);
      JoinParts(line, n, Pieces(line[n..], fold, prefix).value);
    }
  }

  /** The first segment of a line, and those of what is left. */
  lemma {:induction false} FirstPiece(line: Text, fold: bool, prefix: bool)
    requires line != [] && Pieces(line, fold, prefix).Some?
    ensures var n := Cut(line, fold, prefix);
      0 < n <= |line| && Pieces(line[n..], fold, prefix).Some?
      && Pieces(line, fold, prefix).value == [line[..n]] + Pieces(line[n..], fold, prefix).value
  {
  }

  lemma {:induction false} JoinParts(line: Text, n: nat, more: seq<Text>)
    requires 0 < n <= |line| && Join(more) == line[n..] && NoneEmpty(more)
    ensures Join([line[..n]] + more) == line && NoneEmpty([line[..n]] + more)
  {
    JoinFirst(line[..n], more);
    assert line[..n] + line[n..] == line;
  }

  lemma {:induction false} LaterPiece(piece: Text, more: seq<Text>, i: nat)
    requires 0 < i <= |more|
    ensures ([piece] + more)[i] == more[i - 1] && ([piece] + more)[i..] == more[i - 1..]
  {
  }

  lemma {:induction false} JoinFirst(piece: Text, more: seq<Text>)
    ensures Join([piece] + more) == piece + Join(more)
    ensures piece != [] && NoneEmpty(more) ==> NoneEmpty([piece] + more)
  {
    assert ([piece] + more)[1..] == more;
  }

  /** What is written of a line is its segments, each on a physical line. */
  lemma {:induction false} SegmentsAreRendered(line: Text, protect: bool, fold: bool, prefix: bool)
    ensures Segments(line, protect, fold, prefix)
      == match Pieces(line, fold, prefix) case None => None case Some(ps) => Some(Render(ps, protect, prefix))
  {
    if line != [] {
      var n := Cut(line, fold, prefix);
      if n > 0 {
        var more := Pieces(line[n..], fold, prefix);
        SegmentsAreRendered(line[n..], protect, fold, prefix);
        if more.Some? {
          PiecesJoin(line[n..], fold, prefix);
          assert ([line[..n]] + more.value)[1..] == more.value;
          assert n < |line| <==> more.value != [];
        }
      }
    }
  }

  /** No cut leaves a segment that fits on a line. */
  ghost predicate Blocked(line: Text, prefix: bool) {
    |line| > TARGET_LENGTH + FOLDING_WINDOW
    && forall i :: 0 < i <= TARGET_LENGTH + FOLDING_WINDOW ==> !Admissible(line, i, prefix)
  }

  /** A segment is short unless it begins where every cut is blocked. */
  lemma {:induction false} ShortOrBlocked(line: Text, prefix: bool)
    requires line != []
    ensures Cut(line, true, prefix) <= TARGET_LENGTH + FOLDING_WINDOW || Blocked(line, prefix)
  {
    FoldContract(line, TARGET_LENGTH, FOLDING_WINDOW, prefix);
  }

  /** Physical lines without a prefix, and with their backslash, keep within the line length unless every cut is blocked. */
  lemma {:induction false} LinesFit(line: Text, i: nat)
    requires Pieces(line, true, false).Some? && i < |Pieces(line, true, false).value|
    ensures var ps := Pieces(line, true, false).value;
      |ps[i]| + 1 < LINE_LENGTH || Blocked(Join(ps[i..]), false)
  {
    var n := Cut(line, true, false);
    FirstPiece(line, true, false);
    if i == 0 {
      ShortOrBlocked(line, false);
      PiecesJoin(line, true, false);
      assert Pieces(line, true, false).value[0..] == Pieces(line, true, false).value;
    } else {
      LinesFit(line[n..], i - 1);
      LaterPiece(line[..n], Pieces(line[n..], true, false).value, i);
    }
  }

  /** A folded line is given up exactly when what is left of it is too long and has no cut at all. */
  lemma {:induction false} GivenUp(line: Text, prefix: bool)
    requires line != []
    ensures Cut(line, true, prefix) == 0 <==>
      |line| > TARGET_LENGTH + FOLDING_WINDOW && forall i :: 0 < i < |line| ==> !Admissible(line, i, prefix)
  {
    FoldContract(line, TARGET_LENGTH, FOLDING_WINDOW, prefix);
  }
}
