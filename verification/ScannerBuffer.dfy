/**
 The scanner's character buffer and its refilling.  read_func may deliver the
 input in pieces of any size; the scanning loops do not depend on it.
 */
module ScannerBuffer {
  import opened Units
  import opened Wrappers
  import opened Lexer

  const BUF_MIN_FILL := LINE_LENGTH + 2
  const BUF_SIZE_INITIAL := 64 * (LINE_LENGTH + 2)

  /** The input as the scanner sees it: a carriage return reads as a newline. */
  function LfOnly(s: Text): (r: Text)
    ensures |r| == |s| && NoCr(r)
    ensures forall i :: 0 <= i < |s| ==> r[i] == if s[i] == CR then NL else s[i]
  {
    seq(|s|, i requires 0 <= i < |s| => if s[i] == CR then NL else s[i])
  }

  lemma {:induction false} LfOnlySplit(s: Text, n: nat)
    requires n <= |s|
    ensures LfOnly(s) == LfOnly(s[..n]) + LfOnly(s[n..])
  {
  }

  lemma {:induction false} Refilled(was: Text, n: nat)
    requires n <= |was|
    ensures LfOnly(was[..n]) + LfOnly(was[n..]) == [] + LfOnly(was)
  {
    LfOnlySplit(was, n);
  }

  predicate NoCrLf(s: Text) {
    forall i :: 0 <= i < |s| - 1 && s[i] == CR ==> s[i + 1] != NL
  }

  class Scanner {
    var buffer: array<Unit>
    var limit: nat
    var textStart: nat
    var nextChar: nat
    var tvalueStart: nat
    var tvalueLength: nat
    var line: nat
    var column: nat
    var atEof: bool
    /** what read_func has yet to deliver */
    var pending: Text

    ghost predicate Valid()
      reads this
    {
      && textStart <= tvalueStart <= nextChar <= limit <= buffer.Length
      && buffer.Length >= 2 * BUF_MIN_FILL
      && NoCrLf(pending) && (atEof ==> pending == [])
    }

    /** The units of the current token scanned so far. */
    ghost function TokenText(): Text
      requires Valid()
      reads this, buffer
    {
      buffer[textStart..nextChar]
    }

    /** All that is still to be scanned, buffered or not. */
    ghost function Rest(): Text
      requires Valid()
      reads this, buffer
    {
      buffer[nextChar..limit] + LfOnly(pending)
    }

    constructor (input: Text)
      requires NoCrLf(input)
      ensures Valid() && TokenText() == [] && Rest() == LfOnly(input) && fresh(buffer)
      ensures line == 1 && column == 0
    {
      buffer := new Unit[BUF_SIZE_INITIAL];
      limit, textStart, nextChar, tvalueStart, tvalueLength := 0, 0, 0, 0, 0;
      line, column, atEof, pending := 1, 0, false, input;
    }

    /** read_func: at least one unit and at most count, unless the input is exhausted. */
    method ReadUnits(count: nat) returns (n: nat)
      requires Valid() && BUF_MIN_FILL <= count && limit + count <= buffer.Length
      modifies this`pending, buffer
      ensures Valid() && n <= count && n <= |old(pending)| && (n == 0 <==> old(pending) == [])
      ensures buffer[..limit] == old(buffer[..limit]) && buffer[limit..limit + n] == old(pending)[..n]
      ensures pending == old(pending)[n..]
    {
      if |pending| == 0 {
        return 0;
      }
      n :| 1 <= n <= count && n <= |pending|;
      forall i | 0 <= i < n {
        buffer[limit + i] := pending[i];
      }
      pending := pending[n..];
    }

    /** Makes room for BUF_MIN_FILL units at the top of the buffer: by moving the token, or by doubling the buffer. */
    method MakeRoom()
      requires Valid() && nextChar == limit
      modifies this, buffer
      ensures Valid() && nextChar == limit && limit + BUF_MIN_FILL <= buffer.Length
      ensures buffer == old(buffer) || fresh(buffer)
      ensures TokenText() == old(TokenText()) && Rest() == old(Rest())
      ensures tvalueStart - textStart == old(tvalueStart - textStart) && tvalueLength == old(tvalueLength)
      ensures unchanged(`line) && unchanged(`column) && unchanged(`atEof) && unchanged(`pending)
    {
      if textStart >= limit {
        textStart, tvalueStart, nextChar, limit := 0, 0, 0, 0;
      } else if buffer.Length < limit + BUF_MIN_FILL {
        var current := nextChar - textStart;
        var diff := tvalueStart - textStart;
        if current * 2 < buffer.Length {
          MoveToFront(buffer, textStart, current);
        } else {
          var larger := new Unit[buffer.Length * 2];
          CopyToFront(buffer, textStart, current, larger);
          buffer := larger;
        }
        textStart, tvalueStart, nextChar, limit := 0, diff, current, current;
      }
    }

    /** get_more_chars: false at the end of the input. */
    method GetMoreChars() returns (more: bool)
      requires Valid() && nextChar == limit
      modifies this, buffer
      ensures Valid() && (buffer == old(buffer) || fresh(buffer))
      ensures TokenText() == old(TokenText()) && Rest() == old(Rest())
      ensures tvalueStart - textStart == old(tvalueStart - textStart) && tvalueLength == old(tvalueLength)
      ensures unchanged(`line) && unchanged(`column)
      ensures if more then nextChar < limit && |pending| < |old(pending)| else Rest() == [] && atEof
    {
      MakeRoom();
      ghost var token, was := TokenText(), pending;
      assert buffer[nextChar..limit] == [];
      assert Rest() == [] + LfOnly(was);
      var n := 0;
      if !atEof {
        n := ReadUnits(buffer.Length - limit);
      }
      if n == 0 {
        atEof := true;
        return false;
      }
      ConvertEols(buffer, limit, n);
      Refilled(was, n);
      limit := limit + n;
      assert buffer[nextChar..limit] == LfOnly(was[..n]);
      more := true;
    }

    /** The scan has passed done units of the input, which follow the token's first units. */
    ghost predicate Passed(token: Text, input: Text, done: nat)
      reads this, buffer
    {
      Valid() && done <= |input| && Rest() == input[done..] && TokenText() == token + input[..done]
    }

    /** Passes one buffered unit. */
    method TakeUnit(ghost token: Text, ghost input: Text, ghost done: nat)
      requires Passed(token, input, done) && nextChar < limit
      modifies this`nextChar
      ensures Passed(token, input, done + 1) && nextChar == old(nextChar) + 1
    {
      assert buffer[nextChar] == Rest()[0] == input[done];
      assert Rest()[1..] == input[done + 1..];
      nextChar := nextChar + 1;
      assert input[..done + 1] == input[..done] + [input[done]];
    }

    /** One unit of a scanning loop. */
    method ScanUnit(kind: Kind, s: State, lenient: bool, ghost token: Text, ghost input: Text, ghost done: nat)
      returns (step: Step, ghost done': nat)
      requires Passed(token, input, done) && s.delims <= 2 && nextChar < limit
      modifies this`nextChar
      ensures Passed(token, input, done')
      ensures step.More? ==> step.state.delims <= 2 && nextChar == old(nextChar) + 1
      ensures Outcomes(kind, More(s), input, done, lenient) == Outcomes(kind, step, input, done', lenient)
    {
      var c := buffer[nextChar];
      assert c == Rest()[0] == input[done];
      step, done' := StepOn(kind, s, c, lenient), done;
      RunStep(kind, s, input, done, lenient);
      if step.More? || step.StopAfter? {
        TakeUnit(token, input, done);
        done' := done + 1;
      }
    }

    /** The inner loop of every scanning function: over the units that are buffered. */
    method ScanBuffered(kind: Kind, s: State, lenient: bool, ghost token: Text, ghost input: Text, ghost done: nat)
      returns (step: Step, ghost done': nat)
      requires Passed(token, input, done) && s.delims <= 2
      modifies this`nextChar
      ensures Passed(token, input, done')
      ensures step.More? ==> nextChar == limit && step.state.delims <= 2
      ensures Outcomes(kind, More(s), input, done, lenient) == Outcomes(kind, step, input, done', lenient)
    {
      ghost var goal := Outcomes(kind, More(s), input, done, lenient);
      step, done' := More(s), done;
      while step.More? && nextChar < limit
        invariant Passed(token, input, done')
        invariant step.More? ==> step.state.delims <= 2
        invariant goal == Outcomes(kind, step, input, done', lenient)
        decreases step.More?, limit - nextChar
      {
        step, done' := ScanUnit(kind, step.state, lenient, token, input, done');
      }
    }

    /** One turn of the outer loop of a scanning function: what is buffered, and a refill. */
    method ScanRound(kind: Kind, s: State, lenient: bool, ghost token: Text, ghost input: Text, ghost done: nat)
      returns (step: Step, more: bool, ghost done': nat)
      requires Passed(token, input, done) && s.delims <= 2
      modifies this, buffer
      ensures Passed(token, input, done') && (buffer == old(buffer) || fresh(buffer))
      ensures (more ==> step.More? && |pending| < |old(pending)|) && (step.More? ==> step.state.delims <= 2)
      ensures Outcomes(kind, More(s), input, done, lenient) == Outcomes(kind, step, input, done', lenient)
      ensures !more && step.More? ==> done' == |input|
      ensures tvalueStart - textStart == old(tvalueStart - textStart)
    {
      step, done' := ScanBuffered(kind, s, lenient, token, input, done);
      more := step.More?;
      if more {
        more := GetMoreChars();
      }
    }

    /** A whole scanning loop, with refills, up to where it stops or to the end of the input. */
    method ScanLoop(kind: Kind, start: State, lenient: bool, ghost token: Text, ghost input: Text)
      returns (step: Step, ghost done: nat)
      requires Passed(token, input, 0) && start.delims <= 2
      modifies this, buffer
      ensures Passed(token, input, done) && (buffer == old(buffer) || fresh(buffer))
      ensures step.More? ==> step.state.delims <= 2 && done == |input|
      ensures Outcomes(kind, More(start), input, 0, lenient) == Outcomes(kind, step, input, done, lenient)
      ensures tvalueStart - textStart == old(tvalueStart - textStart)
    {
      ghost var goal := Outcomes(kind, More(start), input, 0, lenient);
      var more := true;
      step, done := More(start), 0;
      while more
        invariant Passed(token, input, done) && (buffer == old(buffer) || fresh(buffer))
        invariant (more ==> step.More?) && (step.More? ==> step.state.delims <= 2)
        invariant goal == Outcomes(kind, step, input, done, lenient)
        invariant !more && step.More? ==> done == |input|
        invariant tvalueStart - textStart == old(tvalueStart - textStart)
        decreases more, |pending|
      {
        step, more, done := ScanRound(kind, step.state, lenient, token, input, done);
      }
    }

    /**
     A scanning loop, over the input that is left.  Its outcome is that of the
     loop over the input as one piece, however it is split between refills.
     */
    method Scan(kind: Kind, start: State, lenient: bool, ghost token: Text, ghost input: Text) returns (o: Outcome)
      requires Passed(token, input, 0) && start.delims <= 2
      modifies this, buffer
      ensures Valid() && (buffer == old(buffer) || fresh(buffer))
      ensures o == Run(kind, start, input, lenient)
      ensures o.Scanned? ==> Passed(token, input, o.length)
      ensures tvalueStart - textStart == old(tvalueStart - textStart)
    {
      ghost var done;
      var had := TokenLength(token, input);
      var step;
      step, done := ScanLoop(kind, start, lenient, token, input);
      LoopResult(kind, start, step, input, done, lenient);
      var length := Taken(had, token, input, done);
      o := Concluded(kind, step, length);
    }

    method TokenLength(ghost token: Text, ghost input: Text) returns (length: nat)
      requires Passed(token, input, 0)
      ensures length == |token|
    {
      assert |TokenText()| == nextChar - textStart;
      length := nextChar - textStart;
    }

    /** How many units have been added to the token. */
    method Taken(had: nat, ghost token: Text, ghost input: Text, ghost done: nat) returns (length: nat)
      requires Passed(token, input, done) && had == |token|
      ensures length == done
    {
      assert |TokenText()| == nextChar - textStart;
      length := nextChar - textStart - had;
    }

    /** The value of the current token. */
    ghost function TokenValue(): Text
      reads this, buffer
    {
      if tvalueStart + tvalueLength <= buffer.Length then buffer[tvalueStart..tvalueStart + tvalueLength] else []
    }

    /**
     The frame of the scanning functions: the first skip units of the token do
     not belong to its value, nor does a closing delimiter.
     */
    method ScanToken(kind: Kind, skip: nat, lenient: bool) returns (error: Option<Code>)
      requires Valid() && tvalueStart == textStart && skip <= nextChar - textStart
      modifies this, buffer
      ensures Valid()
      ensures Delivers(Run(kind, Start(old(line), old(column)), old(Rest()), lenient), old(TokenText()), old(Rest()), skip,
                       error, TokenValue(), Rest(), line, column)
    {
      RunBounds(kind, Start(line, column), Rest(), lenient);
      NothingPassed(TokenText(), Rest());
      ghost var token, input := TokenText(), Rest();
      var o := Scan(kind, Start(line, column), lenient, token, input);
      error := EndToken(o, skip, token, input);
    }

    /** Goes on as the scanning functions do, from where their loop has ended. */
    method EndToken(o: Outcome, skip: nat, ghost token: Text, ghost input: Text) returns (error: Option<Code>)
      requires Valid() && tvalueStart == textStart && skip <= |token|
      requires o.Scanned? ==> Passed(token, input, o.length) && o.drop <= o.length && o.state.column >= 0
      modifies this`tvalueStart, this`tvalueLength, this`line, this`column
      ensures Valid() && Delivers(o, token, input, skip, error, TokenValue(), Rest(), line, column)
    {
      match o {
        case Failed(e) => error := Some(e);
        case Scanned(n, drop, s) =>
          error := None;
          SetValue(skip, drop, s.line, s.column);
      }
    }

    /** The end of every scanning function. */
    method SetValue(skip: nat, drop: nat, line': nat, column': nat)
      requires Valid() && tvalueStart == textStart && skip + drop <= |TokenText()|
      modifies this`tvalueStart, this`tvalueLength, this`line, this`column
      ensures Valid() && line == line' && column == column'
      ensures TokenValue() == TokenText()[skip..|TokenText()| - drop]
    {
      line, column := line', column';
      tvalueStart := tvalueStart + skip;
      tvalueLength := nextChar - tvalueStart - drop;
      SliceOfSlice(buffer[..], textStart, nextChar, skip, nextChar - textStart - drop);
      assert TokenValue() == TokenText()[skip..|TokenText()| - drop];
    }

    /** PEEK_CHAR: the next unit, which may take a refill; false at the end of the input. */
    method PeekChar() returns (ok: bool, c: Unit)
      requires Valid()
      modifies this, buffer
      ensures Valid() && (buffer == old(buffer) || fresh(buffer))
      ensures TokenText() == old(TokenText()) && Rest() == old(Rest())
      ensures if ok then Rest() != [] && c == Rest()[0] && nextChar < limit else Rest() == []
      ensures tvalueStart - textStart == old(tvalueStart - textStart) && unchanged(`line)
    {
      ok, c := true, NUL;
      if nextChar >= limit {
        ok := GetMoreChars();
      }
      if ok { c := buffer[nextChar]; }
    }

    /** What follows a delimiter: another one, right after the opening delimiter, opens a triple-quoted string. */
    method AfterDelim(q: Unit, column': nat, ghost token: Text, ghost input: Text, ghost done: nat) returns (o: DelimOutcome)
      requires Passed(token, input, done + 1) && |token| == 1
      modifies this, buffer
      ensures Valid() && (buffer == old(buffer) || fresh(buffer)) && tvalueStart - textStart == old(tvalueStart - textStart)
      ensures unchanged(`line)
      ensures o == if done == 0 && |input| >= 2 && input[1] == q then OpensTriple(column') else Closed(done, column')
      ensures Passed(token, input, if o.OpensTriple? then 2 else done + 1)
    {
      var ok, c := PeekChar();
      o := Closed(nextChar - textStart - 2, column');
      if ok && nextChar - textStart == 2 && c == q {
        TakeUnit(token, input, 1);
        o := OpensTriple(column');
      }
    }

    /** One turn of the inner loop of scan_delim_string. */
    method DelimUnit(q: Unit, lead: Unit, column: nat, ghost token: Text, ghost input: Text, ghost done: nat) returns (step: DelimStep)
      requires Passed(token, input, done) && |token| == 1 && nextChar < limit
      modifies this, buffer
      ensures Valid() && (buffer == old(buffer) || fresh(buffer)) && tvalueStart - textStart == old(tvalueStart - textStart)
      ensures unchanged(`line)
      ensures match step
        case Go(lead', column') =>
          && Passed(token, input, done + 1) && unchanged(`pending)
          && limit - nextChar < old(limit - nextChar)
          && DelimLeft(q, lead, column, input, done) == DelimLeft(q, lead', column', input, done + 1)
        case Stop(o) =>
          && o == DelimLeft(q, lead, column, input, done)
          && (o.Closed? ==> o.column >= 0 && Passed(token, input, o.length + 1))
          && (o.OpensTriple? ==> o.column >= 0 && Passed(token, input, 2))
    {
      var c := buffer[nextChar];
      assert c == Rest()[0] == input[done];
      DelimLeftStep(q, lead, column, input, done);
      match NextLead(lead, c) {
        case Err(e) => step := Stop(DelimFailed(e));
        case Ok(lead') =>
          TakeUnit(token, input, done);
          if c == q {
            var o := AfterDelim(q, NextColumn(column, c), token, input, done);
            step := Stop(o);
          } else if ClassOf(c) == Eol {
            step := Stop(DelimFailed(MissingEndquote));
          } else {
            step := Go(lead', NextColumn(column, c));
          }
      }
    }

    /** One turn of the loops of scan_delim_string: a unit, or a refill. */
    method DelimTurn(q: Unit, lead: Unit, column: nat, ghost token: Text, ghost input: Text, ghost done: nat,
                     ghost goal: DelimOutcome)
      returns (step: DelimStep, more: bool, ghost done': nat)
      requires Passed(token, input, done) && |token| == 1 && goal == DelimLeft(q, lead, column, input, done)
      modifies this, buffer
      ensures Valid() && (buffer == old(buffer) || fresh(buffer)) && tvalueStart - textStart == old(tvalueStart - textStart)
      ensures unchanged(`line)
      ensures match step
        case Go(lead', column') =>
          && Passed(token, input, done') && (!more ==> done' == |input|)
          && (more ==> |pending| < |old(pending)| || (pending == old(pending) && limit - nextChar < old(limit - nextChar)))
          && goal == DelimLeft(q, lead', column', input, done')
        case Stop(o) =>
          && o == goal
          && (o.Closed? ==> o.column >= 0 && Passed(token, input, o.length + 1))
          && (o.OpensTriple? ==> o.column >= 0 && Passed(token, input, 2))
    {
      more, done' := true, done;
      if nextChar < limit {
        step := DelimUnit(q, lead, column, token, input, done);
        done' := done + 1;
      } else {
        more := GetMoreChars();
        step := Go(lead, column);
      }
    }

    /** The loops of scan_delim_string, with refills, after some units. */
    method ScanDelims(q: Unit, ghost token: Text, ghost input: Text) returns (o: DelimOutcome)
      requires Passed(token, input, 0) && |token| == 1
      modifies this, buffer
      ensures Valid() && (buffer == old(buffer) || fresh(buffer)) && tvalueStart - textStart == old(tvalueStart - textStart)
      ensures unchanged(`line)
      ensures o == DelimLeft(q, 0, old(column), input, 0)
      ensures o.Closed? ==> o.column >= 0 && Passed(token, input, o.length + 1)
      ensures o.OpensTriple? ==> o.column >= 0 && Passed(token, input, 2)
    {
      ghost var done, goal := 0, DelimLeft(q, 0, column, input, 0);
      var lead: Unit, col: nat, more := 0, column, true;
      while more
        invariant Passed(token, input, done) && (buffer == old(buffer) || fresh(buffer))
        invariant tvalueStart - textStart == old(tvalueStart - textStart) && line == old(line)
        invariant goal == DelimLeft(q, lead, col, input, done)
        invariant !more ==> done == |input|
        decreases more, |pending|, limit - nextChar
      {
        var step;
        step, more, done := DelimTurn(q, lead, col, token, input, done, goal);
        if step.Stop? { return step.outcome; }
        lead, col := step.lead, step.column;
      }
      DelimLeftEnds(q, lead, col, input);
      o := DelimFailed(if lead != 0 then InvalidChar else MissingEndquote);
    }

    /**
     scan_delim_string, from after the opening delimiter, and the scan of a
     triple-quoted string to which it may come: what is delivered does not
     depend on how the input is split between refills.
     */
    method ScanDelimString(q: Unit, lenient: bool) returns (error: Option<Code>)
      requires Valid() && tvalueStart == textStart && nextChar == textStart + 1
      modifies this, buffer
      ensures Valid()
      ensures DeliversQuoted(RunDelim(q, 0, old(column), true, old(Rest())), q, lenient, old(Rest()), old(line),
                             error, TokenValue(), Rest(), line, column)
    {
      ghost var token, input := TokenText(), Rest();
      NothingPassed(token, input);
      DelimLeftStarts(q, 0, column, input);
      var o := ScanDelims(q, token, input);
      error := EndDelims(o, q, lenient, token, input);
    }

    /** Goes on as scan_delim_string does, from where its loops have ended. */
    method EndDelims(o: DelimOutcome, q: Unit, lenient: bool, ghost token: Text, ghost input: Text) returns (error: Option<Code>)
      requires Valid() && tvalueStart == textStart && |token| == 1
      requires o.Closed? ==> o.column >= 0 && Passed(token, input, o.length + 1)
      requires o.OpensTriple? ==> o.column >= 0 && Passed(token, input, 2)
      modifies this, buffer
      ensures Valid() && DeliversQuoted(o, q, lenient, input, old(line), error, TokenValue(), Rest(), line, column)
    {
      match o {
        case DelimFailed(e) => error := Some(e);
        case Closed(n, column') =>
          SetClosed(column', token, input, n);
          error := None;
        case OpensTriple(column') =>
          column := column';
          error := ScanTripleDelimString(q, lenient);
      }
    }

    /** The end of a string in single delimiters. */
    method SetClosed(column': nat, ghost token: Text, ghost input: Text, ghost n: nat)
      requires Passed(token, input, n + 1) && tvalueStart == textStart && |token| == 1
      modifies this`tvalueStart, this`tvalueLength, this`line, this`column
      ensures Valid() && line == old(line) && column == column' && Rest() == input[n + 1..] && TokenValue() == input[..n]
    {
      SetValue(1, 1, line, column');
      assert (token + input[..n + 1])[1..n + 1] == input[..n];
    }

    /** scan_text, from after the opening semicolon. */
    method ScanText(lenient: bool) returns (error: Option<Code>)
      requires Valid() && tvalueStart == textStart && nextChar == textStart + 1
      modifies this, buffer
      ensures Valid()
      ensures DeliversContent(Run(TextField, Start(old(line), old(column)), old(Rest()), lenient), old(Rest()),
                              error, TokenValue(), Rest(), line, column)
    {
      ghost var o, token, input := Run(TextField, Start(line, column), Rest(), lenient), TokenText(), Rest();
      error := ScanToken(TextField, 1, lenient);
      ContentDelivered(o, token, input, error, TokenValue(), Rest(), line, column);
    }

    /** scan_triple_delim_string, from after the opening delimiter. */
    method ScanTripleDelimString(delim: Unit, lenient: bool) returns (error: Option<Code>)
      requires Valid() && tvalueStart == textStart && nextChar == textStart + 3
      modifies this, buffer
      ensures Valid()
      ensures DeliversContent(Run(TripleQuoted(delim), Start(old(line), old(column)), old(Rest()), lenient), old(Rest()),
                              error, TokenValue(), Rest(), line, column)
    {
      ghost var o, token, input := Run(TripleQuoted(delim), Start(line, column), Rest(), lenient), TokenText(), Rest();
      error := ScanToken(TripleQuoted(delim), 3, lenient);
      ContentDelivered(o, token, input, error, TokenValue(), Rest(), line, column);
    }

    /** scan_to_ws, scan_to_eol and scan_unquoted: the value is the whole token. */
    method ScanBare(kind: Kind, lenient: bool) returns (error: Option<Code>)
      requires Valid() && tvalueStart == textStart && kind in {ToWs, ToEol, Unquoted}
      modifies this, buffer
      ensures Valid()
      ensures match Run(kind, Start(old(line), old(column)), old(Rest()), lenient)
        case Failed(e) => error == Some(e)
        case Scanned(n, _, s) =>
          && error == None && line == s.line && column == s.column
          && Rest() == old(Rest())[n..] && TokenValue() == old(TokenText()) + old(Rest())[..n]
    {
      ghost var o := Run(kind, Start(line, column), Rest(), lenient);
      ghost var token, input := TokenText(), Rest();
      BareDropsNothing(kind, Start(line, column), Rest(), lenient);
      error := ScanToken(kind, 0, lenient);
      assert o.Scanned? ==> TokenValue() == token + input[..o.length];
    }
  }

  /** What one turn of the loop of scan_delim_string comes to. */
  datatype DelimStep = Go(lead: Unit, column: nat) | Stop(outcome: DelimOutcome)

  /** The outcome of a scan for a closing delimiter that has passed some units. */
  ghost function DelimLeft(q: Unit, lead: Unit, column: int, input: Text, done: nat): DelimOutcome
    requires done <= |input|
  {
    var o := RunDelim(q, lead, column, done == 0, input[done..]);
    if o.Closed? then o.(length := o.length + done) else o
  }

  lemma {:induction false} DelimLeftStarts(q: Unit, lead: Unit, column: int, input: Text)
    ensures DelimLeft(q, lead, column, input, 0) == RunDelim(q, lead, column, true, input)
  {
    assert input[0..] == input;
  }

  lemma {:induction false} DelimLeftEnds(q: Unit, lead: Unit, column: int, input: Text)
    ensures DelimLeft(q, lead, column, input, |input|) == DelimFailed(if lead != 0 then InvalidChar else MissingEndquote)
  {
  }

  lemma {:induction false} DelimLeftStep(q: Unit, lead: Unit, column: int, input: Text, done: nat)
    requires done < |input|
    ensures DelimLeft(q, lead, column, input, done)
      == match NextLead(lead, input[done])
         case Err(e) => DelimFailed(e)
         case Ok(lead') =>
           var column' := NextColumn(column, input[done]);
           if input[done] == q then
             if done == 0 && |input| >= 2 && input[1] == q then OpensTriple(column') else Closed(done, column')
           else if ClassOf(input[done]) == Eol then DelimFailed(MissingEndquote)
           else DelimLeft(q, lead', column', input, done + 1)
  {
    assert input[done..][1..] == input[done + 1..];
    assert done == 0 && |input| >= 2 ==> input[done..][1] == input[1];
  }

  /** What a scanning function leaves behind, given the outcome of its loop. */
  ghost predicate Delivers(o: Outcome, token: Text, input: Text, skip: nat,
                           error: Option<Code>, value: Text, rest: Text, line: nat, column: int)
  {
    match o
    case Failed(e) => error == Some(e)
    case Scanned(n, drop, s) =>
      && error == None && line == s.line && column == s.column
      && drop <= n <= |input| && rest == input[n..]
      && skip <= |token| && value == (token + input[..n])[skip..|token| + n - drop]
  }

  /** What scan_delim_string leaves behind, given how the scan for its closing delimiter comes out. */
  ghost predicate DeliversQuoted(o: DelimOutcome, q: Unit, lenient: bool, input: Text, line0: nat,
                                 error: Option<Code>, value: Text, rest: Text, line: nat, column: int)
  {
    match o
    case DelimFailed(e) => error == Some(e)
    case Closed(n, column') =>
      && error == None && column == column' && line == line0
      && n < |input| && rest == input[n + 1..] && value == input[..n]
    case OpensTriple(column') =>
      && column' >= 0 && |input| >= 2
      && DeliversContent(Run(TripleQuoted(q), Start(line0, column'), input[2..], lenient), input[2..], error, value, rest, line, column)
  }

  /** The value is what the loop passed, without the closing delimiter. */
  ghost predicate DeliversContent(o: Outcome, input: Text, error: Option<Code>, value: Text, rest: Text, line: nat, column: int)
  {
    match o
    case Failed(e) => error == Some(e)
    case Scanned(n, drop, s) =>
      && error == None && line == s.line && column == s.column
      && drop <= n <= |input| && rest == input[n..] && value == input[..n - drop]
  }

  lemma {:induction false} ContentDelivered(o: Outcome, token: Text, input: Text, error: Option<Code>, value: Text, rest: Text, line: nat, column: int)
    requires Delivers(o, token, input, |token|, error, value, rest, line, column)
    ensures DeliversContent(o, input, error, value, rest, line, column)
  {
    match o
    case Failed(_) =>
    case Scanned(n, drop, _) =>
      assert (token + input[..n])[|token|..|token| + n - drop] == input[..n - drop];
  }

  lemma {:induction false} SliceOfSlice(s: Text, a: nat, b: nat, c: nat, d: nat)
    requires a <= b <= |s| && c <= d <= b - a
    ensures s[a..b][c..d] == s[a + c..a + d]
  {
    forall i | 0 <= i < d - c ensures s[a..b][c..d][i] == s[a + c..a + d][i] {
      assert s[a..b][c + i] == s[a + c + i];
    }
  }

  lemma {:induction false} NothingPassed(token: Text, input: Text)
    ensures input[0..] == input && token + input[..0] == token
  {
  }

  /** The outcome of a whole loop, from where it has stopped. */
  lemma {:induction false} LoopResult(kind: Kind, start: State, step: Step, input: Text, done: nat, lenient: bool)
    requires start.delims <= 2 && done <= |input| && (step.More? ==> step.state.delims <= 2 && done == |input|)
    requires Outcomes(kind, More(start), input, 0, lenient) == Outcomes(kind, step, input, done, lenient)
    ensures Run(kind, start, input, lenient) == Concluded(kind, step, done)
    ensures Concluded(kind, step, done).Scanned? ==> Concluded(kind, step, done).length == done
  {
    FromStart(kind, start, input, lenient);
    LoopEnds(kind, step, input, done, lenient);
  }

  lemma {:induction false} FromStart(kind: Kind, start: State, input: Text, lenient: bool)
    requires start.delims <= 2
    ensures Outcomes(kind, More(start), input, 0, lenient) == Run(kind, start, input, lenient)
  {
    assert input[0..] == input;
  }

  /** A loop over input that has stopped, or has come to the end of the input. */
  lemma {:induction false} LoopEnds(kind: Kind, step: Step, input: Text, done: nat, lenient: bool)
    requires done <= |input| && (step.More? ==> step.state.delims <= 2 && done == |input|)
    ensures Outcomes(kind, step, input, done, lenient) == Concluded(kind, step, done)
  {
  }

  lemma {:induction false} RunBounds(kind: Kind, s: State, input: Text, lenient: bool)
    requires s == Start(s.line, s.column) && s.column >= 0
    ensures var o := Run(kind, s, input, lenient); o.Scanned? ==> o.state.column >= 0 && o.drop <= o.length <= |input|
  {
    RunColumn(kind, s, input, lenient);
  }

  /** Columns do not become negative. */
  lemma {:induction false} RunColumn(kind: Kind, s: State, input: Text, lenient: bool)
    requires s.delims <= 2 && s.column >= 0
    ensures var o := Run(kind, s, input, lenient); o.Scanned? ==> o.state.column >= 0
    decreases |input|
  {
    if input != [] {
      var step := StepOn(kind, s, input[0], lenient);
      if step.More? { RunColumn(kind, step.state, input[1..], lenient); }
    }
  }

  lemma {:induction false} BareDropsNothing(kind: Kind, s: State, input: Text, lenient: bool)
    requires s.delims <= 2 && kind in {ToWs, ToEol, Unquoted}
    ensures var o := Run(kind, s, input, lenient); o.Scanned? ==> o.drop == 0
    decreases |input|
  {
    if input != [] {
      var step := StepOn(kind, s, input[0], lenient);
      if step.More? { BareDropsNothing(kind, step.state, input[1..], lenient); }
    }
  }

  /** The outcome of a loop that has stopped. */
  function Concluded(kind: Kind, step: Step, done: nat): Outcome {
    match step
    case More(s) => Longer(done, AtEof(kind, s))
    case StopBefore(s) => Scanned(done, 0, s)
    case StopAfter(s, drop) => Scanned(done, drop, s)
    case Fail(e) => Failed(e)
  }

  lemma {:induction false} RunStep(kind: Kind, s: State, input: Text, done: nat, lenient: bool)
    requires done < |input| && s.delims <= 2
    ensures var step := StepOn(kind, s, input[done], lenient);
      && (step.More? ==> step.state.delims <= 2)
      && Outcomes(kind, More(s), input, done, lenient)
         == Outcomes(kind, step, input, if step.More? || step.StopAfter? then done + 1 else done, lenient)
  {
    assert input[done..][1..] == input[done + 1..];
  }

  /** What is left to happen after a step. */
  ghost function Outcomes(kind: Kind, step: Step, input: Text, done: nat, lenient: bool): Outcome
    requires done <= |input| && (step.More? ==> step.state.delims <= 2)
  {
    match step
    case More(s) => Longer(done, Run(kind, s, input[done..], lenient))
    case StopBefore(s) => Scanned(done, 0, s)
    case StopAfter(s, drop) => Scanned(done, drop, s)
    case Fail(e) => Failed(e)
  }

  /** memmove to the start of the same buffer */
  method MoveToFront(buffer: array<Unit>, from: nat, n: nat)
    requires from + n <= buffer.Length
    modifies buffer
    ensures buffer[..n] == old(buffer[from..from + n])
  {
    forall i | 0 <= i < n {
      buffer[i] := buffer[from + i];
    }
  }

  /** memcpy to the start of another buffer */
  method CopyToFront(buffer: array<Unit>, from: nat, n: nat, larger: array<Unit>)
    requires from + n <= buffer.Length && n <= larger.Length && buffer != larger
    modifies larger
    ensures larger[..n] == buffer[from..from + n]
  {
    forall i | 0 <= i < n {
      larger[i] := buffer[from + i];
    }
  }

  /** Writes every bare carriage return among n units as a newline; the input has no CR LF pairs. */
  method ConvertEols(buffer: array<Unit>, at: nat, n: nat)
    requires at + n <= buffer.Length && NoCrLf(buffer[at..at + n])
    modifies buffer
    ensures buffer[..at] == old(buffer[..at])
    ensures buffer[at..at + n] == LfOnly(old(buffer[at..at + n]))
  {
    ghost var was := buffer[at..at + n];
    var lead := at;
    while lead < at + n
      invariant at <= lead <= at + n
      invariant buffer[..at] == old(buffer[..at])
      invariant forall i :: at <= i < at + n ==> buffer[i] == if i < lead && was[i - at] == CR then NL else was[i - at]
    {
      if buffer[lead] == CR && !(lead + 1 < at + n && buffer[lead + 1] == NL) {
        buffer[lead] := NL;
      }
      lead := lead + 1;
    }
  }
}
