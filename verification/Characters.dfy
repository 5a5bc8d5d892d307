/**
 The characters of scanned text: the units that the scanner lets pass are the
 UTF-16 form of the code points that are allowed, and columns count these.
 */
module Characters {
  import opened Units
  import opened Wrappers
  import opened Lexer
  import opened Columns
  import opened TokenRoundTrip

  type CodePoint = c: int | 0 <= c < 0x11_0000

  /** Neither a control character nor a surrogate, a byte-order mark or a code point that is no character. */
  predicate Allowed(c: CodePoint) {
    && (0x20 <= c < 0x7F || 0xA0 <= c || c in {0x09, 0x0A, 0x0D})
    && !(0xD800 <= c < 0xE000) && c != 0xFEFF && !(0xFDD0 <= c < 0xFDF0) && c % 0x1_0000 < 0xFFFE
  }

  predicate AllAllowed(cs: seq<CodePoint>) {
    forall i :: 0 <= i < |cs| ==> Allowed(cs[i])
  }

  function Units16(c: CodePoint): (t: Text)
    ensures |t| == if c < 0x1_0000 then 1 else 2
  {
    if c < 0x1_0000 then [c] else [0xD800 + (c - 0x1_0000) / 0x400, 0xDC00 + (c - 0x1_0000) % 0x400]
  }

  /** UTF-16 */
  function Encoded(cs: seq<CodePoint>): Text {
    if cs == [] then [] else Units16(cs[0]) + Encoded(cs[1..])
  }

  /** The code point of a pair of surrogates. */
  function PairPoint(lead: Unit, trail: Unit): (c: CodePoint)
    requires IsLead(lead) && IsTrail(trail)
    ensures c >= 0x1_0000
  {
    var high, low: int := lead - 0xD800, trail - 0xDC00;
    0x1_0000 + high * 0x400 + low
  }

  lemma {:induction false} PairSplit(lead: Unit, trail: Unit)
    requires IsLead(lead) && IsTrail(trail)
    ensures Units16(PairPoint(lead, trail)) == [lead, trail]
  {
    var high, low: int := lead - 0xD800, trail - 0xDC00;
    assert (high * 0x400 + low) / 0x400 == high && (high * 0x400 + low) % 0x400 == low;
  }

  /** A pair of surrogates is at the end of a plane iff the last sixteen bits of its code point are. */
  lemma {:induction false} PairMeaning(lead: Unit, trail: Unit)
    requires IsLead(lead) && IsTrail(trail)
    ensures PlaneEnd(lead, trail) <==> PairPoint(lead, trail) % 0x1_0000 >= 0xFFFE
  {
    var plane, part := (lead - 0xD800) / 64, lead % 64;
    var low := part * 0x400 + (trail - 0xDC00);
    assert lead == 0xD800 + 64 * plane + part;
    assert PairPoint(lead, trail) == (1 + plane) * 0x1_0000 + low && 0 <= low < 0x1_0000;
  }

  /** Which unit may come where no lead surrogate is pending, and which code point it starts. */
  lemma {:induction false} UnitMeaning(c: Unit)
    ensures !IsTrail(c) && !IsLead(c) ==> (NextLead(0, c) == Ok(0) <==> Allowed(c)) && (NextLead(0, c).Ok? <==> Allowed(c))
    ensures IsLead(c) ==> NextLead(0, c) == Ok(c)
    ensures IsTrail(c) ==> NextLead(0, c).Err?
  {
  }

  /** A lead surrogate comes before a trail surrogate. */
  lemma {:induction false} PairNeeded(t: Text)
    requires t != [] && Clean(t) && IsLead(t[0])
    ensures |t| >= 2 && IsTrail(t[1]) && !PlaneEnd(t[0], t[1]) && Clean(t[1..][1..])
  {
    UnitMeaning(t[0]);
    assert CleanFrom(t[0], t[1..]) && t[0] != 0;
    assert t[1..] != [] && t[1..][0] == t[1];
  }

  /** The code points of valid text. */
  lemma {:induction false} Decoded(t: Text) returns (cs: seq<CodePoint>)
    requires Clean(t)
    ensures AllAllowed(cs) && Encoded(cs) == t
    decreases |t|
  {
    cs := [];
    if t != [] {
      UnitMeaning(t[0]);
      var others;
      if IsLead(t[0]) {
        PairNeeded(t);
        PairMeaning(t[0], t[1]);
        PairSplit(t[0], t[1]);
        others := Decoded(t[1..][1..]);
        assert t == [t[0], t[1]] + t[1..][1..];
        cs := [PairPoint(t[0], t[1])] + others;
      } else {
        others := Decoded(t[1..]);
        assert t == [t[0]] + t[1..];
        cs := [t[0]] + others;
      }
      assert cs[1..] == others;
    }
  }

  lemma {:induction false} EncodedClean(cs: seq<CodePoint>)
    requires AllAllowed(cs)
    ensures Clean(Encoded(cs))
  {
    if cs != [] {
      EncodedClean(cs[1..]);
      FirstClean(cs[0], Encoded(cs[1..]));
    }
  }

  lemma {:induction false} FirstClean(c: CodePoint, t: Text)
    requires Allowed(c) && Clean(t)
    ensures Clean(Units16(c) + t)
  {
    var u := Units16(c) + t;
    UnitMeaning(u[0]);
    if c < 0x1_0000 {
      assert u[1..] == t;
    } else {
      assert PairPoint(u[0], u[1]) == c;
      PairMeaning(u[0], u[1]);
      assert u[1..][0] == u[1] && u[1..][1..] == t;
    }
  }

  /** Text is let pass if and only if it is the UTF-16 form of allowed code points. */
  lemma {:induction false} CleanMeaning(t: Text)
    ensures Clean(t) <==> exists cs :: AllAllowed(cs) && Encoded(cs) == t
  {
    if Clean(t) {
      var cs := Decoded(t);
    }
    if cs :| AllAllowed(cs) && Encoded(cs) == t {
      EncodedClean(cs);
    }
  }

  /** Within a line, columns count code points. */
  lemma {:induction false} ColumnCounts(column: int, cs: seq<CodePoint>)
    requires AllAllowed(cs) && 0x0A !in cs && 0x0D !in cs
    ensures ColumnAfter(column, Encoded(cs)) == column + |cs|
    decreases |cs|
  {
    if cs != [] {
      var t := Encoded(cs[1..]);
      ColumnCounts(column + 1, cs[1..]);
      ColumnConcat(column, Units16(cs[0]), t);
      CodePointColumn(column, cs[0]);
    }
  }

  lemma {:induction false} CodePointColumn(column: int, c: CodePoint)
    requires Allowed(c) && c != 0x0A && c != 0x0D
    ensures ColumnAfter(column, Units16(c)) == column + 1
  {
    var t := Units16(c);
    if c >= 0x1_0000 {
      assert t[1..] == [t[1]] && t[1..][1..] == [];
      assert ColumnAfter(ColumnOver(column, t[0]), t[1..]) == ColumnOver(ColumnOver(column, t[0]), t[1]);
    }
  }

  /** The units that end tokens: white space with its line terminators, and the brackets. */
  lemma {:induction false} MetaMeaning(c: Unit)
    ensures MetaOf(c) == WsMeta <==> c in {0x20, 0x09, 0x0A, 0x0D}
    ensures MetaOf(c) == OpenMeta <==> c in {'[' as int, '{' as int}
    ensures MetaOf(c) == CloseMeta <==> c in {']' as int, '}' as int}
    ensures MetaOf(c) == NoMeta ==> NextLead(0, c).Err?
  {
  }
}
