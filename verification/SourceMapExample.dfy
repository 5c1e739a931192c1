/** One mappings text read in full: what the format makes of the bytes CCEG;IDEA,KCFHE,K. */
module SourceMapExample {
  import opened Options
  import opened Vlq
  import opened Mappings
  import opened SourceMapModel

  const FIRST := [Num(1), Num(1), Num(2), Num(3)]
  const SECOND := [Num(4), Num(-1), Num(2), Num(0)]
  const THIRD := [Num(5), Num(1), Num(-2), Num(-3), Num(2)]
  const FOURTH := [Num(5)]

  function Tokens(): seq<Token> {
    FIRST + [Semi] + (SECOND + [Comma] + (THIRD + [Comma] + FOURTH))
  }

  const TEXT: seq<Byte> := [67, 67, 69, 71, 59] + ([73, 68, 69, 65, 44] + ([75, 67, 70, 72, 69, 44] + [75]))

  /** The segments: a first line with one, a second line with three, of which the last says nothing of its origin. */
  const SEGMENTS := [
    Segment(0, 1, Some(Origin(1, 2, 3))),
    Segment(1, 4, Some(Origin(0, 4, 3))),
    Segment(1, 9, Some(Origin(1, 2, 0))),
    Segment(1, 14, None)]

  lemma SmallNumber(n: int)
    requires -16 < n < 16
    ensures EncodeVlq(n) == [IntegerToChar(if n < 0 then 1 - 2 * n else 2 * n)]
  {
    SignFoldedRange(n);
  }

  lemma {:induction false} SmallNumbers(ts: seq<Token>)
    requires forall i :: 0 <= i < |ts| ==> ts[i].Num? && -16 < ts[i].n < 16
    ensures |Encode(ts)| == |ts|
    ensures forall i :: 0 <= i < |ts| ==>
      Encode(ts)[i] == IntegerToChar(if ts[i].n < 0 then 1 - 2 * ts[i].n else 2 * ts[i].n)
  {
    hide EncodeVlq, IntegerToChar;
    if ts != [] {
      SmallNumber(ts[0].n);
      SmallNumbers(ts[1..]);
    }
  }

  lemma WrittenFirst()
    ensures Encode(FIRST + [Semi]) == [67, 67, 69, 71, 59]
  {
    hide Encode;
    SmallNumbers(FIRST);
    EncodeAppend(FIRST, [Semi]);
    Separators();
  }

  lemma WrittenSecond()
    ensures Encode(SECOND + [Comma]) == [73, 68, 69, 65, 44]
  {
    hide Encode;
    SmallNumbers(SECOND);
    EncodeAppend(SECOND, [Comma]);
    Separators();
  }

  lemma WrittenRest()
    ensures Encode(THIRD + [Comma]) == [75, 67, 70, 72, 69, 44]
    ensures Encode(FOURTH) == [75]
  {
    hide Encode;
    SmallNumbers(THIRD);
    SmallNumbers(FOURTH);
    EncodeAppend(THIRD, [Comma]);
    Separators();
  }

  lemma Separators()
    ensures Encode([Semi]) == [59] && Encode([Comma]) == [44]
  {
  }

  lemma Written()
    ensures Encode(Tokens()) == TEXT && Encodable(Tokens())
  {
    hide Encode;
    WrittenFirst();
    WrittenSecond();
    WrittenRest();
    EncodeAppend(THIRD + [Comma], FOURTH);
    EncodeAppend(SECOND + [Comma], THIRD + [Comma] + FOURTH);
    EncodeAppend(FIRST + [Semi], SECOND + [Comma] + (THIRD + [Comma] + FOURTH));
  }

  /** The numbers of one segment and the separator behind them. */
  lemma ReadSegment(d: Decoder, ns: seq<Token>, sep: Token, rest: seq<Token>)
    requires d.fields == [] && forall i :: 0 <= i < |ns| ==> ns[i].Num?
    requires DecodeToken(d.(fields := Values(ns)), sep).Some?
    ensures var (d1, gs) := DecodeToken(d.(fields := Values(ns)), sep).value;
      DecodeTokens(d, ns + [sep] + rest) ==
        match DecodeTokens(d1, rest)
        case None => None
        case Some((d2, more)) => Some((d2, gs + more))
  {
    hide DecodeTokens, DecodeToken;
    ReadNumbers(d, ns);
    assert d.fields + Values(ns) == Values(ns);
    DecodeOne(d.(fields := Values(ns)), sep);
    DecodeAppend(d, ns, [sep]);
    var gs := DecodeToken(d.(fields := Values(ns)), sep).value.1;
    assert [] + gs == gs;
    DecodeAppend(d, ns + [sep], rest);
  }

  lemma ReadParts()
    ensures DecodeTokens(START, Tokens()) == Some((Decoder(1, 9, 1, 2, 0, [5]), SEGMENTS[..3]))
  {
    hide DecodeTokens;
    var d1, d2, d3 := Decoder(1, 0, 1, 2, 3, []), Decoder(1, 4, 0, 4, 3, []), Decoder(1, 9, 1, 2, 0, []);
    ReadNumbers(d3, FOURTH);
    assert d3.fields + Values(FOURTH) == [5];
    assert Values(FIRST) == [1, 1, 2, 3] && Values(SECOND) == [4, -1, 2, 0] && Values(THIRD) == [5, 1, -2, -3, 2];
    ReadSegment(d2, THIRD, Comma, FOURTH);
    ReadSegment(d1, SECOND, Comma, THIRD + [Comma] + FOURTH);
    var none: seq<Segment> := [];
    assert [SEGMENTS[0]] + ([SEGMENTS[1]] + ([SEGMENTS[2]] + none)) == SEGMENTS[..3];
    ReadSegment(START, FIRST, Semi, SECOND + [Comma] + (THIRD + [Comma] + FOURTH));
  }

  /** Each field is relative to the last one of its kind, the column starts again on a new line, a name is dropped. */
  lemma DecodedText()
    ensures Decode(TEXT) == Some(SEGMENTS)
  {
    hide DecodeTokens, Encode, Encodable, Tokenize;
    Written();
    TokenizeEncode(Tokens());
    ReadParts();
    assert SEGMENTS[..3] + [SEGMENTS[3]] == SEGMENTS;
  }
  /** A text that does not end a line is made to; one that does is stored as it is. */
  lemma StoredTexts(root: Option<string>, sources: seq<string>, mappings: seq<Byte>)
    ensures MakeSource([97], root, sources, mappings) == Source([97, 10], 1, root, sources, mappings)
    ensures MakeSource([97, 10], root, sources, mappings) == Source([97, 10], 1, root, sources, mappings)
    ensures MakeSource([], root, sources, mappings) == Source([], 0, root, sources, mappings)
  {
    CountAppend(NEWLINE, [97], [10]);
    assert [97] + [10] == [97, 10];
  }
}
