/** A reference decoder for the `mappings` field of a source map, after ECMA-426, "Mappings structure". */
module Mappings {
  import opened Options
  import opened Sequences
  import opened Vlq

  datatype Token = Semi | Comma | Num(n: int)

  function EncodeToken(t: Token): seq<Byte> {
    match t
    case Semi => [SEMICOLON]
    case Comma => [COMMA]
    case Num(n) => EncodeVlq(n)
  }

  function Encode(ts: seq<Token>): seq<Byte> {
    if ts == [] then [] else EncodeToken(ts[0]) + Encode(ts[1..])
  }

  /** Separators and numbers; None when the text is malformed. */
  function Tokenize(bs: seq<Byte>): Option<seq<Token>>
    decreases |bs|
  {
    if bs == [] then Some([])
    else if bs[0] == SEMICOLON then Prepend(Semi, Tokenize(bs[1..]))
    else if bs[0] == COMMA then Prepend(Comma, Tokenize(bs[1..]))
    else
      match ReadVlq(bs)
      case None => None
      case Some(Read(n, used)) => Prepend(Num(n), Tokenize(bs[used..]))
  }

  function Prepend(t: Token, ts: Option<seq<Token>>): Option<seq<Token>> {
    match ts
    case None => None
    case Some(rest) => Some([t] + rest)
  }

  /** Where a position of the generated text comes from. */
  datatype Origin = Origin(src: int, line: int, col: int)

  datatype Segment = Segment(line: nat, col: int, origin: Option<Origin>)

  /** The running totals, and the fields of the segment being read. */
  datatype Decoder = Decoder(line: nat, col: int, src: int, srcLine: int, srcCol: int, fields: seq<int>)

  const START := Decoder(0, 0, 0, 0, 0, [])

  /** The end of a segment: 1, 4 or 5 fields, each relative to the previous one of its kind. */
  function EndSegment(d: Decoder): Option<(Decoder, seq<Segment>)> {
    var f := d.fields;
    if f == [] then Some((d, []))
    else if |f| == 1 then
      Some((d.(col := d.col + f[0], fields := []), [Segment(d.line, d.col + f[0], None)]))
    else if |f| == 4 || |f| == 5 then
      var d' := Decoder(d.line, d.col + f[0], d.src + f[1], d.srcLine + f[2], d.srcCol + f[3], []);
      Some((d', [Segment(d.line, d'.col, Some(Origin(d'.src, d'.srcLine, d'.srcCol)))]))
    else None
  }

  function DecodeToken(d: Decoder, t: Token): Option<(Decoder, seq<Segment>)> {
    match t
    case Num(n) => Some((d.(fields := d.fields + [n]), []))
    case Comma => EndSegment(d)
    case Semi =>
      match EndSegment(d)
      case None => None
      case Some((d', segs)) => Some((d'.(line := d.line + 1, col := 0), segs))
  }

  function DecodeTokens(d: Decoder, ts: seq<Token>): Option<(Decoder, seq<Segment>)>
    decreases |ts|
  {
    if ts == [] then Some((d, [])) else
      match DecodeToken(d, ts[0])
      case None => None
      case Some((d1, segs)) =>
        match DecodeTokens(d1, ts[1..])
        case None => None
        case Some((d2, more)) => Some((d2, segs + more))
  }

  function DecodeAll(ts: seq<Token>): Option<seq<Segment>> {
    match DecodeTokens(START, ts)
    case None => None
    case Some((d, segs)) =>
      match EndSegment(d)
      case None => None
      case Some((_, last)) => Some(segs + last)
  }

  /** All segments of a mappings text, in order, in absolute coordinates. */
  function Decode(bs: seq<Byte>): Option<seq<Segment>> {
    match Tokenize(bs)
    case None => None
    case Some(ts) => DecodeAll(ts)
  }

  // ---- laws ----

  predicate Small(n: int) {
    -0x4000_0000 < n < 0x4000_0000
  }

  predicate Encodable(ts: seq<Token>) {
    forall i :: 0 <= i < |ts| && ts[i].Num? ==> Small(ts[i].n)
  }

  lemma {:induction false} EncodeAppend(a: seq<Token>, b: seq<Token>)
    ensures Encode(a + b) == Encode(a) + Encode(b)
    decreases |a|
  {
    hide EncodeToken;
    if a == [] {
      assert a + b == b;
    } else {
      EncodeAppend(a[1..], b);
      assert (a + b)[0] == a[0] && (a + b)[1..] == a[1..] + b;
      Assoc(EncodeToken(a[0]), Encode(a[1..]), Encode(b));
    }
  }

  /** Tokens written with addVLQ and addByte are read back. */
  lemma {:induction false} TokenizeEncode(ts: seq<Token>)
    requires Encodable(ts)
    ensures Tokenize(Encode(ts)) == Some(ts)
    decreases |ts|
  {
    if ts != [] {
      TokenizeEncode(ts[1..]);
      var t, bs := ts[0], Encode(ts);
      assert bs == EncodeToken(t) + Encode(ts[1..]);
      assert [t] + ts[1..] == ts;
      if t.Num? {
        VlqRoundTrip(t.n, Encode(ts[1..]));
        FirstIsDigit(t.n);
        assert bs[0] == EncodeVlq(t.n)[0];
        assert bs[|EncodeVlq(t.n)|..] == Encode(ts[1..]);
      } else {
        assert bs[1..] == Encode(ts[1..]);
      }
    }
  }

  lemma FirstIsDigit(n: int)
    ensures EncodeVlq(n) != [] && EncodeVlq(n)[0] != SEMICOLON && EncodeVlq(n)[0] != COMMA
  {
  }

  lemma {:induction false} DecodeAppend(d: Decoder, a: seq<Token>, b: seq<Token>)
    requires DecodeTokens(d, a).Some?
    ensures var (d1, s1) := DecodeTokens(d, a).value;
      DecodeTokens(d, a + b) ==
      match DecodeTokens(d1, b) case None => None case Some((d2, s2)) => Some((d2, s1 + s2))
    decreases |a|
  {
    if a == [] {
      assert a + b == b;
      var r := DecodeTokens(d, b);
      if r.Some? {
        assert [] + r.value.1 == r.value.1;
      }
    } else {
      var (d1, s0) := DecodeToken(d, a[0]).value;
      assert (a + b)[0] == a[0] && (a + b)[1..] == a[1..] + b;
      DecodeAppend(d1, a[1..], b);
      var (d2, s1) := DecodeTokens(d1, a[1..]).value;
      var r := DecodeTokens(d2, b);
      if r.Some? {
        Assoc(s0, s1, r.value.1);
      }
    }
  }

  /** Lines are counted by semicolons alone. */
  function Semis(ts: seq<Token>): nat {
    if ts == [] then 0 else (if ts[0].Semi? then 1 else 0) + Semis(ts[1..])
  }

  lemma {:induction false} DecodedLines(d: Decoder, ts: seq<Token>)
    requires DecodeTokens(d, ts).Some?
    ensures DecodeTokens(d, ts).value.0.line == d.line + Semis(ts)
    decreases |ts|
  {
    if ts != [] {
      DecodedLines(DecodeToken(d, ts[0]).value.0, ts[1..]);
    }
  }

  function Count(b: Byte, bs: seq<Byte>): nat {
    if bs == [] then 0 else (if bs[0] == b then 1 else 0) + Count(b, bs[1..])
  }

  lemma {:induction false} CountAppend(b: Byte, xs: seq<Byte>, ys: seq<Byte>)
    ensures Count(b, xs + ys) == Count(b, xs) + Count(b, ys)
    decreases |xs|
  {
    if xs == [] {
      assert xs + ys == ys;
    } else {
      assert (xs + ys)[1..] == xs[1..] + ys;
      CountAppend(b, xs[1..], ys);
    }
  }

  lemma {:induction false} CountNone(b: Byte, xs: seq<Byte>)
    requires forall i :: 0 <= i < |xs| ==> xs[i] != b
    ensures Count(b, xs) == 0
  {
    if xs != [] {
      CountNone(b, xs[1..]);
    }
  }

  lemma {:induction false} SemisAreSemicolons(ts: seq<Token>)
    ensures Count(SEMICOLON, Encode(ts)) == Semis(ts)
    decreases |ts|
  {
    if ts != [] {
      SemisAreSemicolons(ts[1..]);
      CountAppend(SEMICOLON, EncodeToken(ts[0]), Encode(ts[1..]));
      if ts[0].Num? {
        var bs, ds := EncodeVlq(ts[0].n), Digits(SignFolded(ts[0].n));
        forall i | 0 <= i < |bs| ensures bs[i] != SEMICOLON {
          AlphabetRoundTrip(ds[i], 0);
        }
        CountNone(SEMICOLON, bs);
      }
    }
  }
}
