/** SourceMapBuilder.addSource as a function, and the proof that it preserves the meaning of the mappings. */
module SourceMapModel {
  import opened Options
  import opened Sequences
  import opened Vlq
  import opened Mappings

  // ---- sources ----

  const NEWLINE: Byte := 10

  /** The map of a bundle, as toSourceMap gives it. */
  datatype SourceMap = SourceMap(root: Option<string>, sources: seq<string>, mappings: seq<Byte>)

  datatype Source = Source(
    content: seq<Byte>, lines: nat, root: Option<string>, sources: seq<string>, mappings: seq<Byte>)

  /** The constructor of Source: the content is made to end with a newline unless it is empty. */
  function MakeSource(
    content: seq<Byte>, root: Option<string>, sources: seq<string>, mappings: seq<Byte>): Source
  {
    var n := Count(NEWLINE, content);
    if |content| > 0 && content[|content| - 1] != NEWLINE
    then Source(content + [NEWLINE], n + 1, root, sources, mappings)
    else Source(content, n, root, sources, mappings)
  }

  /** sourceLines is the number of newlines of the stored content, which never ends in mid-line. */
  lemma SourceLinesExact(content: seq<Byte>, root: Option<string>, sources: seq<string>, mappings: seq<Byte>)
    ensures var s := MakeSource(content, root, sources, mappings);
      && s.lines == Count(NEWLINE, s.content)
      && (s.content == [] || s.content[|s.content| - 1] == NEWLINE)
      && (s.content == content || s.content == content + [NEWLINE])
      && (content != [] && content[|content| - 1] == NEWLINE ==> s.content == content)
      && s.root == root && s.sources == sources && s.mappings == mappings
  {
    CountAppend(NEWLINE, content, [NEWLINE]);
  }

  // ---- remapping source names ----

  /** Array.indexOf, or the length when absent. */
  function IndexOf(names: seq<string>, v: string): (i: nat)
    ensures i <= |names| && (i < |names| ==> names[i] == v)
    ensures v !in names[..i]
  {
    if names == [] then 0 else if names[0] == v then 0 else 1 + IndexOf(names[1..], v)
  }

  datatype Remapped = Remapped(names: seq<string>, remap: seq<nat>)

  function AddName(r: Remapped, v: string): Remapped {
    var pos := IndexOf(r.names, v);
    Remapped(if pos == |r.names| then r.names + [v] else r.names, r.remap + [pos])
  }

  function AddNames(r: Remapped, vs: seq<string>): Remapped
    decreases |vs|
  {
    if vs == [] then r else AddNames(AddName(r, vs[0]), vs[1..])
  }

  /** From `start` on, the indices lead to the names `vs`. */
  ghost predicate LeadsTo(r: Remapped, start: nat, vs: seq<string>) {
    && |r.remap| == start + |vs|
    && forall i :: start <= i < start + |vs| ==> r.remap[i] < |r.names| && r.names[r.remap[i]] == vs[i - start]
  }

  /** Old names and indices stay as they are, every new index leads to its name, and no other name comes in. */
  lemma {:induction false} AddNamesSound(r: Remapped, vs: seq<string>)
    ensures r.names <= AddNames(r, vs).names && |AddNames(r, vs).names| <= |r.names| + |vs|
    ensures r.remap <= AddNames(r, vs).remap
    ensures LeadsTo(AddNames(r, vs), |r.remap|, vs)
    ensures forall x :: x in AddNames(r, vs).names ==> x in r.names || x in vs
    decreases |vs|
  {
    hide IndexOf;
    if vs != [] {
      var r1 := AddName(r, vs[0]);
      AddNamesSound(r1, vs[1..]);
      var r', n := AddNames(r1, vs[1..]), |r.remap|;
      assert r'.remap[n] == r1.remap[n];
      forall i | n <= i < n + |vs| ensures r'.remap[i] < |r'.names| && r'.names[r'.remap[i]] == vs[i - n] {
        assert i > n ==> vs[i - n] == vs[1..][i - (n + 1)];
      }
    }
  }

  /** No file is listed twice. */
  lemma {:induction false} AddNamesDistinct(r: Remapped, vs: seq<string>)
    requires NoDuplicates(r.names)
    ensures NoDuplicates(AddNames(r, vs).names)
    decreases |vs|
  {
    if vs != [] {
      var pos := IndexOf(r.names, vs[0]);
      if pos == |r.names| {
        assert r.names[..pos] == r.names;
      }
      AddNamesDistinct(AddName(r, vs[0]), vs[1..]);
    }
  }

  // ---- the loop of addSource ----

  /**
   * The loop variables of addSource and the last* fields of the builder; `lastIndex` is None, undefined in the
   * original, after a segment whose source index lies outside its map.
   */
  datatype Cursor = Cursor(
    line: nat, col: int, src: int, srcLine: int, srcCol: int, valpos: nat,
    lastOutputCol: int, lastIndex: Option<int>, lastLine: int, lastCol: int)

  /** The place of a source index among the builder's names, if it has one. */
  function OutIndex(src: int, remap: seq<nat>): Option<int> {
    if 0 <= src < |remap| then Some(remap[src]) else None
  }

  /** The difference of two source indices; NaN, if one is undefined, is written as zero. */
  function IndexDelta(out: Option<int>, last: Option<int>): int {
    if out.Some? && last.Some? then out.value - last.value else 0
  }

  /** commit(): the numbers it writes for the segment read so far. */
  function Commit(c: Cursor, remap: seq<nat>): (Cursor, seq<Token>) {
    if c.valpos == 0 then (c, []) else
      var first := Num(c.col - c.lastOutputCol);
      if c.valpos == 1 then (c.(lastOutputCol := c.col, valpos := 0), [first])
      else
        var out := OutIndex(c.src, remap);
        (c.(lastOutputCol := c.col, lastIndex := out, lastLine := c.srcLine, lastCol := c.srcCol, valpos := 0),
         [first, Num(IndexDelta(out, c.lastIndex)), Num(c.srcLine - c.lastLine), Num(c.srcCol - c.lastCol)])
  }

  function TakeNumber(c: Cursor, n: int): Cursor {
    var c' := c.(valpos := c.valpos + 1);
    if c.valpos == 0 then c'.(col := c.col + n)
    else if c.valpos == 1 then c'.(src := c.src + n)
    else if c.valpos == 2 then c'.(srcLine := c.srcLine + n)
    else if c.valpos == 3 then c'.(srcCol := c.srcCol + n)
    else c'
  }

  function NextLine(c: Cursor): Cursor {
    c.(col := 0, lastOutputCol := 0, line := c.line + 1)
  }

  /** The loop state: the cursor, the number being read, and the output mappings so far. */
  datatype Loop = Loop(cursor: Cursor, part: Partial, out: seq<Byte>)

  const FRESH := Partial(0, 0)

  /** A byte that addSource takes: a separator, or a character of the table. */
  predicate Legal(b: Byte) {
    b == SEMICOLON || b == COMMA || CharToInteger(b) != 255
  }

  /** None: addSource throws. */
  function StepByte(l: Loop, remap: seq<nat>, b: Byte): Option<Loop> {
    if b == SEMICOLON || b == COMMA then
      var (c, ts) := Commit(l.cursor, remap);
      Some(Loop(if b == SEMICOLON then NextLine(c) else c, l.part, l.out + Encode(ts) + [b]))
    else if CharToInteger(b) == 255 then None
    else
      var p := Accumulate(l.part, CharToInteger(b));
      if HasMore(CharToInteger(b)) then Some(l.(part := p.(shift := p.shift + 5)))
      else Some(l.(cursor := TakeNumber(l.cursor, Finished(p.value)), part := FRESH))
  }

  function RunBytes(l: Loop, remap: seq<nat>, bs: seq<Byte>): Option<Loop>
    decreases |bs|
  {
    if bs == [] then Some(l) else
      match StepByte(l, remap, bs[0])
      case Some(l1) => RunBytes(l1, remap, bs[1..])
      case None => None
  }

  // ---- the builder ----

  datatype Builder = Builder(
    output: seq<Byte>, sources: seq<string>, mappings: seq<Byte>,
    lastIndex: Option<int>, lastLine: int, lastCol: int)

  const EMPTY := Builder([], [], [], Some(0), 0, 0)

  function Semicolons(n: int): seq<Byte>
    decreases n
  {
    if n <= 0 then [] else Semicolons(n - 1) + [SEMICOLON]
  }

  function StartLoop(b: Builder): Loop {
    Loop(Cursor(0, 0, 0, 0, 0, 0, 0, b.lastIndex, b.lastLine, b.lastCol), FRESH, b.mappings)
  }

  /** The final commit and the padding up to sourceLines. */
  function FinishLoop(l: Loop, remap: seq<nat>, lines: nat): Loop {
    var (c, ts) := Commit(l.cursor, remap);
    Loop(c, l.part, l.out + Encode(ts) + Semicolons(lines - c.line))
  }

  /** addSource; None when it throws. */
  function AddSource(b: Builder, s: Source): Option<Builder> {
    var r := AddNames(Remapped(b.sources, []), s.sources);
    match RunBytes(StartLoop(b), r.remap, s.mappings)
    case None => None
    case Some(l) =>
      var Loop(c, _, out) := FinishLoop(l, r.remap, s.lines);
      Some(Builder(b.output + s.content, r.names, out, c.lastIndex, c.lastLine, c.lastCol))
  }

  function AddSources(b: Builder, ss: seq<Source>): Option<Builder>
    decreases |ss|
  {
    if ss == [] then Some(b) else
      match AddSource(b, ss[0])
      case Some(b1) => AddSources(b1, ss[1..])
      case None => None
  }

  // ---- from bytes to tokens ----

  function StepToken(c: Cursor, remap: seq<nat>, t: Token): (Cursor, seq<Token>) {
    if t.Num? then (TakeNumber(c, t.n), []) else
      var (c', ts) := Commit(c, remap);
      (if t.Semi? then NextLine(c') else c', ts + [t])
  }

  function RunTokens(c: Cursor, remap: seq<nat>, ts: seq<Token>): (Cursor, seq<Token>)
    decreases |ts|
  {
    if ts == [] then (c, []) else
      var (c1, o1) := StepToken(c, remap, ts[0]);
      var (c2, o2) := RunTokens(c1, remap, ts[1..]);
      (c2, o1 + o2)
  }

  /** The bytes of one number move the loop by exactly that number. */
  lemma {:induction false} RunDigits(l: Loop, remap: seq<nat>, bs: seq<Byte>, rest: seq<Byte>)
    requires ReadDigits(bs + rest).Some? && ReadDigits(bs + rest).value.used == |bs|
    ensures RunBytes(l, remap, bs + rest) ==
      RunBytes(l.(cursor := TakeNumber(l.cursor, Finished(Absorb(l.part, bs).value)), part := FRESH), remap, rest)
    decreases |bs|
  {
    hide TakeNumber, Finished, Accumulate, Commit, HasMore;
    assert bs != [] && (bs + rest)[0] == bs[0] && (bs + rest)[1..] == bs[1..] + rest;
    var d := CharToInteger(bs[0]);
    assert bs[0] != SEMICOLON && bs[0] != COMMA;
    MoreDigits(d);
    if d < 32 {
      assert bs[1..] == [] && bs[1..] + rest == rest;
    } else {
      var p := Accumulate(l.part, d);
      RunDigits(l.(part := p.(shift := p.shift + 5)), remap, bs[1..], rest);
    }
  }

  /** One number: the digits of the text against the number of the format. */
  lemma RunNumber(c: Cursor, out: seq<Byte>, remap: seq<nat>, bs: seq<Byte>)
    requires ReadVlq(bs).Some?
    ensures var Read(n, used) := ReadVlq(bs).value;
      RunBytes(Loop(c, FRESH, out), remap, bs) == RunBytes(Loop(TakeNumber(c, n), FRESH, out), remap, bs[used..])
  {
    hide TakeNumber, Finished, Absorb, RunBytes, Unfold;
    var used, raw := ReadVlq(bs).value.used, ReadDigits(bs).value.value;
    assert bs == bs[..used] + bs[used..];
    assert Pow2(FRESH.shift) == 1;
    AbsorbDigits(FRESH, bs[..used], bs[used..]);
    FinishedIsUnfold(raw);
    RunDigits(Loop(c, FRESH, out), remap, bs[..used], bs[used..]);
  }

  /** On well-formed text, the byte loop does what the token loop does. */
  lemma {:induction false} RunBytesTokens(c: Cursor, out: seq<Byte>, remap: seq<nat>, bs: seq<Byte>, ts: seq<Token>)
    requires Tokenize(bs) == Some(ts)
    ensures var (c', o) := RunTokens(c, remap, ts);
      RunBytes(Loop(c, FRESH, out), remap, bs) == Some(Loop(c', FRESH, out + Encode(o)))
    decreases |bs|
  {
    hide Commit, TakeNumber, ReadVlq;
    if bs == [] {
      assert out + Encode([]) == out;
    } else {
      var (c1, o1) := StepToken(c, remap, ts[0]);
      if bs[0] == SEMICOLON || bs[0] == COMMA {
        assert Tokenize(bs[1..]) == Some(ts[1..]);
        var (c0, o0) := Commit(c, remap);
        var out1 := out + Encode(o0) + [bs[0]];
        EncodeAppend(o0, [ts[0]]);
        assert Encode([ts[0]]) == [bs[0]];
        RunBytesTokens(c1, out1, remap, bs[1..], ts[1..]);
        JoinOutput(out, o1, RunTokens(c1, remap, ts[1..]).1, out1);
      } else {
        var used := ReadVlq(bs).value.used;
        assert Tokenize(bs[used..]) == Some(ts[1..]);
        RunNumber(c, out, remap, bs);
        RunBytesTokens(c1, out, remap, bs[used..], ts[1..]);
        assert o1 + RunTokens(c1, remap, ts[1..]).1 == RunTokens(c1, remap, ts[1..]).1;
      }
    }
  }

  lemma JoinOutput(out: seq<Byte>, o1: seq<Token>, o2: seq<Token>, out1: seq<Byte>)
    requires out1 == out + Encode(o1)
    ensures out1 + Encode(o2) == out + Encode(o1 + o2)
  {
    hide Encode;
    EncodeAppend(o1, o2);
    Assoc(out, Encode(o1), Encode(o2));
  }

  // ---- simulation: the decoder of the input beside the decoder of the output ----

  function Field(fields: seq<int>, i: nat): int {
    if i < |fields| then fields[i] else 0
  }

  /** Between two tokens: `din` has read the input so far, `dout` the output written so far. */
  ghost predicate InStep(c: Cursor, din: Decoder, dout: Decoder, offset: nat) {
    && dout.fields == []
    && dout.line == din.line + offset
    && dout.col == din.col == c.lastOutputCol
    && Some(dout.src) == c.lastIndex && dout.srcLine == c.lastLine && dout.srcCol == c.lastCol
    && c.line == din.line
    && c.valpos == |din.fields|
    && c.col == din.col + Field(din.fields, 0)
    && c.src == din.src + Field(din.fields, 1)
    && c.srcLine == din.srcLine + Field(din.fields, 2)
    && c.srcCol == din.srcCol + Field(din.fields, 3)
  }

  predicate Coordinate(n: int) {
    0 <= n < 0x4000_0000
  }

  /** A segment whose coordinates and source index are in range. */
  predicate InRange(g: Segment, nSources: nat) {
    && Coordinate(g.col)
    && (g.origin.Some? ==>
          0 <= g.origin.value.src < nSources && Coordinate(g.origin.value.line) && Coordinate(g.origin.value.col))
  }

  predicate AllInRange(gs: seq<Segment>, nSources: nat) {
    forall i :: 0 <= i < |gs| ==> InRange(gs[i], nSources)
  }

  /** The last values written are coordinates themselves, so that differences can be encoded. */
  ghost predicate Bounded(dout: Decoder) {
    Coordinate(dout.col) && Coordinate(dout.src) && Coordinate(dout.srcLine) && Coordinate(dout.srcCol)
  }

  predicate RemapOk(remap: seq<nat>) {
    forall i :: 0 <= i < |remap| ==> Coordinate(remap[i])
  }

  /** A segment moved down by `offset` lines, with its source index remapped. */
  function Moved(g: Segment, offset: nat, remap: seq<nat>): Segment
    requires InRange(g, |remap|)
  {
    Segment(g.line + offset, g.col,
            if g.origin.None? then None else Some(g.origin.value.(src := remap[g.origin.value.src])))
  }

  function MovedAll(gs: seq<Segment>, offset: nat, remap: seq<nat>): (r: seq<Segment>)
    requires AllInRange(gs, |remap|)
    ensures |r| == |gs|
  {
    seq(|gs|, i requires 0 <= i < |gs| => Moved(gs[i], offset, remap))
  }

  /** A commit writes the segment that the input decoder has just finished. */
  lemma CommitSimulates(c: Cursor, din: Decoder, dout: Decoder, offset: nat, remap: seq<nat>)
    requires InStep(c, din, dout, offset) && Bounded(dout) && RemapOk(remap)
    requires EndSegment(din).Some? && AllInRange(EndSegment(din).value.1, |remap|)
    ensures var (c', o) := Commit(c, remap);
      var (din', gs) := EndSegment(din).value;
      && Encodable(o)
      && DecodeTokens(dout, o).Some?
      && var dmid := DecodeTokens(dout, o).value.0;
      && DecodeTokens(dout, o).value.1 == []
      && EndSegment(dmid).Some?
      && var (dout', gs') := EndSegment(dmid).value;
      && InStep(c', din', dout', offset) && Bounded(dout') && dout'.line == dout.line
      && gs' == MovedAll(gs, offset, remap)
  {
    hide DecodeTokens;
    var (din', gs) := EndSegment(din).value;
    if |din.fields| > 0 {
      assert InRange(gs[0], |remap|);
    }
    var (_, o) := Commit(c, remap);
    ReadNumbers(dout, o);
  }

  function Values(o: seq<Token>): seq<int>
    requires forall i :: 0 <= i < |o| ==> o[i].Num?
  {
    seq(|o|, i requires 0 <= i < |o| => o[i].n)
  }

  /** Numbers only accumulate as fields. */
  lemma {:induction false} ReadNumbers(d: Decoder, o: seq<Token>)
    requires forall i :: 0 <= i < |o| ==> o[i].Num?
    ensures DecodeTokens(d, o) == Some((d.(fields := d.fields + Values(o)), []))
    decreases |o|
  {
    if o == [] {
      assert d.fields + Values(o) == d.fields;
    } else {
      ReadNumbers(d.(fields := d.fields + [o[0].n]), o[1..]);
      assert d.fields + [o[0].n] + Values(o[1..]) == d.fields + Values(o);
      var none: seq<Segment> := [];
      assert none + none == none;
    }
  }

  lemma TakeNumberInStep(c: Cursor, din: Decoder, dout: Decoder, offset: nat, n: int)
    requires InStep(c, din, dout, offset)
    ensures InStep(TakeNumber(c, n), din.(fields := din.fields + [n]), dout, offset)
  {
  }

  /** One token of the input against the tokens written for it. */
  lemma TokenSimulates(c: Cursor, din: Decoder, dout: Decoder, offset: nat, remap: seq<nat>, t: Token)
    requires InStep(c, din, dout, offset) && Bounded(dout) && RemapOk(remap)
    requires DecodeToken(din, t).Some? && AllInRange(DecodeToken(din, t).value.1, |remap|)
    ensures var (c', o) := StepToken(c, remap, t);
      var (din', gs) := DecodeToken(din, t).value;
      && Encodable(o)
      && DecodeTokens(dout, o).Some?
      && var (dout', gs') := DecodeTokens(dout, o).value;
      && InStep(c', din', dout', offset) && Bounded(dout')
      && gs' == MovedAll(gs, offset, remap)
  {
    hide Commit, DecodeTokens;
    if t.Num? {
      TakeNumberInStep(c, din, dout, offset, t.n);
      ReadNumbers(dout, []);
      assert dout.fields + Values([]) == dout.fields;
    } else {
      CommitSimulates(c, din, dout, offset, remap);
      var o := Commit(c, remap).1;
      DecodeAppend(dout, o, [t]);
      var dmid := DecodeTokens(dout, o).value.0;
      DecodeOne(dmid, t);
      var gs' := DecodeToken(dmid, t).value.1;
      assert [] + gs' == gs';
    }
  }

  lemma DecodeOne(d: Decoder, t: Token)
    ensures DecodeTokens(d, [t]) == DecodeToken(d, t)
  {
    assert [t][1..] == [];
    if DecodeToken(d, t).Some? {
      var gs := DecodeToken(d, t).value.1;
      assert gs + [] == gs;
    }
  }

  /**
   * A segment whose source index lies outside its map, and the first one behind it that has an index again, are
   * written with the source index that was written last.
   */
  lemma UnmappedKeepsIndex(c: Cursor, remap: seq<nat>, dout: Decoder)
    requires c.valpos >= 2 && dout.fields == [] && (OutIndex(c.src, remap).None? || c.lastIndex.None?)
    ensures var (c', o) := Commit(c, remap);
      && c'.lastIndex == (if 0 <= c.src < |remap| then Some(remap[c.src]) else None)
      && DecodeTokens(dout, o).Some?
      && EndSegment(DecodeTokens(dout, o).value.0).Some?
      && EndSegment(DecodeTokens(dout, o).value.0).value.0.src == dout.src
  {
    hide DecodeTokens;
    ReadNumbers(dout, Commit(c, remap).1);
  }

  /** The separators among the tokens. */
  function Separators(ts: seq<Token>): seq<Token> {
    if ts == [] then [] else (if ts[0].Num? then [] else [ts[0]]) + Separators(ts[1..])
  }

  lemma {:induction false} SeparatorsAppend(a: seq<Token>, b: seq<Token>)
    ensures Separators(a + b) == Separators(a) + Separators(b)
    decreases |a|
  {
    if a == [] {
      assert a + b == b;
    } else {
      assert (a + b)[0] == a[0] && (a + b)[1..] == a[1..] + b;
      SeparatorsAppend(a[1..], b);
    }
  }

  lemma {:induction false} NumbersSeparateNothing(ts: seq<Token>)
    requires forall i :: 0 <= i < |ts| ==> ts[i].Num?
    ensures Separators(ts) == []
  {
    if ts != [] {
      NumbersSeparateNothing(ts[1..]);
    }
  }

  /** The output has the separators of the input, in order, and no others. */
  lemma {:induction false} SeparatorsKept(c: Cursor, remap: seq<nat>, ts: seq<Token>)
    ensures Separators(RunTokens(c, remap, ts).1) == Separators(ts)
    decreases |ts|
  {
    hide StepToken, Separators;
    if ts == [] {
      NumbersSeparateNothing([]);
    } else {
      var (c1, o1) := StepToken(c, remap, ts[0]);
      StepSeparators(c, remap, ts[0]);
      SeparatorsKept(c1, remap, ts[1..]);
      SeparatorsAppend(o1, RunTokens(c1, remap, ts[1..]).1);
      SeparatorsAppend([ts[0]], ts[1..]);
      assert [ts[0]] + ts[1..] == ts;
    }
  }

  lemma StepSeparators(c: Cursor, remap: seq<nat>, t: Token)
    ensures Separators(StepToken(c, remap, t).1) == Separators([t])
  {
    hide Commit, Separators;
    if t.Num? {
      NumbersSeparateNothing([]);
      NumbersSeparateNothing([t]);
    } else {
      var written := Commit(c, remap).1;
      CommitWritesNumbers(c, remap);
      NumbersSeparateNothing(written);
      SeparatorsAppend(written, [t]);
      assert [] + Separators([t]) == Separators([t]);
    }
  }

  lemma CommitWritesNumbers(c: Cursor, remap: seq<nat>)
    ensures forall i :: 0 <= i < |Commit(c, remap).1| ==> Commit(c, remap).1[i].Num?
    ensures |Commit(c, remap).1| == if c.valpos == 0 then 0 else if c.valpos == 1 then 1 else 4
  {
  }

  /** The whole input: the output decodes to the input's segments, moved and remapped. */
  lemma {:induction false} RunSimulates(
    c: Cursor, din: Decoder, dout: Decoder, offset: nat, remap: seq<nat>, ts: seq<Token>)
    requires InStep(c, din, dout, offset) && Bounded(dout) && RemapOk(remap)
    requires DecodeTokens(din, ts).Some? && AllInRange(DecodeTokens(din, ts).value.1, |remap|)
    ensures var (c', o) := RunTokens(c, remap, ts);
      var (din', gs) := DecodeTokens(din, ts).value;
      && Encodable(o)
      && DecodeTokens(dout, o).Some?
      && var (dout', gs') := DecodeTokens(dout, o).value;
      && InStep(c', din', dout', offset) && Bounded(dout')
      && gs' == MovedAll(gs, offset, remap)
    decreases |ts|
  {
    if ts != [] {
      var (din1, gs1) := DecodeToken(din, ts[0]).value;
      var (din2, gs2) := DecodeTokens(din1, ts[1..]).value;
      SplitRange(gs1, gs2, offset, remap);
      TokenSimulates(c, din, dout, offset, remap, ts[0]);
      var (c1, o1) := StepToken(c, remap, ts[0]);
      var dout1 := DecodeTokens(dout, o1).value.0;
      RunSimulates(c1, din1, dout1, offset, remap, ts[1..]);
      var (c2, o2) := RunTokens(c1, remap, ts[1..]);
      DecodeAppend(dout, o1, o2);
    }
  }

  lemma SplitRange(gs1: seq<Segment>, gs2: seq<Segment>, offset: nat, remap: seq<nat>)
    requires AllInRange(gs1 + gs2, |remap|)
    ensures AllInRange(gs1, |remap|) && AllInRange(gs2, |remap|)
    ensures MovedAll(gs1 + gs2, offset, remap) == MovedAll(gs1, offset, remap) + MovedAll(gs2, offset, remap)
  {
    forall i | 0 <= i < |gs1| ensures InRange(gs1[i], |remap|) {
      assert (gs1 + gs2)[i] == gs1[i];
    }
    forall i | 0 <= i < |gs2| ensures InRange(gs2[i], |remap|) {
      assert (gs1 + gs2)[|gs1| + i] == gs2[i];
    }
  }
}
