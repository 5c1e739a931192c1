/** Concatenating sources concatenates the meaning of their source maps. */
module SourceMapTheorems {
  import opened Options
  import opened Sequences
  import opened Vlq
  import opened Mappings
  import opened SourceMapModel

  // ---- padding ----

  function SemiTokens(n: nat): seq<Token> {
    if n == 0 then [] else SemiTokens(n - 1) + [Semi]
  }

  lemma {:induction false} EncodeSemis(n: nat)
    ensures Encode(SemiTokens(n)) == Semicolons(n) && Encodable(SemiTokens(n))
  {
    if n > 0 {
      EncodeSemis(n - 1);
      EncodeAppend(SemiTokens(n - 1), [Semi]);
    }
  }

  /** The first semicolon ends the segment, the others only count lines. */
  lemma {:induction false} DecodeSemis(d: Decoder, n: nat)
    requires n > 0 && EndSegment(d).Some?
    ensures var (d1, gs) := EndSegment(d).value;
      DecodeTokens(d, SemiTokens(n)) == Some((d1.(line := d.line + n, col := 0), gs))
  {
    hide DecodeTokens;
    var (d1, gs) := EndSegment(d).value;
    DecodeOneSemi(d);
    if n == 1 {
      assert SemiTokens(1) == [Semi];
    } else {
      DecodeSemis(d, n - 1);
      DecodeAppend(d, SemiTokens(n - 1), [Semi]);
      DecodeOneSemi(d1.(line := d.line + (n - 1), col := 0));
      assert gs + [] == gs;
    }
  }

  lemma DecodeOneSemi(d: Decoder)
    requires EndSegment(d).Some?
    ensures var (d1, gs) := EndSegment(d).value;
      DecodeTokens(d, [Semi]) == Some((d1.(line := d.line + 1, col := 0), gs))
  {
    hide EndSegment, DecodeTokens;
    DecodeOne(d, Semi);
  }

  lemma NoTokensLeft(d: Decoder)
    ensures DecodeTokens(d, []) == Some((d, []))
  {
  }

  /** A line without segments is left at column zero. */
  lemma {:induction false} EmptyLineColumn(d: Decoder, ts: seq<Token>)
    requires DecodeTokens(d, ts).Some?
    requires var (d', gs) := DecodeTokens(d, ts).value;
      && (d.col == 0 || d.line < d'.line)
      && forall i :: 0 <= i < |gs| ==> gs[i].line < d'.line
    ensures DecodeTokens(d, ts).value.0.col == 0
    decreases |ts|
  {
    if ts != [] {
      var (d1, gs1) := DecodeToken(d, ts[0]).value;
      var (d', gs2) := DecodeTokens(d1, ts[1..]).value;
      DecodedLines(d1, ts[1..]);
      forall i | 0 <= i < |gs2| ensures gs2[i].line < d'.line {
        assert (gs1 + gs2)[|gs1| + i] == gs2[i];
      }
      if gs1 != [] {
        assert (gs1 + gs2)[0] == gs1[0];
      }
      EmptyLineColumn(d1, ts[1..]);
    }
  }

  // ---- well-formed sources ----

  /** The segments lie on lines of the content, their coordinates and source indices are in range. */
  ghost predicate WellFormed(s: Source) {
    && s.lines == Count(NEWLINE, s.content)
    && Tokenize(s.mappings).Some?
    && Semis(Tokenize(s.mappings).value) <= s.lines
    && Decode(s.mappings).Some?
    && AllInRange(Decode(s.mappings).value, |s.sources|)
    && forall i :: 0 <= i < |Decode(s.mappings).value| ==> Decode(s.mappings).value[i].line < s.lines
  }

  /** `ts` are the tokens written so far, and d the decoder that has read them. */
  ghost predicate Written(b: Builder, ts: seq<Token>, d: Decoder, gs: seq<Segment>) {
    && b.mappings == Encode(ts) && Encodable(ts)
    && DecodeTokens(START, ts) == Some((d, gs))
    && d.fields == [] && d.col == 0 && Bounded(d)
    && Some(d.src) == b.lastIndex && d.srcLine == b.lastLine && d.srcCol == b.lastCol
    && d.line == Count(NEWLINE, b.output)
  }

  /** The end of addSource: final commit and padding. */
  lemma FinishSimulates(l: Loop, din: Decoder, dout: Decoder, offset: nat, remap: seq<nat>, lines: nat)
    returns (o: seq<Token>, dout': Decoder)
    requires InStep(l.cursor, din, dout, offset) && Bounded(dout) && RemapOk(remap)
    requires EndSegment(din).Some? && AllInRange(EndSegment(din).value.1, |remap|)
    requires din.line <= lines
    requires din.line == lines ==> din.col == 0 && din.fields == []
    ensures FinishLoop(l, remap, lines).out == l.out + Encode(o) && Encodable(o)
    ensures DecodeTokens(dout, o) == Some((dout', MovedAll(EndSegment(din).value.1, offset, remap)))
    ensures dout'.fields == [] && dout'.col == 0 && Bounded(dout') && dout'.line == offset + lines
    ensures CursorAt(FinishLoop(l, remap, lines).cursor, dout')
  {
    hide DecodeTokens, Encode, Semicolons, SemiTokens, MovedAll, AllInRange, RemapOk, Bounded, Commit;
    CommitSimulates(l.cursor, din, dout, offset, remap);
    var (c', o1) := Commit(l.cursor, remap);
    var n: nat := lines - c'.line;
    EncodeSemis(n);
    EncodeAppend(o1, SemiTokens(n));
    o := o1 + SemiTokens(n);
    assert l.out + (Encode(o1) + Semicolons(n)) == l.out + Encode(o1) + Semicolons(n);
    dout' := PaddedDecode(dout, o1, n);
    if n > 0 {
      BoundedColumn(EndSegment(DecodeTokens(dout, o1).value.0).value.0, dout');
    }
  }

  /** The builder's last* fields are the running totals of the decoder of its output. */
  ghost predicate CursorAt(c: Cursor, d: Decoder) {
    Some(d.src) == c.lastIndex && d.srcLine == c.lastLine && d.srcCol == c.lastCol
  }

  lemma BoundedColumn(d: Decoder, d': Decoder)
    requires Bounded(d) && d' == d.(line := d'.line, col := 0)
    ensures Bounded(d')
  {
  }

  /** A committed segment followed by n semicolons. */
  lemma PaddedDecode(dout: Decoder, o1: seq<Token>, n: nat) returns (dout': Decoder)
    requires DecodeTokens(dout, o1).Some? && DecodeTokens(dout, o1).value.1 == []
    requires EndSegment(DecodeTokens(dout, o1).value.0).Some?
    requires n == 0 ==> DecodeTokens(dout, o1).value.0.fields == []
    ensures var dmid := DecodeTokens(dout, o1).value.0;
      var (dend, gs) := EndSegment(dmid).value;
      && DecodeTokens(dout, o1 + SemiTokens(n)) == Some((dout', gs))
      && dout' == if n > 0 then dend.(line := dmid.line + n, col := 0) else dend
  {
    hide DecodeTokens;
    var dmid := DecodeTokens(dout, o1).value.0;
    var (dend, gs) := EndSegment(dmid).value;
    DecodeAppend(dout, o1, SemiTokens(n));
    var none: seq<Segment> := [];
    assert none + gs == gs;
    if n > 0 {
      dout' := dend.(line := dmid.line + n, col := 0);
      DecodeSemis(dmid, n);
    } else {
      dout' := dmid;
      NoTokensLeft(dmid);
    }
  }

  /** The loop of addSource on a well-formed source. */
  lemma LoopSimulates(b: Builder, d: Decoder, remap: seq<nat>, s: Source)
    returns (l': Loop, o: seq<Token>, d': Decoder)
    requires d.fields == [] && d.col == 0 && Bounded(d) && RemapOk(remap)
    requires Some(d.src) == b.lastIndex && d.srcLine == b.lastLine && d.srcCol == b.lastCol
    requires WellFormed(s) && |remap| == |s.sources|
    ensures RunBytes(StartLoop(b), remap, s.mappings).Some?
    ensures FinishLoop(RunBytes(StartLoop(b), remap, s.mappings).value, remap, s.lines) == l'
    ensures l'.out == b.mappings + Encode(o) && Encodable(o)
    ensures DecodeTokens(d, o) == Some((d', MovedAll(Decode(s.mappings).value, d.line, remap)))
    ensures d'.fields == [] && d'.col == 0 && Bounded(d') && d'.line == d.line + s.lines
    ensures CursorAt(l'.cursor, d')
  {
    hide DecodeTokens, RunTokens, RunBytes, FinishLoop, Encode, Tokenize, Semis, MovedAll, AllInRange, RemapOk,
      Bounded, EndSegment, Count;
    var input := Tokenize(s.mappings).value;
    var (din, gs1) := DecodeTokens(START, input).value;
    var gs2 := EndSegment(din).value.1;
    assert Decode(s.mappings).value == gs1 + gs2;
    SplitRange(gs1, gs2, d.line, remap);
    var c := StartLoop(b).cursor;
    assert InStep(c, START, d, d.line);
    RunSimulates(c, START, d, d.line, remap, input);
    var (c1, o1) := RunTokens(c, remap, input);
    var dout1 := DecodeTokens(d, o1).value.0;
    RunBytesTokens(c, b.mappings, remap, s.mappings, input);
    var l := Loop(c1, FRESH, b.mappings + Encode(o1));
    LastLine(s, input, din, gs1, gs2);
    var o2;
    o2, d' := FinishSimulates(l, din, dout1, d.line, remap, s.lines);
    l' := FinishLoop(l, remap, s.lines);
    o := o1 + o2;
    DecodeAppend(d, o1, o2);
    EncodeAppend(o1, o2);
    assert b.mappings + Encode(o1) + Encode(o2) == b.mappings + (Encode(o1) + Encode(o2));
  }

  lemma RemapInRange(b: Builder, s: Source)
    requires |b.sources| + |s.sources| <= 0x4000_0000
    ensures var r := AddNames(Remapped(b.sources, []), s.sources);
      && RemapOk(r.remap) && LeadsTo(r, 0, s.sources)
      && b.sources <= r.names && |r.names| <= |b.sources| + |s.sources|
  {
    AddNamesSound(Remapped(b.sources, []), s.sources);
  }

  /** One addSource appends the segments of its source, moved below everything added before. */
  lemma AddSourceAppends(b: Builder, ts: seq<Token>, d: Decoder, gs: seq<Segment>, s: Source)
    returns (b': Builder, ts': seq<Token>, d': Decoder)
    requires Written(b, ts, d, gs) && WellFormed(s) && |b.sources| + |s.sources| <= 0x4000_0000
    ensures AddSource(b, s) == Some(b')
    ensures b'.output == b.output + s.content
    ensures var r := AddNames(Remapped(b.sources, []), s.sources);
      && |r.remap| == |s.sources| && r.names == b'.sources
      && Written(b', ts', d', gs + MovedAll(Decode(s.mappings).value, Count(NEWLINE, b.output), r.remap))
  {
    hide DecodeTokens, RunBytes, FinishLoop, Encode, Tokenize, Decode, Semis, MovedAll, AllInRange, RemapOk, Bounded,
      Count, AddNames;
    var r := AddNames(Remapped(b.sources, []), s.sources);
    RemapInRange(b, s);
    var l', o;
    l', o, d' := LoopSimulates(b, d, r.remap, s);
    b' := AddSource(b, s).value;
    ts' := ts + o;
    DecodeAppend(START, ts, o);
    EncodeAppend(ts, o);
    CountAppend(NEWLINE, b.output, s.content);
  }

  /** On the line after the last there is nothing left to commit. */
  lemma LastLine(s: Source, input: seq<Token>, din: Decoder, gs1: seq<Segment>, gs2: seq<Segment>)
    requires WellFormed(s) && input == Tokenize(s.mappings).value
    requires DecodeTokens(START, input) == Some((din, gs1))
    requires EndSegment(din).Some? && gs2 == EndSegment(din).value.1 && Decode(s.mappings).value == gs1 + gs2
    ensures din.line <= s.lines
    ensures din.line == s.lines ==> din.col == 0 && din.fields == []
  {
    DecodedLines(START, input);
    if din.line == s.lines {
      forall i | 0 <= i < |gs1| ensures gs1[i].line < din.line {
        assert (gs1 + gs2)[i] == gs1[i];
      }
      EmptyLineColumn(START, input);
      if gs2 != [] {
        assert Decode(s.mappings).value[|gs1|] == gs2[0];
      }
    }
  }

  // ---- any number of sources ----

  /** A segment with its source index replaced by the file name it stands for. */
  datatype Located = Located(line: nat, col: int, file: Option<string>, fileLine: int, fileCol: int)

  function Locate(g: Segment, names: seq<string>, offset: nat): Located
    requires InRange(g, |names|)
  {
    match g.origin
    case None => Located(g.line + offset, g.col, None, 0, 0)
    case Some(o) => Located(g.line + offset, g.col, Some(names[o.src]), o.line, o.col)
  }

  function LocateAll(gs: seq<Segment>, names: seq<string>, offset: nat): (r: seq<Located>)
    requires AllInRange(gs, |names|)
    ensures |r| == |gs|
  {
    seq(|gs|, i requires 0 <= i < |gs| => Locate(gs[i], names, offset))
  }

  /** What the bundle's source map should say: each source's own map, below the lines of those before it. */
  ghost function Expected(ss: seq<Source>, offset: nat): seq<Located>
    requires forall i :: 0 <= i < |ss| ==> WellFormed(ss[i])
  {
    if ss == [] then [] else
      assert WellFormed(ss[0]);
      LocateAll(Decode(ss[0].mappings).value, ss[0].sources, offset) + Expected(ss[1..], offset + ss[0].lines)
  }

  function Contents(ss: seq<Source>): seq<Byte> {
    if ss == [] then [] else ss[0].content + Contents(ss[1..])
  }

  function Names(ss: seq<Source>): nat {
    if ss == [] then 0 else |ss[0].sources| + Names(ss[1..])
  }

  /** More names do not change what the earlier segments mean. */
  lemma LocateGrows(gs: seq<Segment>, names: seq<string>, names': seq<string>)
    requires AllInRange(gs, |names|) && names <= names'
    ensures AllInRange(gs, |names'|) && LocateAll(gs, names', 0) == LocateAll(gs, names, 0)
  {
  }

  /** Remapped indices mean the same files. */
  lemma LocateMoved(gs: seq<Segment>, names: seq<string>, r: Remapped, offset: nat)
    requires AllInRange(gs, |names|) && LeadsTo(r, 0, names)
    ensures AllInRange(MovedAll(gs, offset, r.remap), |r.names|)
    ensures LocateAll(MovedAll(gs, offset, r.remap), r.names, 0) == LocateAll(gs, names, offset)
  {
  }

  lemma LocateAppend(gs1: seq<Segment>, gs2: seq<Segment>, names: seq<string>)
    requires AllInRange(gs1, |names|) && AllInRange(gs2, |names|)
    ensures AllInRange(gs1 + gs2, |names|)
    ensures LocateAll(gs1 + gs2, names, 0) == LocateAll(gs1, names, 0) + LocateAll(gs2, names, 0)
  {
  }

  lemma WellFormedFacts(s: Source)
    requires WellFormed(s)
    ensures s.lines == Count(NEWLINE, s.content) && Decode(s.mappings).Some?
    ensures AllInRange(Decode(s.mappings).value, |s.sources|)
  {
  }

  lemma {:induction false} AddSourcesAppend(b: Builder, ts: seq<Token>, d: Decoder, gs: seq<Segment>, ss: seq<Source>)
    returns (b': Builder, ts': seq<Token>, d': Decoder, gs': seq<Segment>)
    requires Written(b, ts, d, gs) && AllInRange(gs, |b.sources|)
    requires forall i :: 0 <= i < |ss| ==> WellFormed(ss[i])
    requires |b.sources| + Names(ss) <= 0x4000_0000
    ensures AddSources(b, ss) == Some(b') && Written(b', ts', d', gs')
    ensures b'.output == b.output + Contents(ss)
    ensures AllInRange(gs', |b'.sources|)
    ensures LocateAll(gs', b'.sources, 0) == LocateAll(gs, b.sources, 0) + Expected(ss, Count(NEWLINE, b.output))
    decreases |ss|
  {
    hide DecodeTokens, Written, WellFormed, Decode, MovedAll, AllInRange, LocateAll, Count, AddNames, AddSource;
    if ss == [] {
      b', ts', d', gs' := b, ts, d, gs;
      assert b.output + Contents(ss) == b.output;
      assert LocateAll(gs, b.sources, 0) + Expected(ss, Count(NEWLINE, b.output)) == LocateAll(gs, b.sources, 0);
    } else {
      var s, offset := ss[0], Count(NEWLINE, b.output);
      var b1, ts1, d1 := AddSourceAppends(b, ts, d, gs, s);
      var r := AddNames(Remapped(b.sources, []), s.sources);
      RemapInRange(b, s);
      WellFormedFacts(s);
      var own := Decode(s.mappings).value;
      var moved := MovedAll(own, offset, r.remap);
      LocateMoved(own, s.sources, r, offset);
      LocateGrows(gs, b.sources, b1.sources);
      LocateAppend(gs, moved, b1.sources);
      CountAppend(NEWLINE, b.output, s.content);
      b', ts', d', gs' := AddSourcesAppend(b1, ts1, d1, gs + moved, ss[1..]);
      Assoc(b.output, s.content, Contents(ss[1..]));
      var l0, l1 := LocateAll(gs, b.sources, 0), LocateAll(own, s.sources, offset);
      Assoc(l0, l1, Expected(ss[1..], offset + s.lines));
    }
  }

  /**
   * Source-map concatenation preserves meaning: whatever well-formed sources are added, the
   * mappings decode to each source's own segments in order, moved down by the lines before it,
   * naming the same files and the same original positions; and the map has as many lines as the output.
   */
  lemma ConcatenationPreservesMeaning(ss: seq<Source>)
    requires forall i :: 0 <= i < |ss| ==> WellFormed(ss[i])
    requires Names(ss) <= 0x4000_0000
    ensures AddSources(EMPTY, ss).Some?
    ensures var b := AddSources(EMPTY, ss).value;
      && b.output == Contents(ss)
      && Decode(b.mappings).Some?
      && AllInRange(Decode(b.mappings).value, |b.sources|)
      && LocateAll(Decode(b.mappings).value, b.sources, 0) == Expected(ss, 0)
      && Count(SEMICOLON, b.mappings) == Count(NEWLINE, b.output)
  {
    hide DecodeTokens, WellFormed, AllInRange, Tokenize, Encode, Count, AddSources, Expected, Contents, Semis;
    EmptyWritten();
    var b, ts, d, gs := AddSourcesAppend(EMPTY, [], START, [], ss);
    TokenizeEncode(ts);
    assert gs + [] == gs;
    DecodedLines(START, ts);
    SemisAreSemicolons(ts);
    var none: seq<Located> := [];
    assert LocateAll([], EMPTY.sources, 0) == none;
    assert none + Expected(ss, 0) == Expected(ss, 0);
    assert [] + Contents(ss) == Contents(ss);
  }

  lemma EmptyWritten()
    ensures Written(EMPTY, [], START, []) && AllInRange([], 0) && Count(NEWLINE, []) == 0
  {
  }

  // ---- lines, for any source that addSource accepts ----

  lemma CommitLines(c: Cursor, remap: seq<nat>)
    ensures Commit(c, remap).0.line == c.line
    ensures Count(SEMICOLON, Encode(Commit(c, remap).1)) == 0
  {
    var ts := Commit(c, remap).1;
    SemisAreSemicolons(ts);
    NoSemis(ts);
  }

  lemma {:induction false} NoSemis(ts: seq<Token>)
    requires forall i :: 0 <= i < |ts| ==> !ts[i].Semi?
    ensures Semis(ts) == 0
  {
    if ts != [] {
      NoSemis(ts[1..]);
    }
  }

  lemma {:induction false} RunLines(l: Loop, remap: seq<nat>, bs: seq<Byte>)
    requires RunBytes(l, remap, bs).Some?
    ensures var l' := RunBytes(l, remap, bs).value;
      && l'.cursor.line == l.cursor.line + Count(SEMICOLON, bs)
      && Count(SEMICOLON, l'.out) == Count(SEMICOLON, l.out) + Count(SEMICOLON, bs)
    decreases |bs|
  {
    hide Commit, Encode, TakeNumber;
    if bs != [] {
      var l1 := StepByte(l, remap, bs[0]).value;
      RunLines(l1, remap, bs[1..]);
      if bs[0] == SEMICOLON || bs[0] == COMMA {
        CommitLines(l.cursor, remap);
        var written := Encode(Commit(l.cursor, remap).1);
        CountAppend(SEMICOLON, l.out, written);
        CountAppend(SEMICOLON, l.out + written, [bs[0]]);
      } else {
        TakeNumberLine(l.cursor);
      }
    }
  }

  lemma TakeNumberLine(c: Cursor)
    ensures forall n :: TakeNumber(c, n).line == c.line
  {
  }

  /**
   * The map and the output have the same number of lines after addSource exactly when the
   * source's mappings have no more lines than its content: padding adds lines, nothing removes them.
   */
  lemma LinesAlignedExactly(b: Builder, s: Source)
    requires s.lines == Count(NEWLINE, s.content) && AddSource(b, s).Some?
    requires Count(SEMICOLON, b.mappings) == Count(NEWLINE, b.output)
    ensures var b' := AddSource(b, s).value;
      Count(SEMICOLON, b'.mappings) == Count(NEWLINE, b'.output) <==> Count(SEMICOLON, s.mappings) <= s.lines
  {
    hide Commit, Encode, RunBytes, Count, AddNames;
    var remap := AddNames(Remapped(b.sources, []), s.sources).remap;
    var l := RunBytes(StartLoop(b), remap, s.mappings).value;
    RunLines(StartLoop(b), remap, s.mappings);
    CommitLines(l.cursor, remap);
    var (c, ts) := Commit(l.cursor, remap);
    CountAppend(SEMICOLON, l.out, Encode(ts));
    CountAppend(SEMICOLON, l.out + Encode(ts), Semicolons(s.lines - c.line));
    CountSemicolons(s.lines - c.line);
    CountAppend(NEWLINE, b.output, s.content);
  }

  lemma {:induction false} CountSemicolons(n: int)
    ensures Count(SEMICOLON, Semicolons(n)) == if n <= 0 then 0 else n
    decreases n
  {
    if n > 0 {
      CountSemicolons(n - 1);
      CountAppend(SEMICOLON, Semicolons(n - 1), [SEMICOLON]);
    }
  }
}
