/** The growable byte buffer and the source-map builder, as the objects they are. */
module SourceMapBuilder {
  import opened Options
  import opened Sequences
  import opened Vlq
  import opened Mappings
  import opened SourceMapModel

  class DynamicBuffer {
    var buffer: array<Byte>
    var size: nat

    ghost predicate Valid()
      reads this
    {
      size <= buffer.Length
    }

    ghost function Contents(): seq<Byte>
      requires Valid()
      reads this, buffer
    {
      buffer[..size]
    }

    constructor ()
      ensures Valid() && Contents() == [] && fresh(buffer)
    {
      buffer := new Byte[512](_ => 0);
      size := 0;
    }

    method EnsureCapacity(capacity: nat)
      requires Valid()
      modifies this`buffer
      ensures Valid() && Contents() == old(Contents()) && buffer.Length >= capacity
      ensures buffer == old(buffer) || fresh(buffer)
    {
      if buffer.Length >= capacity {
        return;
      }
      var oldBuffer := buffer;
      var length := if oldBuffer.Length * 2 >= capacity then oldBuffer.Length * 2 else capacity;
      buffer := new Byte[length](_ => 0);
      for i := 0 to oldBuffer.Length
        invariant oldBuffer == old(buffer) && fresh(buffer) && buffer.Length == length
        invariant oldBuffer[..] == old(buffer[..])
        invariant buffer[..i] == oldBuffer[..i]
      {
        buffer[i] := oldBuffer[i];
      }
      assert buffer[..size] == buffer[..oldBuffer.Length][..size];
      assert oldBuffer[..size] == old(buffer[..size]);
    }

    method AddByte(b: Byte)
      requires Valid()
      modifies this, buffer
      ensures Valid() && Contents() == old(Contents()) + [b]
      ensures buffer == old(buffer) || fresh(buffer)
    {
      EnsureCapacity(size + 1);
      buffer[size] := b;
      size := size + 1;
    }

    /** Writes a number as Base64 VLQ, after the conversion to 32 bits that `<<` performs. */
    method AddVLQ(n: int)
      requires Valid()
      modifies this, buffer
      ensures Valid() && Contents() == old(Contents()) + EncodeVlq(n)
      ensures buffer == old(buffer) || fresh(buffer)
    {
      hide Digits, Chars, IntegerToChar, ToInt32;
      var num := if n < 0 then ToInt32(-2 * n) + 1 else ToInt32(2 * n);
      var more := true;
      while more
        invariant Valid() && (buffer == old(buffer) || fresh(buffer))
        invariant Contents() + (if more then Chars(Digits(num)) else []) == old(Contents()) + EncodeVlq(n)
        decreases more, if num > 0 then num else 0
      {
        DigitStep(num);
        var clamped := num % 32;
        num := num / 32;
        if num > 0 {
          clamped := clamped + 32;
        }

        ghost var before, rest := Contents(), if num > 0 then Chars(Digits(num)) else [];
        AddByte(IntegerToChar(clamped));
        Assoc(before, [IntegerToChar(clamped)], rest);
        more := num > 0;
      }
    }

    method AddBuffer(b: seq<Byte>)
      requires Valid()
      modifies this, buffer
      ensures Valid() && Contents() == old(Contents()) + b
      ensures buffer == old(buffer) || fresh(buffer)
    {
      EnsureCapacity(size + |b|);
      for i := 0 to |b|
        invariant Valid() && size == old(size) && buffer.Length >= size + |b|
        invariant buffer == old(buffer) || fresh(buffer)
        invariant buffer[..size] == old(Contents())
        invariant buffer[size..size + i] == b[..i]
      {
        buffer[size + i] := b[i];
      }
      assert buffer[size..size + |b|] == b[..|b|] == b;
      size := size + |b|;
      assert buffer[..size] == buffer[..old(size)] + buffer[old(size)..size];
    }

    method ToBuffer() returns (b: seq<Byte>)
      requires Valid()
      ensures b == Contents()
    {
      b := buffer[..size];
    }
  }

  /** countNL. */
  method CountNL(b: seq<Byte>) returns (res: nat)
    ensures res == Count(NEWLINE, b)
  {
    res := 0;
    assert b[0..] == b;
    for i := 0 to |b|
      invariant res + Count(NEWLINE, b[i..]) == Count(NEWLINE, b)
    {
      assert b[i..][1..] == b[i + 1..];
      if b[i] == NEWLINE {
        res := res + 1;
      }
    }
  }

  /** The constructor of Source. */
  method NewSource(content: seq<Byte>, root: Option<string>, sources: seq<string>, mappings: seq<Byte>)
    returns (s: Source)
    ensures s == MakeSource(content, root, sources, mappings)
    ensures s.lines == Count(NEWLINE, s.content) && (s.content == [] || s.content[|s.content| - 1] == NEWLINE)
    ensures s.content == content || s.content == content + [NEWLINE]
    ensures s.root == root && s.sources == sources && s.mappings == mappings
  {
    SourceLinesExact(content, root, sources, mappings);
    var lines := CountNL(content);
    var text := content;
    if |content| > 0 && content[|content| - 1] != NEWLINE {
      lines := lines + 1;
      text := content + [NEWLINE];
    }
    s := Source(text, lines, root, sources, mappings);
  }

  class SourceMapBuilder {
    const outputBuffer: DynamicBuffer
    const mappings: DynamicBuffer
    var sources: seq<string>
    var lastSourceIndex: Option<int>
    var lastSourceLine: int
    var lastSourceCol: int

    ghost predicate Valid()
      reads this, outputBuffer, mappings
    {
      && outputBuffer != mappings
      && outputBuffer.Valid() && mappings.Valid()
      && outputBuffer.buffer != mappings.buffer
    }

    ghost function Abs(): Builder
      requires Valid()
      reads this, outputBuffer, mappings, outputBuffer.buffer, mappings.buffer
    {
      Builder(outputBuffer.Contents(), sources, mappings.Contents(), lastSourceIndex, lastSourceLine, lastSourceCol)
    }

    constructor ()
      ensures Valid() && Abs() == EMPTY && fresh(outputBuffer) && fresh(mappings)
      ensures fresh(outputBuffer.buffer) && fresh(mappings.buffer)
    {
      outputBuffer := new DynamicBuffer();
      mappings := new DynamicBuffer();
      sources, lastSourceIndex, lastSourceLine, lastSourceCol := [], Some(0), 0, 0;
    }

    method AddLine(text: seq<Byte>)
      requires Valid()
      modifies outputBuffer, mappings, outputBuffer.buffer, mappings.buffer
      ensures Valid()
      ensures Abs() == old(Abs()).(
        output := old(Abs()).output + text + [NEWLINE], mappings := old(Abs()).mappings + [SEMICOLON])
      ensures FreshOrSame(old(outputBuffer.buffer), outputBuffer.buffer)
        && FreshOrSame(old(mappings.buffer), mappings.buffer)
    {
      outputBuffer.AddBuffer(text);
      outputBuffer.AddByte(NEWLINE);
      mappings.AddByte(SEMICOLON);
    }

    /** The buffer has been kept or replaced by a new one. */
    twostate predicate FreshOrSame(before: array<Byte>, new now: array<Byte>) {
      now == before || fresh(now)
    }

    /** The loop that gives every source name of the map a place among the builder's. */
    method AddSourceNames(names: seq<string>) returns (remap: seq<nat>)
      modifies this`sources
      ensures AddNames(Remapped(old(sources), []), names) == Remapped(sources, remap)
    {
      remap := [];
      for i := 0 to |names|
        invariant AddNames(Remapped(sources, remap), names[i..]) == AddNames(Remapped(old(sources), []), names)
      {
        assert names[i..][0] == names[i] && names[i..][1..] == names[i + 1..];
        var pos := IndexOf(sources, names[i]);
        remap := remap + [pos];
        if pos == |sources| {
          sources := sources + [names[i]];
        }
      }
    }

    /** The local function commit of addSource. */
    method CommitSegment(c: Cursor, remap: seq<nat>) returns (c': Cursor)
      requires Valid() && c.lastIndex == lastSourceIndex && c.lastLine == lastSourceLine && c.lastCol == lastSourceCol
      modifies this`lastSourceIndex, this`lastSourceLine, this`lastSourceCol, mappings, mappings.buffer
      ensures Valid() && FreshOrSame(old(mappings.buffer), mappings.buffer)
      ensures Commit(c, remap).0 == c'
      ensures mappings.Contents() == old(mappings.Contents()) + Encode(Commit(c, remap).1)
      ensures c'.lastIndex == lastSourceIndex && c'.lastLine == lastSourceLine && c'.lastCol == lastSourceCol
    {
      hide Encode, EncodeVlq;
      c' := c;
      if c.valpos == 0 {
        EncodeNone(mappings.Contents());
        return;
      }
      mappings.AddVLQ(c.col - c.lastOutputCol);
      c' := c'.(lastOutputCol := c.col, valpos := 0);
      EncodeOne(c.col - c.lastOutputCol);
      if c.valpos == 1 {
        return;
      }
      var outSourceIndex := if 0 <= c.src < |remap| then Some(remap[c.src]) else None;
      WriteOrigin(outSourceIndex, c.srcLine, c.srcCol);
      c' := c'.(lastIndex := lastSourceIndex, lastLine := lastSourceLine, lastCol := lastSourceCol);
      EncodeFour(c.col - c.lastOutputCol, IndexDelta(outSourceIndex, c.lastIndex),
                 c.srcLine - c.lastLine, c.srcCol - c.lastCol);
    }

    /** The three numbers that say where a segment comes from. */
    method WriteOrigin(outSourceIndex: Option<int>, line: int, col: int)
      requires Valid()
      modifies this`lastSourceIndex, this`lastSourceLine, this`lastSourceCol, mappings, mappings.buffer
      ensures Valid() && FreshOrSame(old(mappings.buffer), mappings.buffer)
      ensures lastSourceIndex == outSourceIndex && lastSourceLine == line && lastSourceCol == col
      ensures mappings.Contents() == old(mappings.Contents())
        + EncodeVlq(IndexDelta(outSourceIndex, old(lastSourceIndex)))
        + EncodeVlq(line - old(lastSourceLine)) + EncodeVlq(col - old(lastSourceCol))
    {
      hide EncodeVlq;
      mappings.AddVLQ(IndexDelta(outSourceIndex, lastSourceIndex));
      lastSourceIndex := outSourceIndex;
      mappings.AddVLQ(line - lastSourceLine);
      lastSourceLine := line;
      mappings.AddVLQ(col - lastSourceCol);
      lastSourceCol := col;
    }

    /** One byte of the input mappings; the result says that it is legal. */
    method ReadByte(c0: Cursor, part0: Partial, remap: seq<nat>, b: Byte)
      returns (ok: bool, c: Cursor, part: Partial)
      requires Valid()
      requires c0.lastIndex == lastSourceIndex && c0.lastLine == lastSourceLine && c0.lastCol == lastSourceCol
      modifies this`lastSourceIndex, this`lastSourceLine, this`lastSourceCol, mappings, mappings.buffer
      ensures Valid() && FreshOrSame(old(mappings.buffer), mappings.buffer)
      ensures StepByte(Loop(c0, part0, old(mappings.Contents())), remap, b) ==
        if ok then Some(Loop(c, part, mappings.Contents())) else None
      ensures ok ==> c.lastIndex == lastSourceIndex && c.lastLine == lastSourceLine && c.lastCol == lastSourceCol
    {
      ok, c, part := true, c0, part0;
      if b == SEMICOLON || b == COMMA {
        c := CommitSegment(c, remap);
        mappings.AddByte(b);
        if b == SEMICOLON {
          c := c.(col := 0, lastOutputCol := 0, line := c.line + 1);
        }
      } else {
        var digit := CharToInteger(b);
        if digit == 255 {
          return false, c, part;
        }
        part := Partial(part.value + ShiftLeft(digit % 32, part.shift), part.shift);
        if (digit / 32) % 2 == 1 {
          part := part.(shift := part.shift + 5);
        } else {
          c := TakeNumber(c, Finished(part.value));
          part := FRESH;
        }
      }
    }

    /** addSource; false when it throws. */
    method AddSource(source: Source) returns (ok: bool)
      requires Valid()
      modifies this, outputBuffer, mappings, outputBuffer.buffer, mappings.buffer
      ensures Valid()
      ensures FreshOrSame(old(outputBuffer.buffer), outputBuffer.buffer)
        && FreshOrSame(old(mappings.buffer), mappings.buffer)
      ensures SourceMapModel.AddSource(old(Abs()), source) == if ok then Some(Abs()) else None
    {
      hide StepByte, Commit, AddNames, Semicolons;
      ghost var b0 := Abs();
      outputBuffer.AddBuffer(source.content);
      var remap := AddSourceNames(source.sources);
      var input := source.mappings;
      var c := Cursor(0, 0, 0, 0, 0, 0, 0, lastSourceIndex, lastSourceLine, lastSourceCol);
      var part := FRESH;
      ghost var start := StartLoop(b0);
      var ip := 0;
      assert input[0..] == input;
      while ip < |input|
        invariant 0 <= ip <= |input|
        invariant Valid() && FreshOrSame(old(outputBuffer.buffer), outputBuffer.buffer)
          && FreshOrSame(old(mappings.buffer), mappings.buffer)
        invariant outputBuffer.Contents() == b0.output + source.content
        invariant Remapped(sources, remap) == AddNames(Remapped(b0.sources, []), source.sources)
        invariant c.lastIndex == lastSourceIndex && c.lastLine == lastSourceLine && c.lastCol == lastSourceCol
        invariant RunBytes(Loop(c, part, mappings.Contents()), remap, input[ip..]) == RunBytes(start, remap, input)
      {
        assert input[ip..][0] == input[ip] && input[ip..][1..] == input[ip + 1..];
        ok, c, part := ReadByte(c, part, remap, input[ip]);
        if !ok {
          return;
        }
        ip := ip + 1;
      }
      assert input[ip..] == [];
      ghost var l := Loop(c, part, mappings.Contents());
      c := CommitSegment(c, remap);
      PadLines(c.line, source.lines);
      ok := true;
    }

    method ToContent() returns (content: seq<Byte>)
      requires Valid()
      ensures content == Abs().output
    {
      content := outputBuffer.ToBuffer();
    }

    method ToSourceMap(sourceRoot: Option<string>) returns (m: SourceMap)
      requires Valid()
      ensures m == SourceMap(sourceRoot, Abs().sources, Abs().mappings)
    {
      var text := mappings.ToBuffer();
      m := SourceMap(sourceRoot, sources, text);
    }

    /** The loop that pads the mappings up to sourceLines. */
    method PadLines(outputLine: nat, sourceLines: nat)
      requires Valid()
      modifies mappings, mappings.buffer
      ensures Valid() && FreshOrSame(old(mappings.buffer), mappings.buffer)
      ensures mappings.Contents() == old(mappings.Contents()) + Semicolons(sourceLines - outputLine)
    {
      var line := outputLine;
      while line < sourceLines
        invariant outputLine <= line && (line <= sourceLines || line == outputLine)
        invariant Valid() && FreshOrSame(old(mappings.buffer), mappings.buffer)
        invariant mappings.Contents() == old(mappings.Contents()) + Semicolons(line - outputLine)
      {
        mappings.AddByte(SEMICOLON);
        line := line + 1;
      }
    }
  }

  lemma DigitStep(v: int)
    ensures var last := v / 32 <= 0;
      var digit, rest := if last then v % 32 else v % 32 + 32, if last then [] else Chars(Digits(v / 32));
      Chars(Digits(v)) == [IntegerToChar(digit)] + rest
  {
    hide IntegerToChar, Chars;
    if v / 32 > 0 {
      CharsCons(v % 32 + 32, Digits(v / 32));
    } else {
      CharsCons(v % 32, []);
      assert [v % 32] + [] == [v % 32];
      assert Chars([]) == [];
    }
  }

  lemma EncodeNone(bs: seq<Byte>)
    ensures bs + Encode([]) == bs
  {
  }

  lemma EncodeOne(a: int)
    ensures Encode([Num(a)]) == EncodeVlq(a)
  {
  }

  lemma EncodeFour(a: int, b: int, c: int, d: int)
    ensures Encode([Num(a), Num(b), Num(c), Num(d)]) == EncodeVlq(a) + EncodeVlq(b) + EncodeVlq(c) + EncodeVlq(d)
  {
    hide Encode, EncodeVlq;
    EncodeOne(a);
    EncodeOne(b);
    EncodeOne(c);
    EncodeOne(d);
    EncodeAppend([Num(a)], [Num(b)]);
    EncodeAppend([Num(a), Num(b)], [Num(c)]);
    EncodeAppend([Num(a), Num(b), Num(c)], [Num(d)]);
    assert [Num(a)] + [Num(b)] == [Num(a), Num(b)];
    assert [Num(a), Num(b)] + [Num(c)] == [Num(a), Num(b), Num(c)];
    assert [Num(a), Num(b), Num(c)] + [Num(d)] == [Num(a), Num(b), Num(c), Num(d)];
  }
}
