/** Framing of msgpack messages: the codec and the read branch of the message loop. */
module Framing {
  import opened Sequences

  type Bytes = seq<bv8>

  /** What rmp_serde makes of a buffer: an unexpected end, an error, or an object that took `len` bytes. */
  datatype Parse<+T> = Eof | Bad | Ok(obj: T, len: nat)

  type Parser<T> = Bytes -> Parse<T>

  /** A decoded message with the bytes it was decoded from. */
  datatype Frame<+T> = Frame(obj: T, vec: Bytes)

  /** The parser reads a frame from left to right, takes at least a byte, and looks no further. */
  ghost predicate Sequential<T(!new)>(p: Parser<T>) {
    && (forall b: Bytes :: p(b).Ok? ==> 0 < p(b).len <= |b|)
    && (forall b: Bytes, c: Bytes :: p(b).Ok? && p(b).len <= |c| && b[..p(b).len] == c[..p(b).len] ==> p(c) == p(b))
    && (forall b: Bytes, c: Bytes :: p(b).Ok? && |c| < p(b).len && b[..|c|] == c ==> p(c).Eof?)
  }

  /** The frames of a byte string, what is left over, and whether parsing stopped on an error. */
  datatype Parsed<+T> = Parsed(frames: seq<Frame<T>>, rest: Bytes, bad: bool)

  /** Reference: parse the whole string at once. */
  ghost function ParseAll<T(!new)>(p: Parser<T>, b: Bytes): Parsed<T>
    requires Sequential(p)
    decreases |b|
  {
    match p(b)
    case Eof => Parsed([], b, false)
    case Bad => Parsed([], b, true)
    case Ok(obj, len) =>
      var r := ParseAll(p, b[len..]);
      r.(frames := [Frame(obj, b[..len])] + r.frames)
  }

  /** Incremental: parse what has arrived, keep the rest for the next chunk, stop on an error. */
  ghost function ParseChunks<T(!new)>(p: Parser<T>, buf: Bytes, chunks: seq<Bytes>): Parsed<T>
    requires Sequential(p)
    decreases |chunks|
  {
    if chunks == [] then Parsed([], buf, false) else
      var r := ParseAll(p, buf + chunks[0]);
      if r.bad then r else
        var more := ParseChunks(p, r.rest, chunks[1..]);
        more.(frames := r.frames + more.frames)
  }

  function Concat(chunks: seq<Bytes>): Bytes {
    if chunks == [] then [] else chunks[0] + Concat(chunks[1..])
  }

  function Vecs<T>(frames: seq<Frame<T>>): Bytes {
    if frames == [] then [] else frames[0].vec + Vecs(frames[1..])
  }

  // ---- chunking does not matter ----

  /** A complete frame is found whatever follows it; where a string is in error, more bytes make no frame. */
  lemma FrontDecides<T(!new)>(p: Parser<T>, a: Bytes, b: Bytes)
    requires Sequential(p)
    ensures p(a).Ok? ==> 0 < p(a).len <= |a| && p(a + b) == p(a)
    ensures p(a).Bad? ==> !p(a + b).Ok?
  {
  }

  lemma {:induction false} ParseSplit<T(!new)>(p: Parser<T>, a: Bytes, b: Bytes)
    requires Sequential(p)
    ensures ParseAll(p, a).bad ==> ParseAll(p, a + b).frames == ParseAll(p, a).frames
    ensures !ParseAll(p, a).bad ==>
      ParseAll(p, a + b).frames == ParseAll(p, a).frames + ParseAll(p, ParseAll(p, a).rest + b).frames
    decreases |a|
  {
    hide Sequential;
    FrontDecides(p, a, b);
    match p(a)
    case Eof =>
      assert ParseAll(p, a).frames + ParseAll(p, a + b).frames == ParseAll(p, a + b).frames;
    case Bad =>
    case Ok(obj, len) =>
      assert (a + b)[..len] == a[..len] && (a + b)[len..] == a[len..] + b;
      ParseSplit(p, a[len..], b);
      var first, r := [Frame(obj, a[..len])], ParseAll(p, a[len..]);
      if !r.bad {
        var later := ParseAll(p, r.rest + b).frames;
        Assoc(first, r.frames, later);
      }
  }

  /** However the input is split into reads, the same frames come out as from the whole input. */
  lemma {:induction false} ChunkingIrrelevant<T(!new)>(p: Parser<T>, buf: Bytes, chunks: seq<Bytes>)
    requires Sequential(p) && p(buf).Eof?
    ensures ParseChunks(p, buf, chunks).frames == ParseAll(p, buf + Concat(chunks)).frames
    decreases |chunks|
  {
    if chunks == [] {
      assert buf + Concat(chunks) == buf;
    } else {
      var first, later := buf + chunks[0], Concat(chunks[1..]);
      assert buf + Concat(chunks) == first + later;
      ParseSplit(p, first, later);
      var r := ParseAll(p, first);
      if !r.bad {
        RestIsEof(p, first);
        ChunkingIrrelevant(p, r.rest, chunks[1..]);
      }
    }
  }

  lemma {:induction false} RestIsEof<T(!new)>(p: Parser<T>, b: Bytes)
    requires Sequential(p)
    ensures if ParseAll(p, b).bad then p(ParseAll(p, b).rest).Bad? else p(ParseAll(p, b).rest).Eof?
    decreases |b|
  {
    if p(b).Ok? {
      RestIsEof(p, b[p(b).len..]);
    }
  }

  /** The bytes of the frames and the leftover are the bytes received. */
  lemma {:induction false} NothingLost<T(!new)>(p: Parser<T>, b: Bytes)
    requires Sequential(p)
    ensures Vecs(ParseAll(p, b).frames) + ParseAll(p, b).rest == b
    decreases |b|
  {
    hide Sequential, Vecs;
    FrontDecides(p, b, []);
    if p(b).Ok? {
      var n := p(b).len;
      var r := ParseAll(p, b[n..]);
      NothingLost(p, b[n..]);
      VecsCons(Frame(p(b).obj, b[..n]), r.frames);
      Rejoin(b, n, Vecs(r.frames), r.rest);
    } else {
      NoVecs<T>();
      Rejoin(b, 0, [], b);
    }
  }

  lemma Rejoin(b: Bytes, n: nat, vecs: Bytes, rest: Bytes)
    requires n <= |b| && vecs + rest == b[n..]
    ensures b[..n] + vecs + rest == b
  {
    Assoc(b[..n], vecs, rest);
  }

  lemma VecsCons<T>(f: Frame<T>, frames: seq<Frame<T>>)
    ensures Vecs([f] + frames) == f.vec + Vecs(frames)
  {
    assert ([f] + frames)[1..] == frames;
  }

  lemma NoVecs<T>()
    ensures Vecs<T>([]) == []
  {
  }

  // ---- the codec and the loop ----

  class Connection<T(!new)> {
    const parse: Parser<T>
    var buffer: Bytes
    var dispatched: seq<Frame<T>>

    constructor (parse: Parser<T>)
      ensures this.parse == parse && buffer == [] && dispatched == []
    {
      this.parse := parse;
      buffer, dispatched := [], [];
    }

    /** MsgPackCodec::decode: takes one frame off the buffer if there is one. */
    method Decode() returns (r: Parse<T>, vec: Bytes)
      requires Sequential(parse)
      modifies this`buffer
      ensures r == parse(old(buffer))
      ensures r.Ok? ==> vec == old(buffer)[..r.len] && buffer == old(buffer)[r.len..]
      ensures !r.Ok? ==> buffer == old(buffer)
    {
      vec := [];
      r := parse(buffer);
      if r.Ok? {
        vec := buffer[..r.len];
        buffer := buffer[r.len..];
      }
    }

    /** The read branch: append what arrived, then decode and dispatch until no frame is complete. */
    method Receive(chunk: Bytes) returns (ok: bool)
      requires Sequential(parse)
      modifies this
      ensures var r := ParseAll(parse, old(buffer) + chunk);
        ok == !r.bad && buffer == r.rest && dispatched == old(dispatched) + r.frames
      ensures Vecs(ParseAll(parse, old(buffer) + chunk).frames) + buffer == old(buffer) + chunk
    {
      buffer := buffer + chunk;
      ghost var all := ParseAll(parse, buffer);
      NothingLost(parse, buffer);
      while true
        invariant var now := ParseAll(parse, buffer);
          now.rest == all.rest && now.bad == all.bad && dispatched + now.frames == old(dispatched) + all.frames
        decreases |buffer|
      {
        ghost var before := buffer;
        var r, vec := Decode();
        if !r.Ok? {
          return r.Eof?;
        }
        assert ParseAll(parse, before).frames == [Frame(r.obj, vec)] + ParseAll(parse, buffer).frames;
        Assoc(dispatched, [Frame(r.obj, vec)], ParseAll(parse, buffer).frames);
        dispatched := dispatched + [Frame(r.obj, vec)];
      }
    }

    /** Any sequence of reads, until one of them fails. */
    method ReceiveAll(chunks: seq<Bytes>) returns (ok: bool)
      requires Sequential(parse) && buffer == [] && dispatched == [] && parse([]).Eof?
      modifies this
      ensures dispatched == ParseAll(parse, Concat(chunks)).frames
      ensures ok ==> Vecs(dispatched) + buffer == Concat(chunks)
    {
      hide Sequential, ParseChunks, Vecs, Concat;
      ghost var all := ParseChunks(parse, [], chunks);
      ChunkingIrrelevant(parse, [], chunks);
      assert [] + Concat(chunks) == Concat(chunks);
      var i := 0;
      ok := true;
      NoChunks(parse, chunks);
      while i < |chunks|
        invariant 0 <= i <= |chunks|
        invariant dispatched + ParseChunks(parse, buffer, chunks[i..]).frames == all.frames
        invariant Vecs(dispatched) + buffer == Concat(chunks[..i])
      {
        ghost var before, held := dispatched, buffer;
        ok := Receive(chunks[i]);
        ChunkStep(parse, held, chunks, i, before);
        if !ok {
          return;
        }
        i := i + 1;
      }
      assert chunks[..i] == chunks && chunks[i..] == [];
      NoChunksLeft(parse, buffer);
    }
  }

  lemma NoChunks<T(!new)>(p: Parser<T>, chunks: seq<Bytes>)
    requires Sequential(p)
    ensures chunks[0..] == chunks && Concat(chunks[..0]) == []
    ensures Vecs<T>([]) == []
  {
  }

  lemma NoChunksLeft<T(!new)>(p: Parser<T>, buf: Bytes)
    requires Sequential(p)
    ensures ParseChunks(p, buf, []).frames == []
  {
  }

  /** One read, seen from the whole sequence of reads. */
  lemma ChunkStep<T(!new)>(p: Parser<T>, buf: Bytes, chunks: seq<Bytes>, i: nat, before: seq<Frame<T>>)
    requires Sequential(p) && i < |chunks|
    ensures var r := ParseAll(p, buf + chunks[i]);
      && before + ParseChunks(p, buf, chunks[i..]).frames ==
           before + r.frames + (if r.bad then [] else ParseChunks(p, r.rest, chunks[i + 1..]).frames)
      && (Vecs(before) + buf == Concat(chunks[..i]) ==> Vecs(before + r.frames) + r.rest == Concat(chunks[..i + 1]))
  {
    hide Sequential;
    var r := ParseAll(p, buf + chunks[i]);
    assert chunks[i..][0] == chunks[i] && chunks[i..][1..] == chunks[i + 1..];
    assert chunks[..i + 1] == chunks[..i] + [chunks[i]];
    VecsAppend(before, r.frames);
    ConcatSnoc(chunks[..i], chunks[i]);
    NothingLost(p, buf + chunks[i]);
    Assoc(Vecs(before), Vecs(r.frames), r.rest);
    Assoc(Vecs(before), buf, chunks[i]);
    if !r.bad {
      Assoc(before, r.frames, ParseChunks(p, r.rest, chunks[i + 1..]).frames);
    }
  }

  lemma {:induction false} VecsAppend<T>(a: seq<Frame<T>>, b: seq<Frame<T>>)
    ensures Vecs(a + b) == Vecs(a) + Vecs(b)
  {
    if a == [] {
      assert a + b == b;
    } else {
      VecsAppend(a[1..], b);
      assert (a + b)[0] == a[0] && (a + b)[1..] == a[1..] + b;
      Assoc(a[0].vec, Vecs(a[1..]), Vecs(b));
    }
  }

  lemma {:induction false} ConcatSnoc(chunks: seq<Bytes>, c: Bytes)
    ensures Concat(chunks + [c]) == Concat(chunks) + c
  {
    if chunks == [] {
      assert [c][1..] == [];
      assert c + [] == c;
    } else {
      ConcatSnoc(chunks[1..], c);
      assert (chunks + [c])[1..] == chunks[1..] + [c];
    }
  }
}
