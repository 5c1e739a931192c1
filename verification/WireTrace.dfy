/**
 * The outgoing channel during duplex calls: register_stream announces the streams, one reader
 * task per stream forwards what it reads, and the reply is sent by a task of its own.
 */
module WireTrace {
  import opened Options
  import opened Sequences

  type Id = nat
  type Buf = seq<bv8>

  datatype Message =
    | StreamsStarted(request: Id, ids: seq<Id>)
    | StreamData(stream: Id, segment: Buf)
    | StreamEnded(stream: Id)
    | Reply(request: Id)

  /** A reader between two awaits: reading, about to send what it read, about to send the end, finished. */
  datatype Phase = Reading | Sending(segment: Buf) | Ending | Finished

  /** `taken` is everything read from the stream so far. */
  datatype Reader = Reader(phase: Phase, taken: Buf)

  datatype Trace = Trace(
    sent: seq<Message>,
    readers: map<Id, Reader>,
    replying: multiset<Id>, // requests whose reply task has been spawned and has not sent yet
    plain: multiset<Id>,    // requests answered without streams: other methods, and duplex calls that were refused
    open: bool)             // whether the receiving end still exists

  const INIT := Trace([], map[], multiset{}, multiset{}, true)

  datatype Event =
    | Register(id: Option<Id>, ids: seq<Id>) // the send of streams_started completes; the tasks are spawned
    | Plain(request: Id)                    // a call without streams, or a refused one, that will be replied to
    | ReadSome(stream: Id, segment: Buf)    // read() returned n > 0 bytes
    | ReadEnd(stream: Id)                   // read() returned 0 or an error
    | SendData(stream: Id)
    | SendEnd(stream: Id)
    | SendReply(request: Id)
    | Close                                 // the channel is closed; every later send fails

  /** Stream ids are fresh; request ids need not be: all requests without an id share the id 0, and get no reply. */
  ghost predicate Enabled(t: Trace, e: Event) {
    match e
    case Register(_, ids) => forall i :: 0 <= i < |ids| ==> ids[i] !in t.readers
    case ReadSome(s, segment) => s in t.readers && t.readers[s].phase.Reading? && segment != []
    case ReadEnd(s) => s in t.readers && t.readers[s].phase.Reading?
    case SendData(s) => s in t.readers && t.readers[s].phase.Sending?
    case SendEnd(s) => s in t.readers && t.readers[s].phase.Ending?
    case Plain(_) => true
    case SendReply(request) => request in t.replying
    case Close => true
  }

  function RequestId(id: Option<Id>): Id {
    if id.Some? then id.value else 0
  }

  function Spawned(readers: map<Id, Reader>, ids: seq<Id>): map<Id, Reader> {
    readers + map s | s in ids :: Reader(Reading, [])
  }

  function Push(t: Trace, m: Message): seq<Message> {
    if t.open then t.sent + [m] else t.sent
  }

  function Next(t: Trace, e: Event): Trace
    requires e.ReadSome? || e.ReadEnd? || e.SendData? || e.SendEnd? ==> e.stream in t.readers
    requires e.SendData? ==> t.readers[e.stream].phase.Sending?
  {
    match e
    case Register(id, ids) =>
      // a failed announcement spawns no reader, but the reply task all the same
      var replying := t.replying + (if id.Some? then multiset{id.value} else multiset{});
      var t' := t.(replying := replying);
      if t.open then t'.(sent := Push(t, StreamsStarted(RequestId(id), ids)), readers := Spawned(t.readers, ids))
      else t'
    case Plain(request) => t.(replying := t.replying + multiset{request}, plain := t.plain + multiset{request})
    case ReadSome(s, segment) =>
      t.(readers := t.readers[s := Reader(Sending(segment), t.readers[s].taken + segment)])
    case ReadEnd(s) => t.(readers := t.readers[s := t.readers[s].(phase := Ending)])
    case SendData(s) =>
      t.(sent := Push(t, StreamData(s, t.readers[s].phase.segment)),
         readers := t.readers[s := t.readers[s].(phase := if t.open then Reading else Finished)])
    case SendEnd(s) => t.(sent := Push(t, StreamEnded(s)), readers := t.readers[s := t.readers[s].(phase := Finished)])
    case SendReply(request) => t.(sent := Push(t, Reply(request)), replying := t.replying - multiset{request})
    case Close => t.(open := false)
  }

  ghost predicate Run(t: Trace, es: seq<Event>, t': Trace)
    decreases |es|
  {
    if es == [] then t == t' else Enabled(t, es[0]) && Run(Next(t, es[0]), es[1..], t')
  }

  ghost predicate Reachable(t: Trace) {
    exists es: seq<Event> :: Run(INIT, es, t)
  }

  // ---- the grammar of the wire ----

  ghost predicate Announces(m: Message, s: Id) {
    m.StreamsStarted? && s in m.ids
  }

  ghost predicate About(m: Message, s: Id) {
    (m.StreamData? || m.StreamEnded?) && m.stream == s
  }

  /** What was sent of a stream, put together. */
  function Forwarded(sent: seq<Message>, s: Id): Buf {
    if sent == [] then [] else
      var m := sent[|sent| - 1];
      Forwarded(sent[..|sent| - 1], s) + if m.StreamData? && m.stream == s then m.segment else []
  }

  /** How often streams_started, or the reply, was sent for a request id. */
  function Starts(sent: seq<Message>, r: Id): nat {
    if sent == [] then 0 else
      var m := sent[|sent| - 1];
      Starts(sent[..|sent| - 1], r) + if m.StreamsStarted? && m.request == r then 1 else 0
  }

  function Replies(sent: seq<Message>, r: Id): nat {
    if sent == [] then 0 else Replies(sent[..|sent| - 1], r) + if sent[|sent| - 1] == Reply(r) then 1 else 0
  }

  ghost predicate AnnouncedBefore(sent: seq<Message>) {
    forall i, s :: 0 <= i < |sent| && About(sent[i], s) ==> exists j :: 0 <= j < i && Announces(sent[j], s)
  }

  /** At no time has an id been replied to more often than it was started or used by a plain call. */
  ghost predicate StartedBefore(sent: seq<Message>, plain: multiset<Id>) {
    forall k, r: Id :: 0 <= k <= |sent| ==> Replies(sent[..k], r) <= Starts(sent[..k], r) + plain[r]
  }

  ghost predicate EndIsLast(sent: seq<Message>) {
    forall i, j, s :: 0 <= i < j < |sent| && sent[i] == StreamEnded(s) ==> !About(sent[j], s)
  }

  /** The part of what a reader has taken that it has not sent yet. */
  function Held(r: Reader): Buf {
    if r.phase.Sending? then r.phase.segment else []
  }

  ghost predicate ReaderOk(t: Trace, s: Id)
    requires s in t.readers
  {
    && (exists j :: 0 <= j < |t.sent| && Announces(t.sent[j], s))
    && (!t.readers[s].phase.Finished? ==> StreamEnded(s) !in t.sent)
    && (t.readers[s].phase.Finished? && t.open ==> StreamEnded(s) in t.sent)
    && (t.open || !t.readers[s].phase.Finished? ==> Forwarded(t.sent, s) + Held(t.readers[s]) == t.readers[s].taken)
    && Forwarded(t.sent, s) <= t.readers[s].taken
  }

  ghost predicate ReadersInv(t: Trace) {
    && (forall s :: s in t.readers ==> ReaderOk(t, s))
    && (forall i, s :: 0 <= i < |t.sent| && (About(t.sent[i], s) || Announces(t.sent[i], s)) ==> s in t.readers)
    && (forall s: Id :: s !in t.readers ==> Forwarded(t.sent, s) == [])
  }

  ghost predicate RepliesInv(t: Trace) {
    t.open ==> forall r: Id ::
      && Replies(t.sent, r) + t.replying[r] <= Starts(t.sent, r) + t.plain[r]
      && (r != 0 ==> Replies(t.sent, r) + t.replying[r] == Starts(t.sent, r) + t.plain[r])
  }

  ghost predicate Inv(t: Trace) {
    && ReadersInv(t) && RepliesInv(t)
    && AnnouncedBefore(t.sent) && StartedBefore(t.sent, t.plain) && EndIsLast(t.sent)
  }

  /** A message fits behind what was sent. */
  ghost predicate Fits(sent: seq<Message>, plain: multiset<Id>, m: Message) {
    && (forall s :: About(m, s) ==> (exists j :: 0 <= j < |sent| && Announces(sent[j], s)) && StreamEnded(s) !in sent)
    && (m.Reply? ==> Replies(sent, m.request) < Starts(sent, m.request) + plain[m.request])
  }

  lemma SnocKeeps(sent: seq<Message>, plain: multiset<Id>, m: Message)
    requires AnnouncedBefore(sent) && StartedBefore(sent, plain) && EndIsLast(sent) && Fits(sent, plain, m)
    ensures AnnouncedBefore(sent + [m]) && StartedBefore(sent + [m], plain) && EndIsLast(sent + [m])
  {
    var sent' := sent + [m];
    forall i, s | 0 <= i < |sent'| && About(sent'[i], s) ensures exists j :: 0 <= j < i && Announces(sent'[j], s) {
      if i < |sent| {
        assert About(sent[i], s);
        var j :| 0 <= j < i && Announces(sent[j], s);
        assert Announces(sent'[j], s);
      } else {
        var j :| 0 <= j < |sent| && Announces(sent[j], s);
        assert Announces(sent'[j], s);
      }
    }
    forall k, r: Id | 0 <= k <= |sent'| ensures Replies(sent'[..k], r) <= Starts(sent'[..k], r) + plain[r] {
      if k <= |sent| {
        assert sent'[..k] == sent[..k];
      } else {
        assert sent'[..k] == sent' && sent[..|sent|] == sent;
        CountsSnoc(sent, m, r);
      }
    }
    forall i, j, s | 0 <= i < j < |sent'| && sent'[i] == StreamEnded(s) ensures !About(sent'[j], s) {
      assert sent[i] == StreamEnded(s) && StreamEnded(s) in sent;
    }
  }

  lemma CountsSnoc(sent: seq<Message>, m: Message, r: Id)
    ensures Starts(sent + [m], r) == Starts(sent, r) + if m.StreamsStarted? && m.request == r then 1 else 0
    ensures Replies(sent + [m], r) == Replies(sent, r) + if m == Reply(r) then 1 else 0
  {
    assert (sent + [m])[..|sent|] == sent;
  }

  /** A reader is unaffected by messages about other streams. */
  lemma OtherMessage(t: Trace, t': Trace, m: Message, s: Id)
    requires s in t.readers && ReaderOk(t, s) && s in t'.readers && t'.readers[s] == t.readers[s]
    requires t'.open == t.open && t'.sent == t.sent + [m] && !About(m, s)
    ensures ReaderOk(t', s)
  {
    assert t'.sent[..|t.sent|] == t.sent && t'.sent[|t.sent|] == m;
    assert Forwarded(t'.sent, s) == Forwarded(t.sent, s) + [] == Forwarded(t.sent, s);
    assert StreamEnded(s) in t'.sent <==> StreamEnded(s) in t.sent;
    var j :| 0 <= j < |t.sent| && Announces(t.sent[j], s);
    assert t'.sent[j] == t.sent[j];
  }

  /** A stream that has just been announced. */
  lemma FreshReader(t: Trace, t': Trace, m: Message, s: Id)
    requires ReadersInv(t) && s !in t.readers && s in t'.readers && t'.readers[s] == Reader(Reading, [])
    requires t'.sent == t.sent + [m] && Announces(m, s)
    ensures ReaderOk(t', s)
  {
    assert t'.sent[..|t.sent|] == t.sent && t'.sent[|t.sent|] == m;
    assert Forwarded(t'.sent, s) == Forwarded(t.sent, s) + [];
    forall i | 0 <= i < |t'.sent| ensures t'.sent[i] != StreamEnded(s) {
      assert i < |t.sent| ==> t'.sent[i] == t.sent[i] && !About(t.sent[i], s);
    }
  }

  /** Nothing has been sent of streams that have no reader. */
  lemma StrangersSilent(t: Trace, t': Trace, m: Message)
    requires ReadersInv(t) && t.readers.Keys <= t'.readers.Keys && t'.sent == t.sent + [m]
    requires forall s :: About(m, s) || Announces(m, s) ==> s in t'.readers
    ensures forall i, s :: 0 <= i < |t'.sent| && (About(t'.sent[i], s) || Announces(t'.sent[i], s)) ==> s in t'.readers
    ensures forall s: Id :: s !in t'.readers ==> Forwarded(t'.sent, s) == []
  {
  }

  lemma RegisterInv(t: Trace, id: Option<Id>, ids: seq<Id>)
    requires Inv(t) && Enabled(t, Register(id, ids)) && t.open
    ensures Inv(Next(t, Register(id, ids)))
  {
    hide ReaderOk, AnnouncedBefore, StartedBefore, EndIsLast, RepliesInv;
    var m, t' := StreamsStarted(RequestId(id), ids), Next(t, Register(id, ids));
    SnocKeeps(t.sent, t.plain, m);
    StrangersSilent(t, t', m);
    forall s | s in t'.readers ensures ReaderOk(t', s) {
      if s in t.readers {
        OtherMessage(t, t', m, s);
      } else {
        FreshReader(t, t', m, s);
      }
    }
    MoreReplies(t, t', m);
  }

  lemma MoreReplies(t: Trace, t': Trace, m: Message)
    requires RepliesInv(t) && t'.sent == t.sent + [m] && t'.open == t.open && t'.plain == t.plain
    requires
      || t'.replying == (if m.StreamsStarted? then t.replying + multiset{m.request}
                         else if m.Reply? then t.replying - multiset{m.request} else t.replying)
      || (m.StreamsStarted? && m.request == 0 && t'.replying == t.replying)
    requires m.Reply? ==> m.request in t.replying
    ensures RepliesInv(t')
  {
    if t'.open {
      forall r: Id
        ensures Replies(t'.sent, r) + t'.replying[r] <= Starts(t'.sent, r) + t'.plain[r]
        ensures r != 0 ==> Replies(t'.sent, r) + t'.replying[r] == Starts(t'.sent, r) + t'.plain[r]
      {
        CountsSnoc(t.sent, m, r);
      }
    }
  }

  /** The reader that sends moves what it held to the channel. */
  lemma OwnMessage(t: Trace, t': Trace, m: Message, s: Id)
    requires t.open && s in t.readers && s in t'.readers && ReaderOk(t, s) && About(m, s) && t'.sent == t.sent + [m]
    requires !t.readers[s].phase.Finished? && t'.readers[s].taken == t.readers[s].taken
    requires if m.StreamData? then m.segment == Held(t.readers[s]) && t'.readers[s].phase.Reading?
      else t'.readers[s].phase.Finished? && Held(t.readers[s]) == []
    ensures ReaderOk(t', s)
  {
  }

  lemma ReaderFits(t: Trace, m: Message, s: Id)
    requires s in t.readers && ReaderOk(t, s) && !t.readers[s].phase.Finished? && About(m, s)
    ensures Fits(t.sent, t.plain, m)
  {
  }

  /** A send by the reader of one stream, while the channel is open. */
  lemma ReaderSends(t: Trace, t': Trace, m: Message, s: Id)
    requires Inv(t) && t.open && s in t.readers && t'.readers.Keys == t.readers.Keys
    requires forall x :: x in t.readers && x != s ==> t'.readers[x] == t.readers[x]
    requires t' == t.(sent := t.sent + [m], readers := t'.readers) && About(m, s)
    requires !t.readers[s].phase.Finished? && t'.readers[s].taken == t.readers[s].taken
    requires if m.StreamData? then m.segment == Held(t.readers[s]) && t'.readers[s].phase.Reading?
      else t'.readers[s].phase.Finished? && Held(t.readers[s]) == []
    ensures Inv(t')
  {
    hide AnnouncedBefore, StartedBefore, EndIsLast, RepliesInv, ReaderOk, Forwarded, Fits;
    assert ReaderOk(t, s);
    ReaderFits(t, m, s);
    SnocKeeps(t.sent, t.plain, m);
    StrangersSilent(t, t', m);
    EveryoneOk(t, t', m, s);
    MoreReplies(t, t', m);
  }

  lemma EveryoneOk(t: Trace, t': Trace, m: Message, s: Id)
    requires ReadersInv(t) && t.open && s in t.readers && t'.readers.Keys == t.readers.Keys
    requires forall x :: x in t.readers && x != s ==> t'.readers[x] == t.readers[x]
    requires t' == t.(sent := t.sent + [m], readers := t'.readers) && About(m, s)
    requires !t.readers[s].phase.Finished? && t'.readers[s].taken == t.readers[s].taken
    requires if m.StreamData? then m.segment == Held(t.readers[s]) && t'.readers[s].phase.Reading?
      else t'.readers[s].phase.Finished? && Held(t.readers[s]) == []
    ensures forall x :: x in t'.readers ==> ReaderOk(t', x)
  {
    hide ReaderOk, Held;
    forall x | x in t'.readers ensures ReaderOk(t', x) {
      if x != s {
        OtherMessage(t, t', m, x);
      } else {
        OwnMessage(t, t', m, s);
      }
    }
  }

  lemma ReplySends(t: Trace, request: Id)
    requires Inv(t) && t.open && request in t.replying
    ensures Inv(Next(t, SendReply(request)))
  {
    hide ReaderOk, AnnouncedBefore, StartedBefore, EndIsLast;
    var m, t' := Reply(request), Next(t, SendReply(request));
    assert Replies(t.sent, request) + t.replying[request] <= Starts(t.sent, request) + t.plain[request];
    SnocKeeps(t.sent, t.plain, m);
    StrangersSilent(t, t', m);
    forall x | x in t'.readers ensures ReaderOk(t', x) {
      OtherMessage(t, t', m, x);
    }
    MoreReplies(t, t', m);
  }

  lemma SilentReader(t: Trace, e: Event, x: Id)
    requires Enabled(t, e) && (e.ReadSome? || e.ReadEnd? || e.Close? || e.Plain? || !t.open)
    requires x in t.readers && ReaderOk(t, x)
    ensures x in Next(t, e).readers && ReaderOk(Next(t, e), x)
  {
    assert Next(t, e).sent == t.sent;
    if e.ReadSome? && e.stream == x {
      assert Forwarded(t.sent, x) + [] == Forwarded(t.sent, x);
    }
  }

  lemma MorePlain(sent: seq<Message>, plain: multiset<Id>, plain': multiset<Id>)
    requires StartedBefore(sent, plain) && plain <= plain'
    ensures StartedBefore(sent, plain')
  {
  }

  lemma SilentReplies(t: Trace, e: Event)
    requires RepliesInv(t) && Enabled(t, e) && (e.ReadSome? || e.ReadEnd? || e.Close? || e.Plain? || !t.open)
    ensures RepliesInv(Next(t, e))
  {
    assert Next(t, e).sent == t.sent;
  }

  lemma SameReaders(t: Trace, t': Trace)
    requires ReadersInv(t) && t'.sent == t.sent && t'.readers.Keys == t.readers.Keys
    requires forall x :: x in t'.readers ==> ReaderOk(t', x)
    ensures ReadersInv(t')
  {
    hide ReaderOk, Forwarded;
  }

  /** Steps that send nothing. */
  lemma SilentInv(t: Trace, e: Event)
    requires Inv(t) && Enabled(t, e) && (e.ReadSome? || e.ReadEnd? || e.Close? || e.Plain? || !t.open)
    ensures Inv(Next(t, e))
  {
    hide ReaderOk, RepliesInv, AnnouncedBefore, StartedBefore, EndIsLast, Forwarded;
    var t' := Next(t, e);
    SilentShape(t, e);
    hide Next;
    forall x | x in t'.readers ensures ReaderOk(t', x) {
      SilentReader(t, e, x);
    }
    SameReaders(t, t');
    SilentReplies(t, e);
    MorePlain(t.sent, t.plain, t'.plain);
  }

  lemma SilentShape(t: Trace, e: Event)
    requires Enabled(t, e) && (e.ReadSome? || e.ReadEnd? || e.Close? || e.Plain? || !t.open)
    ensures Next(t, e).sent == t.sent && Next(t, e).readers.Keys == t.readers.Keys && t.plain <= Next(t, e).plain
  {
  }

  lemma NextInv(t: Trace, e: Event)
    requires Inv(t) && Enabled(t, e)
    ensures Inv(Next(t, e))
  {
    hide Inv;
    if e.ReadSome? || e.ReadEnd? || e.Close? || e.Plain? || !t.open {
      SilentInv(t, e);
    } else {
      match e
      case Register(id, ids) => RegisterInv(t, id, ids);
      case SendData(s) => ReaderSends(t, Next(t, e), StreamData(s, t.readers[s].phase.segment), s);
      case SendEnd(s) => ReaderSends(t, Next(t, e), StreamEnded(s), s);
      case SendReply(request) => ReplySends(t, request);
    }
  }

  lemma {:induction false} RunInv(t: Trace, es: seq<Event>, t': Trace)
    requires Inv(t) && Run(t, es, t')
    ensures Inv(t')
    decreases |es|
  {
    hide Inv, Next;
    if es != [] {
      NextInv(t, es[0]);
      RunInv(Next(t, es[0]), es[1..], t');
    }
  }

  /**
   * In every interleaving: streams_started comes before any data or end of its streams; at no time has a
   * request id been replied to more often than it was started or used by a call without streams, and while
   * the channel is open the replies to come make up the difference, but for the id 0 of calls that get no
   * reply; an end is sent at most once, and nothing of the stream follows it; the segments of a stream put
   * together are a prefix of the bytes read, all but the one being sent while the channel is open.
   */
  lemma WireGrammar(t: Trace)
    requires Reachable(t)
    ensures AnnouncedBefore(t.sent) && StartedBefore(t.sent, t.plain) && EndIsLast(t.sent)
    ensures t.open ==> forall r: Id :: r != 0 ==> Replies(t.sent, r) + t.replying[r] == Starts(t.sent, r) + t.plain[r]
    ensures forall s :: s in t.readers ==> Forwarded(t.sent, s) <= t.readers[s].taken
    ensures forall s :: s in t.readers && t.open ==> Forwarded(t.sent, s) + Held(t.readers[s]) == t.readers[s].taken
    ensures forall i, s :: 0 <= i < |t.sent| && (About(t.sent[i], s) || Announces(t.sent[i], s)) ==> s in t.readers
  {
    hide Inv, AnnouncedBefore, StartedBefore, EndIsLast;
    InitInv();
    var es :| Run(INIT, es, t);
    RunInv(INIT, es, t);
    InvFacts(t);
  }

  /** So the reply to an id that only duplex calls use comes after a streams_started of that id. */
  lemma StartBeforeReply(t: Trace, i: nat)
    requires Reachable(t) && i < |t.sent| && t.sent[i].Reply? && t.plain[t.sent[i].request] == 0
    ensures exists j :: 0 <= j < i && t.sent[j].StreamsStarted? && t.sent[j].request == t.sent[i].request
  {
    hide AnnouncedBefore, EndIsLast, Reachable;
    WireGrammar(t);
    var r, front := t.sent[i].request, t.sent[..i];
    assert t.sent[..i + 1] == front + [t.sent[i]];
    assert Replies(t.sent[..i + 1], r) <= Starts(t.sent[..i + 1], r) + t.plain[r];
    CountsSnoc(front, t.sent[i], r);
    var j := SomeStart(front, r);
    assert t.sent[j] == front[j];
  }

  lemma {:induction false} SomeStart(sent: seq<Message>, r: Id) returns (j: nat)
    requires Starts(sent, r) > 0
    ensures j < |sent| && sent[j].StreamsStarted? && sent[j].request == r
  {
    var n := |sent| - 1;
    if sent[n].StreamsStarted? && sent[n].request == r {
      j := n;
    } else {
      j := SomeStart(sent[..n], r);
    }
  }

  // ---- what the events say ----

  /** Everything that was read of a stream. */
  function Reads(es: seq<Event>, s: Id): Buf
    decreases |es|
  {
    if es == [] then [] else
      (if es[0].ReadSome? && es[0].stream == s then es[0].segment else []) + Reads(es[1..], s)
  }

  lemma StepTaken(t: Trace, e: Event, s: Id)
    requires Enabled(t, e)
    ensures s in t.readers ==> s in Next(t, e).readers
    ensures s in t.readers ==> Next(t, e).readers[s].taken == t.readers[s].taken + Reads([e], s)
    ensures s !in t.readers && s in Next(t, e).readers ==> Next(t, e).readers[s].taken == []
    ensures s !in t.readers ==> Reads([e], s) == []
  {
    assert [e][1..] == [];
    assert Reads([], s) == [];
    if s in t.readers && !(e.ReadSome? && e.stream == s) {
      assert t.readers[s].taken + [] == t.readers[s].taken;
    }
  }

  lemma {:induction false} RunTaken(t: Trace, es: seq<Event>, t': Trace, s: Id)
    requires Run(t, es, t')
    ensures s in t.readers ==> s in t'.readers && t'.readers[s].taken == t.readers[s].taken + Reads(es, s)
    ensures s !in t.readers && s in t'.readers ==> t'.readers[s].taken == Reads(es, s)
    decreases |es|
  {
    hide Next;
    if es == [] {
      assert s in t.readers ==> t.readers[s].taken + [] == t.readers[s].taken;
    } else {
      var t1 := Next(t, es[0]);
      StepTaken(t, es[0], s);
      RunTaken(t1, es[1..], t', s);
      var first := Reads([es[0]], s);
      assert [es[0]][1..] == [] && first == (if es[0].ReadSome? && es[0].stream == s then es[0].segment else []);
      if s in t.readers {
        Assoc(t.readers[s].taken, first, Reads(es[1..], s));
      } else {
        assert [] + Reads(es[1..], s) == Reads(es[1..], s);
      }
    }
  }

  /** Reading is over: the end is being sent or has been. */
  ghost predicate Over(t: Trace, s: Id) {
    s in t.readers && (t.readers[s].phase.Ending? || t.readers[s].phase.Finished?)
  }

  lemma {:induction false} StaysOver(t: Trace, es: seq<Event>, t': Trace, s: Id)
    requires Run(t, es, t') && (Over(t, s) || ReadEnd(s) in es)
    ensures Over(t', s)
    decreases |es|
  {
    if es != [] {
      assert ReadEnd(s) in es ==> es[0] == ReadEnd(s) || ReadEnd(s) in es[1..];
      StaysOver(Next(t, es[0]), es[1..], t', s);
    }
  }

  /**
   * Over any run, a reader has taken exactly what was read. Once reading has ended and the reader has no send to
   * make, while the channel is open, its stream_ended has been sent, once, and everything read before it.
   */
  lemma StreamCloses(es: seq<Event>, t: Trace, s: Id)
    requires Run(INIT, es, t)
    ensures s in t.readers ==> t.readers[s].taken == Reads(es, s)
    ensures ReadEnd(s) in es ==> s in t.readers
    ensures s in t.readers && t.readers[s].phase.Ending? ==>
      Enabled(t, SendEnd(s)) && Next(t, SendEnd(s)).readers[s].phase.Finished?
    ensures ReadEnd(s) in es && t.open && !t.readers[s].phase.Ending? ==>
      && Forwarded(t.sent, s) == Reads(es, s)
      && exists i :: 0 <= i < |t.sent| && t.sent[i] == StreamEnded(s)
           && forall j :: 0 <= j < |t.sent| && t.sent[j] == StreamEnded(s) ==> j == i
  {
    hide Inv, Run;
    InitInv();
    RunInv(INIT, es, t);
    InvFacts(t);
    RunTaken(INIT, es, t, s);
    if ReadEnd(s) in es {
      StaysOver(INIT, es, t, s);
      if t.open && !t.readers[s].phase.Ending? {
        assert ReaderOk(t, s);
        assert Forwarded(t.sent, s) + [] == Forwarded(t.sent, s);
        var i :| 0 <= i < |t.sent| && t.sent[i] == StreamEnded(s);
        assert forall j :: 0 <= j < |t.sent| && t.sent[j] == StreamEnded(s) ==> About(t.sent[j], s) && j == i;
      }
    }
  }

  function Plains(es: seq<Event>): multiset<Id>
    decreases |es|
  {
    if es == [] then multiset{} else (if es[0].Plain? then multiset{es[0].request} else multiset{}) + Plains(es[1..])
  }

  /** The calls without streams are those of the events. */
  lemma {:induction false} PlainExactly(t: Trace, es: seq<Event>, t': Trace)
    requires Run(t, es, t')
    ensures t'.plain == t.plain + Plains(es)
    decreases |es|
  {
    hide Next;
    if es != [] {
      StepPlain(t, es[0]);
      PlainExactly(Next(t, es[0]), es[1..], t');
    }
  }

  lemma StepPlain(t: Trace, e: Event)
    requires Enabled(t, e)
    ensures Next(t, e).plain == t.plain + if e.Plain? then multiset{e.request} else multiset{}
  {
  }

  lemma InitInv()
    ensures Inv(INIT)
  {
  }

  lemma InvFacts(t: Trace)
    requires Inv(t)
    ensures ReadersInv(t) && RepliesInv(t)
    ensures AnnouncedBefore(t.sent) && StartedBefore(t.sent, t.plain) && EndIsLast(t.sent)
    ensures forall s :: s in t.readers ==> Forwarded(t.sent, s) <= t.readers[s].taken
    ensures forall s :: s in t.readers && t.open ==> Forwarded(t.sent, s) + Held(t.readers[s]) == t.readers[s].taken
  {
    assert forall s :: s in t.readers ==> ReaderOk(t, s);
  }
}
