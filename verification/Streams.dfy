/**
 * The duplex streams of the RPC dispatcher: a shared map of records, and any number of
 * write_loop tasks that pass one write half per stream around. Each locked region, each
 * write to the pipe and each shutdown is one step; steps of different tasks interleave freely.
 */
module Streams {
  import opened Sequences

  type Id = nat
  type Buf = seq<bv8>

  /** `hasWrite` says that the record holds the write half. */
  datatype StreamRec = StreamRec(hasWrite: bool, q: seq<Buf>, ended: bool)

  type Records = map<Id, StreamRec>

  /** Who gets the write half out of a locked region, and what it has to write. */
  datatype Grant = Nothing | StartLoop | Shutdown | WriteBatch(batch: seq<Buf>)

  datatype Locked = Locked(records: Records, grant: Grant)

  // ---- the locked regions ----

  function Insert(rs: Records, id: Id): Records {
    rs[id := StreamRec(true, [], false)]
  }

  function Write(rs: Records, id: Id, buf: Buf): Locked {
    if id !in rs then Locked(rs, Nothing) else
      var s := rs[id];
      Locked(rs[id := s.(q := s.q + [buf], hasWrite := false)], if s.hasWrite then StartLoop else Nothing)
  }

  function Remove(rs: Records, id: Id): Locked {
    if id !in rs then Locked(rs, Nothing)
    else if rs[id].hasWrite then Locked(rs - {id}, Shutdown)
    else Locked(rs[id := rs[id].(ended := true)], Nothing)
  }

  /** write_loop's locked region: give the write half back, shut down, or take the queue. */
  function LoopTurn(rs: Records, id: Id): Locked {
    if id !in rs then Locked(rs, Shutdown)
    else if rs[id].q == [] then
      if rs[id].ended then Locked(rs - {id}, Shutdown)
      else Locked(rs[id := rs[id].(hasWrite := true)], Nothing)
    else Locked(rs[id := rs[id].(q := [])], WriteBatch(rs[id].q))
  }

  // ---- tasks and interleavings ----

  /** A write_loop before its locked region or between two writes; a pending shutdown; a finished task. */
  datatype Task = Locking(id: Id) | Draining(id: Id, batch: seq<Buf>) | Closing(id: Id) | Done

  datatype World = World(
    records: Records,
    tasks: seq<Task>,
    inserted: set<Id>,
    removed: set<Id>,                // remove() found the stream
    accepted: map<Id, seq<Buf>>,     // write() found the stream
    delivered: map<Id, seq<Buf>>,    // written to the pipe
    closed: seq<Id>,                 // calls to shutdown
    broken: set<Id>)                 // streams with a write error

  const INIT := World(map[], [], {}, {}, map[], map[], [], {})

  datatype Event =
    | InsertEvent(id: Id)
    | WriteEvent(id: Id, buf: Buf)
    | RemoveEvent(id: Id)
    | TaskEvent(task: nat)
    | FailEvent(task: nat)

  /** Stream ids come from a counter: an id is inserted once. */
  predicate Enabled(w: World, e: Event) {
    match e
    case InsertEvent(id) => id !in w.inserted
    case WriteEvent(_, _) => true
    case RemoveEvent(_) => true
    case TaskEvent(t) => t < |w.tasks| && !w.tasks[t].Done?
    case FailEvent(t) => t < |w.tasks| && w.tasks[t].Draining? && w.tasks[t].batch != []
  }

  function Get(m: map<Id, seq<Buf>>, id: Id): seq<Buf> {
    if id in m then m[id] else []
  }

  function Spawn(tasks: seq<Task>, grant: Grant, id: Id): seq<Task> {
    match grant
    case StartLoop => tasks + [Locking(id)]
    case Shutdown => tasks + [Closing(id)]
    case _ => tasks
  }

  function AfterTurn(grant: Grant, id: Id): Task {
    match grant
    case WriteBatch(batch) => Draining(id, batch)
    case Shutdown => Closing(id)
    case _ => Done
  }

  function TaskStep(w: World, t: nat): World
    requires t < |w.tasks| && !w.tasks[t].Done?
  {
    match w.tasks[t]
    case Locking(id) =>
      var l := LoopTurn(w.records, id);
      w.(records := l.records, tasks := w.tasks[t := AfterTurn(l.grant, id)])
    case Draining(id, batch) =>
      if batch == [] then w.(tasks := w.tasks[t := Locking(id)])
      else w.(tasks := w.tasks[t := Draining(id, batch[1..])],
              delivered := w.delivered[id := Get(w.delivered, id) + [batch[0]]])
    case Closing(id) =>
      w.(tasks := w.tasks[t := Done], closed := w.closed + [id])
  }

  function Next(w: World, e: Event): World
    requires Enabled(w, e)
  {
    match e
    case InsertEvent(id) => w.(records := Insert(w.records, id), inserted := w.inserted + {id})
    case WriteEvent(id, buf) =>
      var l := Write(w.records, id, buf);
      w.(records := l.records, tasks := Spawn(w.tasks, l.grant, id),
         accepted := if id in w.records then w.accepted[id := Get(w.accepted, id) + [buf]] else w.accepted)
    case RemoveEvent(id) =>
      var l := Remove(w.records, id);
      w.(records := l.records, tasks := Spawn(w.tasks, l.grant, id),
         removed := if id in w.records then w.removed + {id} else w.removed)
    case TaskEvent(t) => TaskStep(w, t)
    case FailEvent(t) =>
      // the rest of the batch is dropped and the loop goes on
      w.(tasks := w.tasks[t := Locking(w.tasks[t].id)], broken := w.broken + {w.tasks[t].id})
  }

  ghost predicate Run(w: World, es: seq<Event>, w': World)
    decreases |es|
  {
    if es == [] then w == w' else Enabled(w, es[0]) && Run(Next(w, es[0]), es[1..], w')
  }

  ghost predicate Reachable(w: World) {
    exists es: seq<Event> :: Run(INIT, es, w)
  }

  // ---- the invariant ----

  /** Where the write half of a stream is. */
  datatype Place = InRecord | InTask(task: nat) | ShutDown

  predicate Holds(t: Task, id: Id) {
    !t.Done? && t.id == id
  }

  ghost predicate PlaceOk(w: World, id: Id, p: Place) {
    match p
    case InRecord => id in w.records && w.records[id].hasWrite && w.records[id].q == [] && !w.records[id].ended
    case InTask(t) =>
      && t < |w.tasks| && Holds(w.tasks[t], id)
      && (w.tasks[t].Closing? <==> id !in w.records)
      && (id in w.records ==> !w.records[id].hasWrite)
    case ShutDown => id !in w.records
  }

  /** The write half of every stream is in exactly one place. */
  ghost predicate OwnedInv(w: World, owner: map<Id, Place>) {
    && owner.Keys == w.inserted
    && (forall id :: id in owner ==> PlaceOk(w, id, owner[id]))
    && (forall id :: id in w.records ==> id in owner)
    && (forall t :: 0 <= t < |w.tasks| && !w.tasks[t].Done? ==>
          w.tasks[t].id in owner && owner[w.tasks[t].id] == InTask(t))
    && (forall id :: id in w.closed <==> id in owner && owner[id] == ShutDown)
    && (forall i, j :: 0 <= i < j < |w.closed| ==> w.closed[i] != w.closed[j])
  }

  /** The batch that the owner of a stream is writing. */
  function BatchAt(w: World, p: Place): seq<Buf> {
    if p.InTask? && p.task < |w.tasks| && w.tasks[p.task].Draining? then w.tasks[p.task].batch else []
  }

  function Queue(w: World, id: Id): seq<Buf> {
    if id in w.records then w.records[id].q else []
  }

  ghost predicate ConservedInv(w: World, owner: map<Id, Place>) {
    && (forall id :: id in owner && id !in w.broken ==>
          Get(w.accepted, id) == Get(w.delivered, id) + BatchAt(w, owner[id]) + Queue(w, id))
    && (forall id :: id in w.accepted || id in w.delivered ==> id in owner)
  }

  /** A stream that was asked to end has ended, or will when its loop is done. */
  ghost predicate EndedInv(w: World) {
    && w.removed <= w.inserted
    && (forall id :: id in w.removed && id in w.records ==> w.records[id].ended)
    && (forall id :: id in w.records && w.records[id].ended ==> id in w.removed)
    && (forall id :: id in w.inserted && id !in w.records ==> id in w.removed)
  }

  ghost predicate Inv(w: World, owner: map<Id, Place>) {
    OwnedInv(w, owner) && ConservedInv(w, owner) && EndedInv(w)
  }

  /** How a step moves the write half. */
  function OwnerAfter(w: World, owner: map<Id, Place>, e: Event): map<Id, Place>
    requires Enabled(w, e)
  {
    match e
    case InsertEvent(id) => owner[id := InRecord]
    case WriteEvent(id, _) =>
      if id in w.records && w.records[id].hasWrite then owner[id := InTask(|w.tasks|)] else owner
    case RemoveEvent(id) => if id in w.records && w.records[id].hasWrite then owner[id := InTask(|w.tasks|)] else owner
    case TaskEvent(t) =>
      (match w.tasks[t]
       case Locking(id) => if LoopTurn(w.records, id).grant.Nothing? then owner[id := InRecord] else owner
       case Closing(id) => owner[id := ShutDown]
       case Draining(_, _) => owner)
    case FailEvent(_) => owner
  }

  /** A step concerns one stream: the records, tasks, owners and histories of the others stay. */
  ghost predicate OnlyStream(w: World, owner: map<Id, Place>, w': World, owner': map<Id, Place>, id: Id) {
    && w'.records - {id} == w.records - {id}
    && owner' - {id} == owner - {id}
    && w'.inserted - {id} == w.inserted - {id} && w.broken <= w'.broken
    && w'.accepted - {id} == w.accepted - {id} && w'.delivered - {id} == w.delivered - {id}
    && |w.tasks| <= |w'.tasks|
    && (forall t :: 0 <= t < |w.tasks| && !Holds(w.tasks[t], id) ==> w'.tasks[t] == w.tasks[t])
    && (forall t :: 0 <= t < |w'.tasks| && !w'.tasks[t].Done? && w'.tasks[t].id != id ==>
          t < |w.tasks| && w'.tasks[t] == w.tasks[t])
    && (w'.closed == w.closed || w'.closed == w.closed + [id])
  }

  /** The part of the invariant that speaks of one stream. */
  ghost predicate StreamOk(w: World, owner: map<Id, Place>, id: Id) {
    && (id in owner <==> id in w.inserted)
    && (id in owner ==> PlaceOk(w, id, owner[id]))
    && (id in w.records ==> id in owner)
    && (forall t :: 0 <= t < |w.tasks| && Holds(w.tasks[t], id) ==> id in owner && owner[id] == InTask(t))
    && (id in w.closed <==> id in owner && owner[id] == ShutDown)
  }

  ghost predicate StreamConserved(w: World, owner: map<Id, Place>, id: Id) {
    && (id in owner && id !in w.broken ==>
          Get(w.accepted, id) == Get(w.delivered, id) + BatchAt(w, owner[id]) + Queue(w, id))
    && (id in w.accepted || id in w.delivered ==> id in owner)
  }

  lemma Local(w: World, owner: map<Id, Place>, id: Id)
    requires OwnedInv(w, owner)
    ensures StreamOk(w, owner, id)
    ensures ConservedInv(w, owner) ==> StreamConserved(w, owner, id)
  {
  }

  lemma OthersOwned(w: World, owner: map<Id, Place>, w': World, owner': map<Id, Place>, id: Id, x: Id)
    requires OnlyStream(w, owner, w', owner', id) && x != id && StreamOk(w, owner, x)
    ensures StreamOk(w', owner', x)
    ensures StreamConserved(w, owner, x) ==> StreamConserved(w', owner', x)
  {
    assert x in w.records <==> x in w.records - {id};
    assert x in w'.records <==> x in w'.records - {id};
    assert x in owner <==> x in owner - {id};
    assert x in owner' <==> x in owner' - {id};
    assert x in w.inserted <==> x in w.inserted - {id};
    assert x in w'.inserted <==> x in w'.inserted - {id};
    assert x in w.accepted <==> x in w.accepted - {id};
    assert x in w'.accepted <==> x in w'.accepted - {id};
    assert x in w.delivered <==> x in w.delivered - {id};
    assert x in w'.delivered <==> x in w'.delivered - {id};
  }

  /** A step that concerns one stream and keeps its part of the invariant keeps the whole. */
  lemma StepOwned(w: World, owner: map<Id, Place>, w': World, owner': map<Id, Place>, id: Id)
    requires OwnedInv(w, owner) && ConservedInv(w, owner) && OnlyStream(w, owner, w', owner', id)
    requires StreamOk(w', owner', id) && StreamConserved(w', owner', id)
    requires w'.closed == w.closed || id !in w.closed
    ensures OwnedInv(w', owner') && ConservedInv(w', owner')
  {
    forall x: Id ensures StreamOk(w', owner', x) && StreamConserved(w', owner', x) {
      if x != id {
        Local(w, owner, x);
        OthersOwned(w, owner, w', owner', id, x);
      }
    }
    Assemble(w', owner');
  }

  lemma Assemble(w: World, owner: map<Id, Place>)
    requires forall x: Id :: StreamOk(w, owner, x) && StreamConserved(w, owner, x)
    requires forall i, j :: 0 <= i < j < |w.closed| ==> w.closed[i] != w.closed[j]
    ensures OwnedInv(w, owner) && ConservedInv(w, owner)
  {
    forall t | 0 <= t < |w.tasks| && !w.tasks[t].Done?
      ensures w.tasks[t].id in owner && owner[w.tasks[t].id] == InTask(t)
    {
      assert StreamOk(w, owner, w.tasks[t].id);
      assert Holds(w.tasks[t], w.tasks[t].id);
    }
    forall x: Id ensures x in owner <==> x in w.inserted {
      assert StreamOk(w, owner, x);
    }
    forall x: Id
      ensures x in owner ==> PlaceOk(w, x, owner[x])
      ensures x in w.records ==> x in owner
      ensures x in w.closed <==> x in owner && owner[x] == ShutDown
    {
      assert StreamOk(w, owner, x);
    }
    forall x: Id
      ensures x in owner && x !in w.broken ==>
        Get(w.accepted, x) == Get(w.delivered, x) + BatchAt(w, owner[x]) + Queue(w, x)
      ensures x in w.accepted || x in w.delivered ==> x in owner
    {
      assert StreamConserved(w, owner, x);
    }
  }

  /** The stream that an event concerns. */
  function StreamOf(w: World, e: Event): Id
    requires Enabled(w, e)
  {
    match e
    case InsertEvent(id) => id
    case WriteEvent(id, _) => id
    case RemoveEvent(id) => id
    case TaskEvent(t) => w.tasks[t].id
    case FailEvent(t) => w.tasks[t].id
  }

  lemma CallElsewhere(w: World, owner: map<Id, Place>, e: Event)
    requires Enabled(w, e) && !e.TaskEvent? && !e.FailEvent?
    ensures OnlyStream(w, owner, Next(w, e), OwnerAfter(w, owner, e), e.id)
  {
  }

  lemma CallKeepsStream(w: World, owner: map<Id, Place>, e: Event)
    requires Enabled(w, e) && !e.TaskEvent? && !e.FailEvent? && StreamOk(w, owner, e.id)
    ensures StreamOk(Next(w, e), OwnerAfter(w, owner, e), e.id)
  {
  }

  lemma CallConserves(w: World, owner: map<Id, Place>, e: Event)
    requires Enabled(w, e) && !e.TaskEvent? && !e.FailEvent?
    requires StreamOk(w, owner, e.id) && StreamConserved(w, owner, e.id)
    ensures StreamConserved(Next(w, e), OwnerAfter(w, owner, e), e.id)
  {
    if e.WriteEvent? && e.id in w.records {
      Assoc(Get(w.delivered, e.id) + BatchAt(w, owner[e.id]), Queue(w, e.id), [e.buf]);
    }
  }

  lemma TaskElsewhere(w: World, owner: map<Id, Place>, t: nat)
    requires Enabled(w, TaskEvent(t))
    ensures OnlyStream(w, owner, TaskStep(w, t), OwnerAfter(w, owner, TaskEvent(t)), w.tasks[t].id)
  {
  }

  lemma TaskKeepsStream(w: World, owner: map<Id, Place>, t: nat)
    requires Enabled(w, TaskEvent(t)) && StreamOk(w, owner, w.tasks[t].id)
    ensures StreamOk(TaskStep(w, t), OwnerAfter(w, owner, TaskEvent(t)), w.tasks[t].id)
  {
  }

  lemma TaskConserves(w: World, owner: map<Id, Place>, t: nat)
    requires Enabled(w, TaskEvent(t))
    requires StreamOk(w, owner, w.tasks[t].id) && StreamConserved(w, owner, w.tasks[t].id)
    ensures StreamConserved(TaskStep(w, t), OwnerAfter(w, owner, TaskEvent(t)), w.tasks[t].id)
  {
    var id := w.tasks[t].id;
    assert Holds(w.tasks[t], id) && owner[id] == InTask(t);
    if w.tasks[t].Draining? && w.tasks[t].batch != [] {
      var b := w.tasks[t].batch;
      assert b == [b[0]] + b[1..];
      Assoc(Get(w.delivered, id), [b[0]], b[1..]);
    }
  }

  lemma FailLocal(w: World, owner: map<Id, Place>, t: nat)
    requires Enabled(w, FailEvent(t))
    requires StreamOk(w, owner, w.tasks[t].id) && StreamConserved(w, owner, w.tasks[t].id)
    ensures OnlyStream(w, owner, Next(w, FailEvent(t)), owner, w.tasks[t].id)
    ensures StreamOk(Next(w, FailEvent(t)), owner, w.tasks[t].id)
    ensures StreamConserved(Next(w, FailEvent(t)), owner, w.tasks[t].id)
  {
  }

  lemma ClosedOnce(w: World, owner: map<Id, Place>, e: Event)
    requires Enabled(w, e) && StreamOk(w, owner, StreamOf(w, e))
    ensures Next(w, e).closed == w.closed || StreamOf(w, e) !in w.closed
  {
  }

  lemma CallEnded(w: World, owner: map<Id, Place>, e: Event)
    requires OwnedInv(w, owner) && EndedInv(w) && Enabled(w, e) && !e.TaskEvent? && !e.FailEvent?
    ensures EndedInv(Next(w, e))
  {
  }

  lemma TaskEnded(w: World, owner: map<Id, Place>, t: nat)
    requires OwnedInv(w, owner) && EndedInv(w) && Enabled(w, TaskEvent(t))
    ensures EndedInv(TaskStep(w, t))
  {
  }

  lemma FailEnded(w: World, t: nat)
    requires EndedInv(w) && Enabled(w, FailEvent(t))
    ensures EndedInv(Next(w, FailEvent(t)))
  {
  }

  lemma NextInv(w: World, owner: map<Id, Place>, e: Event) returns (owner': map<Id, Place>)
    requires Inv(w, owner) && Enabled(w, e)
    ensures Inv(Next(w, e), owner')
  {
    hide OwnedInv, ConservedInv, EndedInv, TaskStep, OwnerAfter, OnlyStream, StreamOk, StreamConserved;
    var id := StreamOf(w, e);
    owner' := OwnerAfter(w, owner, e);
    Local(w, owner, id);
    ClosedOnce(w, owner, e);
    match e {
      case TaskEvent(t) =>
        TaskElsewhere(w, owner, t);
        TaskKeepsStream(w, owner, t);
        TaskConserves(w, owner, t);
        TaskEnded(w, owner, t);
      case FailEvent(t) =>
        FailLocal(w, owner, t);
        FailEnded(w, t);
        owner' := owner;
      case _ =>
        CallElsewhere(w, owner, e);
        CallKeepsStream(w, owner, e);
        CallConserves(w, owner, e);
        CallEnded(w, owner, e);
    }
    StepOwned(w, owner, Next(w, e), owner', id);
  }

  lemma {:induction false} RunInv(w: World, owner: map<Id, Place>, es: seq<Event>, w': World)
    returns (owner': map<Id, Place>)
    requires Inv(w, owner) && Run(w, es, w')
    ensures Inv(w', owner')
    decreases |es|
  {
    hide Inv, Next;
    if es == [] {
      owner' := owner;
    } else {
      var owner1 := NextInv(w, owner, es[0]);
      owner' := RunInv(Next(w, es[0]), owner1, es[1..], w');
    }
  }

  lemma ReachableInv(w: World) returns (owner: map<Id, Place>)
    requires Reachable(w)
    ensures Inv(w, owner)
  {
    var es :| Run(INIT, es, w);
    owner := RunInv(INIT, map[], es, w);
  }

  // ---- what every interleaving guarantees ----

  /**
   * Single ownership: no two tasks hold the same write half; a stream with a task has a record
   * without its write half until it is being shut down, so a loop always finds its record; a
   * record with its write half is idle, one without it has a loop.
   */
  lemma SingleOwnership(w: World)
    requires Reachable(w)
    ensures forall i, j :: 0 <= i < j < |w.tasks| && !w.tasks[i].Done? && !w.tasks[j].Done? ==>
      w.tasks[i].id != w.tasks[j].id
    ensures forall i :: 0 <= i < |w.tasks| && (w.tasks[i].Locking? || w.tasks[i].Draining?) ==>
      w.tasks[i].id in w.records && !w.records[w.tasks[i].id].hasWrite
    ensures forall i :: 0 <= i < |w.tasks| && w.tasks[i].Closing? ==>
      w.tasks[i].id !in w.records && w.tasks[i].id !in w.closed
    ensures forall id :: id in w.records && w.records[id].hasWrite ==> w.records[id].q == [] && !w.records[id].ended
    ensures forall id :: id in w.records && !w.records[id].hasWrite ==>
      exists i :: 0 <= i < |w.tasks| && (w.tasks[i].Locking? || w.tasks[i].Draining?) && w.tasks[i].id == id
  {
    var owner := ReachableInv(w);
    forall id | id in w.records && !w.records[id].hasWrite
      ensures exists i :: 0 <= i < |w.tasks| && (w.tasks[i].Locking? || w.tasks[i].Draining?) && w.tasks[i].id == id
    {
      assert PlaceOk(w, id, owner[id]);
      var i := owner[id].task;
      assert w.tasks[i].id == id;
    }
    forall i, j | 0 <= i < j < |w.tasks| && !w.tasks[i].Done? && !w.tasks[j].Done?
      ensures w.tasks[i].id != w.tasks[j].id
    {
      assert owner[w.tasks[i].id] == InTask(i) && owner[w.tasks[j].id] == InTask(j);
    }
  }

  /** Conservation: what was delivered, is being written and is queued is what was accepted, in order. */
  lemma Conservation(w: World, id: Id)
    requires Reachable(w) && id in w.inserted && id !in w.broken
    ensures (forall i :: 0 <= i < |w.tasks| ==> !(w.tasks[i].Draining? && w.tasks[i].id == id)) ==>
      Get(w.accepted, id) == Get(w.delivered, id) + Queue(w, id)
    ensures forall i :: 0 <= i < |w.tasks| && w.tasks[i].Draining? && w.tasks[i].id == id ==>
      Get(w.accepted, id) == Get(w.delivered, id) + w.tasks[i].batch + Queue(w, id)
  {
    var owner := ReachableInv(w);
    assert PlaceOk(w, id, owner[id]);
    if forall i :: 0 <= i < |w.tasks| ==> !(w.tasks[i].Draining? && w.tasks[i].id == id) {
      assert BatchAt(w, owner[id]) == [];
      assert Get(w.delivered, id) + [] == Get(w.delivered, id);
    }
  }

  /** Clean shutdown: at most once, only when asked for, and only after everything accepted was delivered. */
  lemma CleanShutdown(w: World)
    requires Reachable(w)
    ensures forall i, j :: 0 <= i < j < |w.closed| ==> w.closed[i] != w.closed[j]
    ensures forall id :: id in w.closed ==> id in w.removed && id !in w.records
    ensures forall id :: id in w.closed && id !in w.broken ==> Get(w.delivered, id) == Get(w.accepted, id)
  {
    var owner := ReachableInv(w);
    forall id | id in w.closed
      ensures id in w.removed && id !in w.records
      ensures id !in w.broken ==> Get(w.delivered, id) == Get(w.accepted, id)
    {
      assert PlaceOk(w, id, owner[id]);
      assert Get(w.delivered, id) + [] + [] == Get(w.delivered, id);
    }
  }

  /** No lost wake-up: once no task is left, everything accepted is delivered and every removed stream is shut down. */
  lemma NoLostWakeup(w: World)
    requires Reachable(w) && forall i :: 0 <= i < |w.tasks| ==> w.tasks[i].Done?
    ensures forall id :: id in w.inserted && id !in w.broken ==> Get(w.delivered, id) == Get(w.accepted, id)
    ensures forall id :: id in w.removed <==> id in w.closed
    ensures forall id :: id in w.inserted <==> id in w.records || id in w.closed
  {
    var owner := ReachableInv(w);
    forall id: Id
      ensures id in w.removed <==> id in w.closed
      ensures id in w.inserted <==> id in w.records || id in w.closed
      ensures id in w.inserted && id !in w.broken ==> Get(w.delivered, id) == Get(w.accepted, id)
    {
      if id in w.inserted {
        assert PlaceOk(w, id, owner[id]);
        assert Get(w.delivered, id) + [] + [] == Get(w.delivered, id);
      }
    }
  }

  // ---- what the calls were ----

  /** What was written to a stream, in order. */
  function Writes(es: seq<Event>, id: Id): seq<Buf>
    decreases |es|
  {
    if es == [] then [] else
      (if es[0].WriteEvent? && es[0].id == id then [es[0].buf] else []) + Writes(es[1..], id)
  }

  lemma StepHistory(w: World, e: Event, id: Id)
    requires Enabled(w, e)
    ensures id in Next(w, e).inserted <==> id in w.inserted || e == InsertEvent(id)
    ensures id in Next(w, e).removed <==> id in w.removed || (e == RemoveEvent(id) && id in w.records)
    ensures Get(Next(w, e).accepted, id) ==
      Get(w.accepted, id) + if e.WriteEvent? && e.id == id && id in w.records then [e.buf] else []
  {
    assert Get(w.accepted, id) + [] == Get(w.accepted, id);
  }

  lemma {:induction false} RunKeeps(w: World, es: seq<Event>, w': World, id: Id)
    requires Run(w, es, w')
    ensures Get(w.accepted, id) <= Get(w'.accepted, id)
    ensures id in w.inserted ==> id in w'.inserted
    ensures id in w.removed ==> id in w'.removed
    decreases |es|
  {
    hide Next, Get;
    if es != [] {
      StepHistory(w, es[0], id);
      RunKeeps(Next(w, es[0]), es[1..], w', id);
    }
  }

  /** A stream that has been inserted and not removed has a record. */
  lemma OpenHasRecord(w: World, id: Id)
    requires Reachable(w) && id in w.inserted && id !in w.removed
    ensures id in w.records
  {
    var owner := ReachableInv(w);
  }

  /** As long as a stream is not removed every write to it is accepted. */
  lemma {:induction false} OpenRun(w: World, es: seq<Event>, w': World, id: Id)
    requires Reachable(w) && Run(w, es, w') && id in w.inserted && id !in w.removed && RemoveEvent(id) !in es
    ensures Reachable(w') && id in w'.inserted && id !in w'.removed
    ensures Get(w'.accepted, id) == Get(w.accepted, id) + Writes(es, id)
    decreases |es|
  {
    hide Next, Get, Reachable;
    if es == [] {
      assert Get(w.accepted, id) + [] == Get(w.accepted, id);
    } else {
      var w1 := Next(w, es[0]);
      OpenHasRecord(w, id);
      StepHistory(w, es[0], id);
      ReachableNext(w, es[0]);
      OpenRun(w1, es[1..], w', id);
      Assoc(Get(w.accepted, id), if es[0].WriteEvent? && es[0].id == id then [es[0].buf] else [], Writes(es[1..], id));
    }
  }

  lemma {:induction false} RunSplit(w: World, a: seq<Event>, b: seq<Event>, w': World) returns (mid: World)
    requires Run(w, a + b, w')
    ensures Run(w, a, mid) && Run(mid, b, w')
    decreases |a|
  {
    hide Next, Enabled;
    if a == [] {
      mid := w;
      assert a + b == b;
    } else {
      assert (a + b)[0] == a[0] && (a + b)[1..] == a[1..] + b;
      mid := RunSplit(Next(w, a[0]), a[1..], b, w');
    }
  }

  /** A stream starts with nothing accepted. */
  lemma InsertedEmpty(before: seq<Event>, id: Id, after: seq<Event>, w: World) returns (w1: World)
    requires Run(INIT, before + ([InsertEvent(id)] + after), w)
    ensures Reachable(w1) && Run(w1, after, w)
    ensures id in w1.inserted && id !in w1.removed && Get(w1.accepted, id) == []
  {
    hide Next;
    var w0 := RunSplit(INIT, before, [InsertEvent(id)] + after, w);
    assert ([InsertEvent(id)] + after)[0] == InsertEvent(id) && ([InsertEvent(id)] + after)[1..] == after;
    w1 := Next(w0, InsertEvent(id));
    assert Reachable(w0);
    ReachableNext(w0, InsertEvent(id));
    StepHistory(w0, InsertEvent(id), id);
    NotInsertedYet(w0, id);
  }

  lemma NotInsertedYet(w: World, id: Id)
    requires Reachable(w) && id !in w.inserted
    ensures id !in w.removed && Get(w.accepted, id) == []
  {
    var owner := ReachableInv(w);
  }

  /** What is accepted of a stream that has not been removed is what was written to it since it was inserted. */
  lemma AcceptedExactly(before: seq<Event>, id: Id, after: seq<Event>, w: World)
    requires Run(INIT, before + ([InsertEvent(id)] + after), w) && RemoveEvent(id) !in after
    ensures id in w.inserted && id !in w.removed && Get(w.accepted, id) == Writes(after, id)
  {
    hide Run, Reachable;
    var w1 := InsertedEmpty(before, id, after, w);
    OpenRun(w1, after, w, id);
    assert [] + Writes(after, id) == Writes(after, id);
  }

  /** A removal is taken in, and whatever was written before it is accepted. */
  lemma RemovedExactly(before: seq<Event>, id: Id, between: seq<Event>, after: seq<Event>, w: World)
    requires Run(INIT, before + ([InsertEvent(id)] + (between + ([RemoveEvent(id)] + after))), w)
    requires RemoveEvent(id) !in between
    ensures id in w.removed && Writes(between, id) <= Get(w.accepted, id)
  {
    hide Next, Reachable;
    var rest := [RemoveEvent(id)] + after;
    var w1 := InsertedEmpty(before, id, between + rest, w);
    var w2 := RunSplit(w1, between, rest, w);
    OpenRun(w1, between, w2, id);
    assert [] + Writes(between, id) == Writes(between, id);
    assert rest[0] == RemoveEvent(id) && rest[1..] == after;
    OpenHasRecord(w2, id);
    StepHistory(w2, RemoveEvent(id), id);
    RunKeeps(Next(w2, RemoveEvent(id)), after, w, id);
  }

  // ---- the tasks come to rest ----

  function TaskWork(t: Task): nat {
    match t
    case Locking(_) => 2
    case Draining(_, batch) => 3 + |batch|
    case Closing(_) => 1
    case Done => 0
  }

  ghost function TasksWork(ts: seq<Task>): nat {
    if ts == [] then 0 else TaskWork(ts[0]) + TasksWork(ts[1..])
  }

  ghost function QueueWork(rs: Records): nat
    decreases rs.Keys
  {
    if rs == map[] then 0 else
      var id := AnyKey(rs);
      4 * |rs[id].q| + QueueWork(rs - {id})
  }

  ghost function AnyKey(rs: Records): (id: Id)
    requires rs != map[]
    ensures id in rs
  {
    assert rs.Keys != {};
    var id :| id in rs; id
  }

  lemma {:induction false} QueueWorkAt(rs: Records, id: Id)
    requires id in rs
    ensures QueueWork(rs) == 4 * |rs[id].q| + QueueWork(rs - {id})
    decreases rs.Keys
  {
    var k := AnyKey(rs);
    if k != id {
      QueueWorkAt(rs - {k}, id);
      QueueWorkAt(rs - {id}, k);
      assert rs - {k} - {id} == rs - {id} - {k};
    }
  }

  lemma {:induction false} TasksWorkUpdate(ts: seq<Task>, t: nat, x: Task)
    requires t < |ts|
    ensures TasksWork(ts[t := x]) + TaskWork(ts[t]) == TasksWork(ts) + TaskWork(x)
  {
    if t == 0 {
      assert ts[t := x][1..] == ts[1..];
    } else {
      TasksWorkUpdate(ts[1..], t - 1, x);
      assert ts[t := x][1..] == ts[1..][t - 1 := x];
    }
  }

  /** Left alone, the tasks finish: every step of a task reduces the work left. */
  lemma TasksFinish(w: World, t: nat)
    requires Enabled(w, TaskEvent(t))
    ensures var w' := TaskStep(w, t);
      TasksWork(w'.tasks) + QueueWork(w'.records) < TasksWork(w.tasks) + QueueWork(w.records)
  {
    var w' := TaskStep(w, t);
    TasksWorkUpdate(w.tasks, t, w'.tasks[t]);
    if w.tasks[t].Locking? && w.tasks[t].id in w.records {
      var id := w.tasks[t].id;
      QueueWorkAt(w.records, id);
      assert w'.records - {id} == w.records - {id};
      if id in w'.records {
        QueueWorkAt(w'.records, id);
      } else {
        assert w'.records == w'.records - {id};
      }
    }
  }

  // ---- the object ----

  lemma {:induction false} RunSnoc(w: World, es: seq<Event>, w': World, e: Event)
    requires Run(w, es, w') && Enabled(w', e)
    ensures Run(w, es + [e], Next(w', e))
    decreases |es|
  {
    hide Next, Enabled;
    if es == [] {
      assert [e][1..] == [];
    } else {
      RunSnoc(Next(w, es[0]), es[1..], w', e);
      assert (es + [e])[1..] == es[1..] + [e];
    }
  }

  lemma ReachableNext(w: World, e: Event)
    requires Reachable(w) && Enabled(w, e)
    ensures Reachable(Next(w, e))
  {
    hide Next, Enabled;
    var es :| Run(INIT, es, w);
    RunSnoc(INIT, es, w, e);
  }

  /** A stream whose record holds its write half has not been removed. */
  lemma IdleIsOpen(w: World, id: Id)
    requires Reachable(w) && id in w.records && w.records[id].hasWrite
    ensures id !in w.removed
  {
    var owner := ReachableInv(w);
    assert PlaceOk(w, id, owner[id]);
  }

  /** The streams and the tasks around them; `world` is the state of the machine that they are in. */
  class Streams {
    var records: Records
    ghost var world: World

    ghost predicate Valid()
      reads this
    {
      Reachable(world) && records == world.records
    }

    constructor ()
      ensures Valid() && world == INIT
    {
      records, world := map[], INIT;
      new;
      assert Run(INIT, [], INIT);
    }

    method InsertStream(id: Id)
      requires Valid() && Enabled(world, InsertEvent(id))
      modifies this
      ensures Valid() && old(Enabled(world, InsertEvent(id))) && world == Next(old(world), InsertEvent(id))
    {
      ReachableNext(world, InsertEvent(id));
      records := records[id := StreamRec(true, [], false)];
      world := Next(world, InsertEvent(id));
    }

    /** The result says that a write_loop has been started. */
    method WriteStream(id: Id, buf: Buf) returns (started: bool)
      requires Valid()
      modifies this
      ensures Valid() && world == Next(old(world), WriteEvent(id, buf))
      ensures world.tasks == old(world.tasks) + if started then [Locking(id)] else []
    {
      ReachableNext(world, WriteEvent(id, buf));
      started := false;
      if id in records {
        var s := records[id];
        s := s.(q := s.q + [buf]);
        if s.hasWrite {
          s := s.(hasWrite := false);
          started := true;
        }
        records := records[id := s];
      }
      world := Next(world, WriteEvent(id, buf));
    }

    /** The result says that the caller has the write half and shuts it down. */
    method RemoveStream(id: Id) returns (closing: bool)
      requires Valid()
      modifies this
      ensures Valid() && world == Next(old(world), RemoveEvent(id))
      ensures world.tasks == old(world.tasks) + if closing then [Closing(id)] else []
    {
      ReachableNext(world, RemoveEvent(id));
      closing := false;
      if id in records {
        var s := records[id];
        if s.hasWrite {
          records := records - {id};
          closing := true;
        } else {
          records := records[id := s.(ended := true)];
        }
      }
      world := Next(world, RemoveEvent(id));
    }

    /** The locked region of the write_loop of task t. */
    method TakeTurn(id: Id, ghost t: nat) returns (grant: Grant)
      requires Valid() && t < |world.tasks| && world.tasks[t] == Locking(id)
      modifies this
      ensures Valid() && world == TaskStep(old(world), t) && world.tasks[t] == AfterTurn(grant, id)
      ensures grant.Nothing? ==> id in records && records[id].hasWrite
      ensures grant.WriteBatch? ==> id in old(records) && grant.batch == old(records)[id].q != []
      ensures grant.WriteBatch? ==> id in records && records[id].q == []
      ensures !grant.StartLoop?
    {
      ReachableNext(world, TaskEvent(t));
      ghost var l := LoopTurn(records, id);
      if id !in records {
        grant := Shutdown;
      } else {
        var s := records[id];
        if s.q != [] {
          records := records[id := s.(q := [])];
          grant := WriteBatch(s.q);
        } else if s.ended {
          records := records - {id};
          grant := Shutdown;
        } else {
          records := records[id := s.(hasWrite := true)];
          grant := Nothing;
        }
      }
      assert Locked(records, grant) == l;
      world := TaskStep(world, t);
    }

    /** A write to the pipe that succeeds. */
    ghost method WriteOne(id: Id, t: nat, rest: seq<Buf>)
      requires Valid() && t < |world.tasks| && world.tasks[t] == Draining(id, rest) && rest != []
      modifies this`world
      ensures Valid() && world.accepted == old(world.accepted) && world.broken == old(world.broken)
      ensures |world.tasks| == |old(world.tasks)| && world.tasks[t] == Draining(id, rest[1..])
      ensures Get(world.delivered, id) == Get(old(world.delivered), id) + [rest[0]]
    {
      ReachableNext(world, TaskEvent(t));
      world := TaskStep(world, t);
    }

    /** The loop over a batch; `succeeds` says which writes to the pipe do. */
    method WriteBatchOut(id: Id, ghost t: nat, batch: seq<Buf>, succeeds: nat -> bool) returns (written: seq<Buf>)
      requires Valid() && t < |world.tasks| && world.tasks[t] == Draining(id, batch)
      modifies this
      ensures Valid() && records == old(records) && world.accepted == old(world.accepted)
      ensures |world.tasks| == |old(world.tasks)| && world.tasks[t] == Locking(id)
      ensures Get(world.delivered, id) == Get(old(world.delivered), id) + written
      ensures written <= batch && (forall n :: 0 <= n < |written| ==> succeeds(n))
      ensures |written| < |batch| ==> !succeeds(|written|) && world.broken == old(world.broken) + {id}
      ensures written == batch ==> world.broken == old(world.broken)
    {
      hide Reachable;
      written := [];
      var i := 0;
      assert batch[0..] == batch;
      while i < |batch|
        invariant 0 <= i <= |batch|
        invariant Valid() && records == old(records) && world.accepted == old(world.accepted)
        invariant |world.tasks| == |old(world.tasks)| && world.tasks[t] == Draining(id, batch[i..])
        invariant Get(world.delivered, id) == Get(old(world.delivered), id) + written
        invariant written == batch[..i] && (forall n :: 0 <= n < i ==> succeeds(n))
        invariant world.broken == old(world.broken)
      {
        assert batch[i..][0] == batch[i] && batch[i..][1..] == batch[i + 1..];
        if !succeeds(i) {
          ReachableNext(world, FailEvent(t));
          world := Next(world, FailEvent(t));
          return;
        }
        WriteOne(id, t, batch[i..]);
        Assoc(Get(old(world.delivered), id), written, [batch[i]]);
        written := written + [batch[i]];
        i := i + 1;
      }
      assert batch[i..] == [];
      ReachableNext(world, TaskEvent(t));
      world := TaskStep(world, t);
    }

    /**
     * write_loop, when no other call comes in between: it ends, everything accepted has been written
     * unless a write failed, and the write half is back in its record or shut down, as the stream asks.
     */
    method WriteLoop(id: Id, ghost t: nat, succeeds: nat -> bool) returns (written: seq<Buf>, closed: bool)
      requires Valid() && t < |world.tasks| && world.tasks[t] == Locking(id)
      modifies this
      ensures Valid() && world.accepted == old(world.accepted)
      ensures |world.tasks| == |old(world.tasks)| && world.tasks[t] == Done
      ensures Get(world.delivered, id) == Get(old(world.delivered), id) + written
      ensures id !in old(world.broken) && (forall n :: succeeds(n)) ==>
        Get(world.delivered, id) == Get(world.accepted, id)
      ensures closed == (id in world.removed) == (id in world.closed)
      ensures !closed ==> id in records && records[id].hasWrite
    {
      written, closed := [], false;
      while true
        invariant Valid() && world.accepted == old(world.accepted)
        invariant |world.tasks| == |old(world.tasks)| && world.tasks[t] == Locking(id)
        invariant Get(world.delivered, id) == Get(old(world.delivered), id) + written
        invariant (forall n :: succeeds(n)) ==> world.broken == old(world.broken)
        decreases if id in records then |records[id].q| else 0
      {
        var grant := TakeTurn(id, t);
        if !grant.WriteBatch? {
          closed := grant.Shutdown?;
          if closed {
            ReachableNext(world, TaskEvent(t));
            world := TaskStep(world, t);
          } else {
            IdleIsOpen(world, id);
          }
          LoopOver(world, id);
          return;
        }
        var more := WriteBatchOut(id, t, grant.batch, succeeds);
        Assoc(Get(old(world.delivered), id), written, more);
        written := written + more;
      }
    }
  }

  /** A stream that is idle or shut down has had everything delivered. */
  lemma LoopOver(w: World, id: Id)
    requires Reachable(w) && (id in w.closed || (id in w.records && w.records[id].hasWrite))
    ensures id in w.closed ==> id in w.removed
    ensures id in w.records ==> id !in w.closed
    ensures id !in w.broken ==> Get(w.delivered, id) == Get(w.accepted, id)
  {
    hide Reachable;
    CleanShutdown(w);
    var owner := ReachableInv(w);
    assert PlaceOk(w, id, owner[id]);
    assert Get(w.delivered, id) + [] + [] == Get(w.delivered, id);
  }
}
