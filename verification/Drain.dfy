/**
 * The drain: what the program keeps of each connection, in the world it keeps
 * it of. Requests are pipelined to any depth, on any number of connections.
 *
 * Assumed of the world: answers on one connection finish in order, a request's
 * body ends before the next request on its connection starts, and once the
 * server is closing it accepts no connection and closes those Node counts as
 * idle.
 */
module Drain {
  import opened Wrappers

  type Socket = nat

  // ---- the program ----

  /** Each open connection and the request it is still busy with, the latest, by its number on the connection. */
  datatype Program = Program(table: map<Socket, Option<nat>>, shuttingDown: bool)

  function Track(p: Program, socket: Socket): Program {
    if socket in p.table then p else p.(table := p.table[socket := None])
  }

  function OnRequest(p: Program, socket: Socket, request: nat): Program {
    p.(table := Track(p, socket).table[socket := Some(request)])
  }

  /** Whether `done` is for the request the connection is busy with. */
  predicate IsLatest(p: Program, socket: Socket, request: nat) {
    socket in p.table && p.table[socket] == Some(request)
  }

  function Done(p: Program, socket: Socket, request: nat): Program {
    if IsLatest(p, socket, request) then p.(table := p.table[socket := None]) else p
  }

  /** Whether `done` closes the connection. */
  predicate DoneCloses(p: Program, socket: Socket, request: nat) {
    IsLatest(p, socket, request) && p.shuttingDown
  }

  function OnSocketClose(p: Program, socket: Socket): Program {
    p.(table := p.table - {socket})
  }

  // ---- the world ----

  /**
   * A request received: whether its answer has been written out, whether its
   * body has arrived, and whether the program waits for the body's `end`.
   */
  datatype Request = Request(finished: bool, complete: bool, awaitsEnd: bool)

  /**
   * A connection. `read` is that any byte has been, `head` that a request's
   * head is arriving, `closing` that someone has closed it from this side.
   */
  datatype Connection = Connection(requests: seq<Request>, read: bool, head: bool, closing: bool)

  datatype World = World(program: Program, open: map<Socket, Connection>, deadlinePassed: bool)

  const INITIAL := World(Program(map[], false), map[], false)

  datatype Event =
    | Connect(socket: Socket)
    | BytesArrive(socket: Socket)
    | RequestStarts(socket: Socket)
    | BodyCompletes(socket: Socket)
    | AnswerFinishes(socket: Socket, request: nat)
    | EndFires(socket: Socket, request: nat)
    | SocketCloses(socket: Socket)
    | Signal(idle: set<Socket>)  // `idle`: what the server's own `close` closes
    | Deadline

  /** Idle, as Node counts it: something was read, and no request is arriving or unanswered. */
  predicate Idle(c: Connection) {
    c.read && !c.head && Settled(c)
  }

  /** Every request received is answered, the answer written out, and its body has arrived. */
  predicate Settled(c: Connection) {
    forall r | r in c.requests :: r.finished && r.complete
  }

  /** Done with, as the program can see it. */
  predicate Released(r: Request) {
    r.finished && !r.awaitsEnd
  }

  predicate Enabled(w: World, e: Event) {
    match e
    case Connect(s) => s !in w.open && !w.program.shuttingDown
    case BytesArrive(s) => s in w.open
    case RequestStarts(s) => s in w.open && w.open[s].head && forall r | r in w.open[s].requests :: r.complete
    case BodyCompletes(s) => s in w.open && w.open[s].requests != [] && !Last(w.open[s]).complete
    case AnswerFinishes(s, i) =>
      s in w.open && i < |w.open[s].requests| && !w.open[s].requests[i].finished
      && forall j | 0 <= j < i :: w.open[s].requests[j].finished
    case EndFires(s, i) =>
      s in w.open && i < |w.open[s].requests|
      && w.open[s].requests[i].complete && w.open[s].requests[i].awaitsEnd
    case SocketCloses(s) => s in w.open
    case Signal(idle) => forall s | s in w.open && Idle(w.open[s]) :: s in idle
    case Deadline => w.program.shuttingDown
  }

  function Last(c: Connection): Request
    requires c.requests != []
  {
    c.requests[|c.requests| - 1]
  }

  /** The connections the program itself closes at an event, before the deadline's closing of all. */
  ghost function OwnCloses(w: World, e: Event): set<Socket>
    requires Enabled(w, e)
  {
    match e
    case AnswerFinishes(s, i) =>
      if w.open[s].requests[i].complete && DoneCloses(w.program, s, i) then {s} else {}
    case EndFires(s, i) => if DoneCloses(w.program, s, i) then {s} else {}
    case Signal(_) => if w.program.shuttingDown then {} else Unread(w)
    case _ => {}
  }

  /** The connections the handler finds nothing read from. */
  function Unread(w: World): set<Socket> {
    set s | s in w.program.table.Keys && s in w.open && !w.open[s].read
  }

  function ClosedIf(c: Connection, closes: bool): Connection {
    c.(closing := c.closing || closes)
  }

  function Close(open: map<Socket, Connection>, sockets: set<Socket>): map<Socket, Connection> {
    map s | s in open :: if s in sockets then open[s].(closing := true) else open[s]
  }

  /** Answer `i` written out: the `finish` listener looks at the body. */
  function Finished(c: Connection, i: nat): Connection
    requires i < |c.requests|
  {
    c.(requests := c.requests[i := c.requests[i].(finished := true, awaitsEnd := !c.requests[i].complete)])
  }

  /** The `end` that request `i`'s answer was waiting for. */
  function Ended(c: Connection, i: nat): Connection
    requires i < |c.requests|
  {
    c.(requests := c.requests[i := c.requests[i].(awaitsEnd := false)])
  }

  function AfterRequest(w: World, s: Socket): World
    requires s in w.open
  {
    var c := w.open[s];
    w.(program := OnRequest(w.program, s, |c.requests|),
       open := w.open[s := c.(requests := c.requests + [Request(false, false, false)], head := false)])
  }

  function AfterBody(w: World, s: Socket): World
    requires s in w.open && w.open[s].requests != []
  {
    var c := w.open[s];
    w.(open := w.open[s := c.(requests := c.requests[|c.requests| - 1 := Last(c).(complete := true)])])
  }

  function AfterAnswer(w: World, s: Socket, i: nat): World
    requires s in w.open && i < |w.open[s].requests|
  {
    var c := w.open[s];
    var complete := c.requests[i].complete;
    w.(program := if complete then Done(w.program, s, i) else w.program,
       open := w.open[s := ClosedIf(Finished(c, i), complete && DoneCloses(w.program, s, i))])
  }

  function AfterEnd(w: World, s: Socket, i: nat): World
    requires s in w.open && i < |w.open[s].requests|
  {
    w.(program := Done(w.program, s, i),
       open := w.open[s := ClosedIf(Ended(w.open[s], i), DoneCloses(w.program, s, i))])
  }

  function AfterSignal(w: World, idle: set<Socket>): World {
    if w.program.shuttingDown then w
    else w.(program := w.program.(shuttingDown := true), open := Close(w.open, idle + Unread(w)))
  }

  ghost function Step(w: World, e: Event): World
    requires Enabled(w, e)
  {
    match e
    case Connect(s) =>
      w.(program := Track(w.program, s), open := w.open[s := Connection([], false, false, false)])
    case BytesArrive(s) => w.(open := w.open[s := w.open[s].(read := true, head := true)])
    case RequestStarts(s) => AfterRequest(w, s)
    case BodyCompletes(s) => AfterBody(w, s)
    case AnswerFinishes(s, i) => AfterAnswer(w, s, i)
    case EndFires(s, i) => AfterEnd(w, s, i)
    case SocketCloses(s) => w.(program := OnSocketClose(w.program, s), open := w.open - {s})
    case Signal(idle) => AfterSignal(w, idle)
    case Deadline => w.(open := Close(w.open, w.open.Keys), deadlinePassed := true)
  }

  ghost function RunFrom(w: World, events: seq<Event>): Option<World>
    decreases events
  {
    if events == [] then Some(w)
    else if !Enabled(w, events[0]) then None
    else RunFrom(Step(w, events[0]), events[1..])
  }

  // ---- what holds of every reachable world ----

  /** What the table says of a connection: the latest request, until the program has seen it done. */
  function Busy(c: Connection): Option<nat> {
    if c.requests == [] || Released(Last(c)) then None else Some(|c.requests| - 1)
  }

  ghost predicate Sound(c: Connection) {
    && (c.requests != [] || c.head ==> c.read)
    && (forall i | 0 <= i < |c.requests| - 1 :: c.requests[i].complete)
    && (forall i, j | 0 <= i < j < |c.requests| :: c.requests[j].finished ==> c.requests[i].finished)
    && (forall i | 0 <= i < |c.requests| :: c.requests[i].awaitsEnd ==> c.requests[i].finished)
    && (forall i | 0 <= i < |c.requests| :: c.requests[i].finished && !c.requests[i].complete ==> c.requests[i].awaitsEnd)
  }

  /** What the table must say of a connection, and how a drain leaves it. */
  ghost predicate Told(c: Connection, entry: Option<nat>, shuttingDown: bool) {
    && Sound(c)
    && entry == Busy(c)
    && (shuttingDown ==> c.closing || c.head || Busy(c).Some?)
  }

  ghost predicate Kept(w: World, s: Socket)
    requires s in w.open && s in w.program.table
  {
    Told(w.open[s], w.program.table[s], w.program.shuttingDown)
  }

  ghost predicate Inv(w: World) {
    && w.program.table.Keys == w.open.Keys
    && (forall s | s in w.open :: Kept(w, s))
  }

  lemma FinishKeepsSound(c: Connection, i: nat)
    requires Sound(c) && i < |c.requests| && forall j | 0 <= j < i :: c.requests[j].finished
    ensures Sound(Finished(c, i))
    ensures Busy(Finished(c, i)) ==
            if Busy(c) == Some(i) && c.requests[i].complete then None else Busy(c)
  {
  }

  lemma EndKeepsSound(c: Connection, i: nat)
    requires Sound(c) && i < |c.requests| && c.requests[i].complete && c.requests[i].awaitsEnd
    ensures Sound(Ended(c, i))
    ensures Busy(Ended(c, i)) == if Busy(c) == Some(i) then None else Busy(c)
  {
  }

  lemma RequestKeepsSound(c: Connection)
    requires Sound(c) && c.head && forall r | r in c.requests :: r.complete
    ensures var d := c.(requests := c.requests + [Request(false, false, false)], head := false);
            Sound(d) && Busy(d) == Some(|c.requests|)
  {
    assert forall i | 0 <= i < |c.requests| :: c.requests[i] in c.requests;
  }

  lemma BodyKeepsSound(c: Connection)
    requires Sound(c) && c.requests != []
    ensures var d := c.(requests := c.requests[|c.requests| - 1 := Last(c).(complete := true)]);
            Sound(d) && Busy(d) == Busy(c)
  {
  }

  /** Only the connection an event is on changes, in the table as in the world. */
  lemma OneConnectionKeepsInv(w: World, s: Socket, c: Connection, entry: Option<nat>)
    requires Inv(w) && Told(c, entry, w.program.shuttingDown)
    ensures Inv(w.(program := w.program.(table := w.program.table[s := entry]), open := w.open[s := c]))
  {
    var v := w.(program := w.program.(table := w.program.table[s := entry]), open := w.open[s := c]);
    forall o | o in v.open ensures Kept(v, o) {
      if o != s {
        assert Kept(w, o);
      }
    }
  }

  /** What `done` for request `i` makes of a connection and its entry. */
  lemma DoneIsTold(c: Connection, d: Connection, entry: Option<nat>, i: nat, done: bool, shuttingDown: bool)
    requires Told(c, entry, shuttingDown) && Sound(d) && d.closing == c.closing && d.head == c.head
    requires Busy(d) == if done && entry == Some(i) then None else entry
    ensures Told(ClosedIf(d, done && entry == Some(i) && shuttingDown),
                 if done && entry == Some(i) then None else entry, shuttingDown)
  {
  }

  lemma AnswerKeepsInv(w: World, s: Socket, i: nat)
    requires Inv(w) && s in w.open && i < |w.open[s].requests|
    requires forall j | 0 <= j < i :: w.open[s].requests[j].finished
    ensures Inv(AfterAnswer(w, s, i))
  {
    assert Kept(w, s);
    var c, entry, p := w.open[s], w.program.table[s], w.program;
    var done := c.requests[i].complete;
    FinishKeepsSound(c, i);
    DoneIsTold(c, Finished(c, i), entry, i, done, p.shuttingDown);
    OneConnectionKeepsInv(w, s, ClosedIf(Finished(c, i), done && entry == Some(i) && p.shuttingDown),
                          if done && entry == Some(i) then None else entry);
    assert p.table == p.table[s := entry];
  }

  lemma EndKeepsInv(w: World, s: Socket, i: nat)
    requires Inv(w) && s in w.open && i < |w.open[s].requests|
    requires w.open[s].requests[i].complete && w.open[s].requests[i].awaitsEnd
    ensures Inv(AfterEnd(w, s, i))
  {
    assert Kept(w, s);
    var c, entry, p := w.open[s], w.program.table[s], w.program;
    EndKeepsSound(c, i);
    DoneIsTold(c, Ended(c, i), entry, i, true, p.shuttingDown);
    OneConnectionKeepsInv(w, s, ClosedIf(Ended(c, i), entry == Some(i) && p.shuttingDown),
                          if entry == Some(i) then None else entry);
    assert p.table == p.table[s := entry];
  }

  lemma RequestKeepsInv(w: World, s: Socket)
    requires Inv(w) && s in w.open && w.open[s].head && forall r | r in w.open[s].requests :: r.complete
    ensures Inv(AfterRequest(w, s))
  {
    assert Kept(w, s);
    RequestKeepsSound(w.open[s]);
    var v := AfterRequest(w, s);
    OneConnectionKeepsInv(w, s, v.open[s], v.program.table[s]);
  }

  lemma BodyKeepsInv(w: World, s: Socket)
    requires Inv(w) && s in w.open && w.open[s].requests != []
    ensures Inv(AfterBody(w, s))
  {
    assert Kept(w, s);
    BodyKeepsSound(w.open[s]);
    var v := AfterBody(w, s);
    OneConnectionKeepsInv(w, s, v.open[s], w.program.table[s]);
    assert w.program.table == w.program.table[s := w.program.table[s]];
  }

  lemma ConnectKeepsInv(w: World, s: Socket)
    requires Inv(w) && s !in w.open && !w.program.shuttingDown
    ensures Inv(w.(program := Track(w.program, s), open := w.open[s := Connection([], false, false, false)]))
  {
    OneConnectionKeepsInv(w, s, Connection([], false, false, false), None);
  }

  lemma BytesKeepInv(w: World, s: Socket)
    requires Inv(w) && s in w.open
    ensures Inv(w.(open := w.open[s := w.open[s].(read := true, head := true)]))
  {
    assert Kept(w, s);
    OneConnectionKeepsInv(w, s, w.open[s].(read := true, head := true), w.program.table[s]);
    assert w.program.table == w.program.table[s := w.program.table[s]];
  }

  lemma SocketCloseKeepsInv(w: World, s: Socket)
    requires Inv(w)
    ensures Inv(w.(program := OnSocketClose(w.program, s), open := w.open - {s}))
  {
    var v := w.(program := OnSocketClose(w.program, s), open := w.open - {s});
    forall o | o in v.open ensures Kept(v, o) {
      assert Kept(w, o);
    }
  }

  /** The program has let go of a connection only once every request received on it is done with. */
  lemma NotBusyIsSettled(c: Connection)
    requires Sound(c) && Busy(c).None?
    ensures Settled(c)
  {
    if c.requests != [] {
      assert Last(c) == c.requests[|c.requests| - 1];
    }
  }

  /** With the idle and the unread closed, what is left is busy or has a head arriving. */
  lemma ClosingIsTold(c: Connection, entry: Option<nat>, closes: bool)
    requires Told(c, entry, false)
    requires Idle(c) || !c.read ==> closes
    ensures Told(ClosedIf(c, closes), entry, true)
  {
    if Busy(c).None? {
      NotBusyIsSettled(c);
    }
  }

  lemma SignalKeepsInv(w: World, idle: set<Socket>)
    requires Inv(w) && forall s | s in w.open && Idle(w.open[s]) :: s in idle
    ensures Inv(AfterSignal(w, idle))
  {
    var v := AfterSignal(w, idle);
    if !w.program.shuttingDown {
      forall s | s in v.open ensures Kept(v, s) {
        assert Kept(w, s);
        assert v.open[s] == ClosedIf(w.open[s], s in idle + Unread(w));
        ClosingIsTold(w.open[s], w.program.table[s], s in idle + Unread(w));
      }
    }
  }

  lemma ClosedIsTold(c: Connection, entry: Option<nat>, shuttingDown: bool)
    requires Told(c, entry, shuttingDown)
    ensures Told(ClosedIf(c, true), entry, shuttingDown)
  {
  }

  lemma DeadlineKeepsInv(w: World)
    requires Inv(w)
    ensures Inv(w.(open := Close(w.open, w.open.Keys), deadlinePassed := true))
  {
    var v := w.(open := Close(w.open, w.open.Keys), deadlinePassed := true);
    forall s | s in v.open ensures Kept(v, s) {
      assert Kept(w, s);
      assert v.open[s] == ClosedIf(w.open[s], true);
      ClosedIsTold(w.open[s], w.program.table[s], w.program.shuttingDown);
    }
  }

  lemma StepKeepsInv(w: World, e: Event)
    requires Inv(w) && Enabled(w, e)
    ensures Inv(Step(w, e))
  {
    match e {
      case Connect(s) => ConnectKeepsInv(w, s);
      case BytesArrive(s) => BytesKeepInv(w, s);
      case RequestStarts(s) => RequestKeepsInv(w, s);
      case BodyCompletes(s) => BodyKeepsInv(w, s);
      case AnswerFinishes(s, i) => AnswerKeepsInv(w, s, i);
      case EndFires(s, i) => EndKeepsInv(w, s, i);
      case SocketCloses(s) => SocketCloseKeepsInv(w, s);
      case Signal(idle) => SignalKeepsInv(w, idle);
      case Deadline => DeadlineKeepsInv(w);
    }
  }

  lemma {:induction false} RunKeepsInv(w: World, events: seq<Event>)
    requires Inv(w) && RunFrom(w, events).Some?
    ensures Inv(RunFrom(w, events).value)
    decreases events
  {
    if events != [] {
      StepKeepsInv(w, events[0]);
      RunKeepsInv(Step(w, events[0]), events[1..]);
    }
  }

  // ---- the theorems, over every run ----

  /** The table holds exactly the open connections, each with its latest request until that is done. */
  lemma TableIsExact(events: seq<Event>)
    requires RunFrom(INITIAL, events).Some?
    ensures var w := RunFrom(INITIAL, events).value;
            && w.program.table.Keys == w.open.Keys
            && forall s | s in w.open :: w.program.table[s] == Busy(w.open[s])
  {
    RunKeepsInv(INITIAL, events);
    var w := RunFrom(INITIAL, events).value;
    forall s | s in w.open ensures w.program.table[s] == Busy(w.open[s]) {
      assert Kept(w, s);
    }
  }

  lemma OwnClosesAreSettled(w: World, e: Event, s: Socket)
    requires Inv(w) && Enabled(w, e) && s in OwnCloses(w, e)
    ensures s in w.open && s in Step(w, e).open
    ensures var c := Step(w, e).open[s];
            c.closing && Settled(c) && |c.requests| == |w.open[s].requests|
  {
    assert Kept(w, s);
    StepKeepsInv(w, e);
    assert Kept(Step(w, e), s);
    if !e.Signal? {
      NotBusyIsSettled(Step(w, e).open[s]);
    }
  }

  /**
   * Safety. Every connection the drain itself closes, on a signal or as a
   * request is done, has every request received on it answered, the answer
   * written out and the body arrived.
   */
  lemma OwnClosesHitOnlySettledConnections(events: seq<Event>, e: Event, s: Socket)
    requires RunFrom(INITIAL, events).Some? && Enabled(RunFrom(INITIAL, events).value, e)
    requires s in OwnCloses(RunFrom(INITIAL, events).value, e)
    ensures var v := Step(RunFrom(INITIAL, events).value, e);
            s in v.open && v.open[s].closing && Settled(v.open[s])
  {
    RunKeepsInv(INITIAL, events);
    OwnClosesAreSettled(RunFrom(INITIAL, events).value, e, s);
  }

  /**
   * Promptness. Once the signal has come, every connection left open is
   * already being closed, or a request's head is arriving on it, or its latest
   * request is not done: the event that makes that request done closes it.
   */
  lemma DrainLeavesOnlyBusyConnections(events: seq<Event>, s: Socket)
    requires RunFrom(INITIAL, events).Some?
    requires var w := RunFrom(INITIAL, events).value;
             w.program.shuttingDown && s in w.open
    ensures var c := RunFrom(INITIAL, events).value.open[s];
            c.closing || c.head || Busy(c).Some?
  {
    RunKeepsInv(INITIAL, events);
    assert Kept(RunFrom(INITIAL, events).value, s);
  }

  lemma AnswerFrees(w: World, t: Socket, i: nat, s: Socket)
    requires Inv(w) && Enabled(w, AnswerFinishes(t, i)) && w.program.shuttingDown
    requires s in w.open && Busy(w.open[s]).Some?
    ensures s in OwnCloses(w, AnswerFinishes(t, i)) <==> Busy(AfterAnswer(w, t, i).open[s]).None?
  {
    assert Kept(w, s);
    if t == s {
      FinishKeepsSound(w.open[s], i);
    }
  }

  lemma EndFrees(w: World, t: Socket, i: nat, s: Socket)
    requires Inv(w) && Enabled(w, EndFires(t, i)) && w.program.shuttingDown
    requires s in w.open && Busy(w.open[s]).Some?
    ensures s in OwnCloses(w, EndFires(t, i)) <==> Busy(AfterEnd(w, t, i).open[s]).None?
  {
    assert Kept(w, s);
    if t == s {
      EndKeepsSound(w.open[s], i);
    }
  }

  lemma OthersFreeNone(w: World, e: Event, s: Socket)
    requires Enabled(w, e) && w.program.shuttingDown && !e.AnswerFinishes? && !e.EndFires?
    requires s in w.open && Busy(w.open[s]).Some? && s in Step(w, e).open
    ensures s !in OwnCloses(w, e) && Busy(Step(w, e).open[s]).Some?
  {
  }

  /** During the drain a busy connection is closed exactly by the event that leaves its latest request done. */
  lemma DoneClosesAtOnce(events: seq<Event>, e: Event, s: Socket)
    requires RunFrom(INITIAL, events).Some? && Enabled(RunFrom(INITIAL, events).value, e)
    requires var w := RunFrom(INITIAL, events).value;
             w.program.shuttingDown && s in w.open && Busy(w.open[s]).Some? && s in Step(w, e).open
    ensures var w := RunFrom(INITIAL, events).value;
            s in OwnCloses(w, e) <==> Busy(Step(w, e).open[s]).None?
  {
    var w := RunFrom(INITIAL, events).value;
    RunKeepsInv(INITIAL, events);
    match e {
      case AnswerFinishes(t, i) => AnswerFrees(w, t, i, s);
      case EndFires(t, i) => EndFrees(w, t, i, s);
      case _ => OthersFreeNone(w, e, s);
    }
  }

  // ---- before the signal, and at the deadline ----

  /** Before the signal the program closes nothing, whatever happens. */
  lemma ClosesNothingBeforeTheSignal(w: World, e: Event)
    requires Enabled(w, e) && !w.program.shuttingDown && !e.Signal?
    ensures OwnCloses(w, e) == {}
  {
  }

  /** No connection is being closed from this side. */
  ghost predicate NoneClosing(w: World) {
    !w.program.shuttingDown && forall s | s in w.open :: !w.open[s].closing
  }

  lemma StaysUnclosed(w: World, e: Event)
    requires NoneClosing(w) && Enabled(w, e) && !e.Signal?
    ensures NoneClosing(Step(w, e))
  {
  }

  lemma {:induction false} RunStaysUnclosed(w: World, events: seq<Event>)
    requires NoneClosing(w) && RunFrom(w, events).Some?
    requires forall e | e in events :: !e.Signal?
    ensures NoneClosing(RunFrom(w, events).value)
    decreases events
  {
    if events != [] {
      assert events[0] in events;
      StaysUnclosed(w, events[0]);
      RunStaysUnclosed(Step(w, events[0]), events[1..]);
    }
  }

  /** Over every run with no signal, no open connection is being closed, however many requests it has answered. */
  lemma NothingClosesWithoutASignal(events: seq<Event>, s: Socket)
    requires RunFrom(INITIAL, events).Some? && forall e | e in events :: !e.Signal?
    requires s in RunFrom(INITIAL, events).value.open
    ensures !RunFrom(INITIAL, events).value.program.shuttingDown
    ensures !RunFrom(INITIAL, events).value.open[s].closing
  {
    RunStaysUnclosed(INITIAL, events);
  }

  /** The first signal closes, of the program's own accord, exactly the connections nothing was read from; a later one none. */
  lemma SignalClosesTheUnread(events: seq<Event>, idle: set<Socket>, s: Socket)
    requires RunFrom(INITIAL, events).Some? && Enabled(RunFrom(INITIAL, events).value, Signal(idle))
    ensures var w := RunFrom(INITIAL, events).value;
            s in OwnCloses(w, Signal(idle)) <==> !w.program.shuttingDown && s in w.open && !w.open[s].read
  {
    RunKeepsInv(INITIAL, events);
  }

  /** The deadline leaves no connection that is not being closed. */
  lemma DeadlineClosesAll(w: World, s: Socket)
    requires Enabled(w, Deadline) && s in w.open
    ensures s in Step(w, Deadline).open && Step(w, Deadline).open[s].closing
  {
  }

  /** Tracking a connection again forgets nothing of any. */
  lemma TrackForgetsNothing(p: Program, socket: Socket, other: Socket)
    ensures other in Track(p, socket).table <==> other in p.table || other == socket
    ensures other in p.table ==> Track(p, socket).table[other] == p.table[other]
    ensures socket !in p.table ==> Track(p, socket).table[socket] == None
  {
  }
}
