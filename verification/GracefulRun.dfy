/**
 * The whole shutdown: the drain's world and what ends it, over one sequence of
 * events. The signal and the deadline are one event to both.
 *
 * Assumed of the server: its close succeeds only once no connection is open.
 */
module GracefulRun {
  import opened Wrappers
  import Drain
  import O = ShutdownOutcome

  /** A connection gone: its requests, and how many of them had come when the drain itself closed it, if it did. */
  datatype Gone = Gone(requests: seq<Drain.Request>, closedAt: Option<nat>)

  /** `closedAt` and `gone` are the log: what the drain has closed, and what is no more. */
  datatype State = State(
    world: Drain.World,
    outcome: O.State,
    closedAt: map<Drain.Socket, nat>,
    gone: seq<Gone>,
    connected: nat)

  const INITIAL := State(Drain.INITIAL, O.INITIAL, map[], [], 0)

  datatype Event =
    | Traffic(traffic: Drain.Event)    // anything of the world's but the two events below
    | Signal(idle: set<Drain.Socket>)
    | Deadline
    | Ends(end: O.Event)               // the close callback, and how the cleanup ends

  predicate IsTraffic(e: Drain.Event) {
    !e.Signal? && !e.Deadline?
  }

  predicate IsEnd(e: O.Event) {
    !e.Signal? && !e.DeadlineFires?
  }

  /** What an event is to the drain's world. */
  function InWorld(e: Event): Option<Drain.Event> {
    match e
    case Traffic(t) => Some(t)
    case Signal(idle) => Some(Drain.Signal(idle))
    case Deadline => Some(Drain.Deadline)
    case Ends(_) => None
  }

  /** What an event is to the race that ends it. */
  function InOutcome(e: Event): Option<O.Event> {
    match e
    case Traffic(_) => None
    case Signal(_) => Some(O.Signal)
    case Deadline => Some(O.DeadlineFires)
    case Ends(end) => Some(end)
  }

  predicate Enabled(s: State, e: Event) {
    && (e.Traffic? ==> IsTraffic(e.traffic))
    && (e.Ends? ==> IsEnd(e.end) && (e.end == O.CloseCallback(true) ==> s.world.open == map[]))
    && (InWorld(e).Some? ==> Drain.Enabled(s.world, InWorld(e).value))
    && (InOutcome(e).Some? ==> O.Enabled(s.outcome, InOutcome(e).value))
  }

  /** The open connections the drain has closed by now, each with the requests that had come by then. */
  ghost function ClosedAfter(s: State, e: Drain.Event): map<Drain.Socket, nat>
    requires Drain.Enabled(s.world, e)
  {
    var open, closes := Drain.Step(s.world, e).open, Drain.OwnCloses(s.world, e);
    map c | c in s.world.open && c in open && (c in s.closedAt || c in closes) ::
      if c in s.closedAt then s.closedAt[c] else |s.world.open[c].requests|
  }

  function GoneAfter(s: State, e: Drain.Event): seq<Gone>
    requires Drain.Enabled(s.world, e)
  {
    if e.SocketCloses? then
      s.gone + [Gone(s.world.open[e.socket].requests,
                     if e.socket in s.closedAt then Some(s.closedAt[e.socket]) else None)]
    else s.gone
  }

  ghost function WorldStep(s: State, e: Drain.Event): State
    requires Drain.Enabled(s.world, e)
  {
    State(Drain.Step(s.world, e), s.outcome, ClosedAfter(s, e), GoneAfter(s, e),
          if e.Connect? then s.connected + 1 else s.connected)
  }

  ghost function Step(s: State, e: Event): State
    requires Enabled(s, e)
  {
    var moved := if InWorld(e).Some? then WorldStep(s, InWorld(e).value) else s;
    if InOutcome(e).Some? then moved.(outcome := O.Step(s.outcome, InOutcome(e).value)) else moved
  }

  /** A run's state, its latest event last. */
  ghost function Run(events: seq<Event>): Option<State> {
    if events == [] then Some(INITIAL)
    else
      var before := Run(events[..|events| - 1]);
      var last := events[|events| - 1];
      if before.Some? && Enabled(before.value, last) then Some(Step(before.value, last)) else None
  }

  /** The part of a run the race is decided by. */
  function Outcomes(events: seq<Event>): (r: seq<O.Event>)
    ensures forall o :: o in r <==> exists e :: e in events && InOutcome(e) == Some(o)
  {
    if events == [] then []
    else
      var last := events[|events| - 1];
      var before := Outcomes(events[..|events| - 1]);
      assert events == events[..|events| - 1] + [last];
      if InOutcome(last).Some? then before + [InOutcome(last).value] else before
  }

  // ---- what holds over every run ----

  /** The first of a connection's requests are answered, the answers written out, and their bodies have arrived. */
  predicate Answered(requests: seq<Drain.Request>, n: nat) {
    n <= |requests| && forall i | 0 <= i < n :: requests[i].finished && requests[i].complete
  }

  /** Everything the drain has closed is answered as far as it had come. */
  ghost predicate LogHolds(s: State) {
    && (forall c | c in s.closedAt :: c in s.world.open && Answered(s.world.open[c].requests, s.closedAt[c]))
    && (forall g | g in s.gone :: g.closedAt.Some? ==> Answered(g.requests, g.closedAt.value))
  }

  ghost predicate WorldInv(s: State) {
    Drain.Inv(s.world) && LogHolds(s) && s.connected == |s.gone| + |s.world.open|
  }

  ghost predicate Inv(s: State) {
    WorldInv(s) && s.world.program.shuttingDown == s.outcome.shuttingDown
  }

  /** No event takes back an answer. */
  lemma StepKeepsAnswered(w: Drain.World, e: Drain.Event, c: Drain.Socket, n: nat)
    requires Drain.Enabled(w, e) && c in w.open && Answered(w.open[c].requests, n)
    requires c in Drain.Step(w, e).open
    ensures Answered(Drain.Step(w, e).open[c].requests, n)
  {
  }

  /** What the drain closes is answered in full as it is closed. */
  lemma ClosedIsAnswered(w: Drain.World, e: Drain.Event, c: Drain.Socket)
    requires Drain.Inv(w) && Drain.Enabled(w, e) && c in Drain.OwnCloses(w, e)
    ensures c in Drain.Step(w, e).open
    ensures Answered(Drain.Step(w, e).open[c].requests, |w.open[c].requests|)
  {
    Drain.OwnClosesAreSettled(w, e, c);
    var after := Drain.Step(w, e).open[c];
    forall i | 0 <= i < |after.requests| ensures after.requests[i].finished && after.requests[i].complete {
      assert after.requests[i] in after.requests;
    }
  }

  lemma ClosedStays(s: State, e: Drain.Event, c: Drain.Socket)
    requires Drain.Inv(s.world) && LogHolds(s) && Drain.Enabled(s.world, e) && c in ClosedAfter(s, e)
    ensures Answered(Drain.Step(s.world, e).open[c].requests, ClosedAfter(s, e)[c])
  {
    if c in s.closedAt {
      StepKeepsAnswered(s.world, e, c, s.closedAt[c]);
    } else {
      ClosedIsAnswered(s.world, e, c);
    }
  }

  lemma GoneStays(s: State, e: Drain.Event)
    requires LogHolds(s) && Drain.Enabled(s.world, e)
    ensures forall g | g in GoneAfter(s, e) :: g.closedAt.Some? ==> Answered(g.requests, g.closedAt.value)
    ensures |GoneAfter(s, e)| == if e.SocketCloses? then |s.gone| + 1 else |s.gone|
  {
  }

  lemma LogStays(s: State, e: Drain.Event)
    requires Drain.Inv(s.world) && LogHolds(s) && Drain.Enabled(s.world, e)
    ensures LogHolds(WorldStep(s, e))
  {
    forall c | c in ClosedAfter(s, e)
      ensures c in Drain.Step(s.world, e).open && Answered(Drain.Step(s.world, e).open[c].requests, ClosedAfter(s, e)[c])
    {
      ClosedStays(s, e, c);
    }
    GoneStays(s, e);
  }

  /** Connections come with `Connect`, go with `SocketCloses`, and otherwise stay. */
  lemma OpenAfter(w: Drain.World, e: Drain.Event)
    requires Drain.Enabled(w, e)
    ensures Drain.Step(w, e).open.Keys ==
            match e
            case Connect(c) => w.open.Keys + {c}
            case SocketCloses(c) => w.open.Keys - {c}
            case _ => w.open.Keys
  {
  }

  lemma CountAfter(w: Drain.World, e: Drain.Event)
    requires Drain.Enabled(w, e)
    ensures |Drain.Step(w, e).open| ==
            match e
            case Connect(_) => |w.open| + 1
            case SocketCloses(_) => |w.open| - 1
            case _ => |w.open|
  {
    OpenAfter(w, e);
    assert |Drain.Step(w, e).open| == |Drain.Step(w, e).open.Keys| && |w.open| == |w.open.Keys|;
  }

  lemma ShuttingDownAfter(w: Drain.World, e: Drain.Event)
    requires Drain.Enabled(w, e)
    ensures Drain.Step(w, e).program.shuttingDown == (w.program.shuttingDown || e.Signal?)
  {
  }

  lemma WorldStepKeepsInv(s: State, e: Drain.Event)
    requires WorldInv(s) && Drain.Enabled(s.world, e)
    ensures WorldInv(WorldStep(s, e))
  {
    Drain.StepKeepsInv(s.world, e);
    LogStays(s, e);
    GoneStays(s, e);
    CountAfter(s.world, e);
  }

  /** The race's own variables are none of the world's. */
  lemma OutcomeIsAside(s: State, outcome: O.State)
    requires WorldInv(s)
    ensures WorldInv(s.(outcome := outcome))
  {
  }

  lemma OutcomeShutsDown(o: O.State, e: O.Event)
    requires O.Enabled(o, e)
    ensures O.Step(o, e).shuttingDown == (o.shuttingDown || e.Signal?)
  {
  }

  lemma StepKeepsWorldInv(s: State, e: Event)
    requires WorldInv(s) && Enabled(s, e)
    ensures WorldInv(Step(s, e))
  {
    var moved := if InWorld(e).Some? then WorldStep(s, InWorld(e).value) else s;
    if InWorld(e).Some? {
      WorldStepKeepsInv(s, InWorld(e).value);
    }
    if InOutcome(e).Some? {
      OutcomeIsAside(moved, O.Step(s.outcome, InOutcome(e).value));
    }
  }

  lemma StepKeepsLink(s: State, e: Event)
    requires s.world.program.shuttingDown == s.outcome.shuttingDown && Enabled(s, e)
    ensures Step(s, e).world.program.shuttingDown == Step(s, e).outcome.shuttingDown
  {
    if InWorld(e).Some? {
      ShuttingDownAfter(s.world, InWorld(e).value);
    }
    if InOutcome(e).Some? {
      OutcomeShutsDown(s.outcome, InOutcome(e).value);
    }
  }

  lemma StepKeepsInv(s: State, e: Event)
    requires Inv(s) && Enabled(s, e)
    ensures Inv(Step(s, e))
  {
    StepKeepsWorldInv(s, e);
    StepKeepsLink(s, e);
  }

  /** Once the server is down nothing is open, and nothing opens again. */
  lemma NothingOpens(w: Drain.World, e: Drain.Event)
    requires Drain.Enabled(w, e) && w.open == map[] && w.program.shuttingDown
    ensures Drain.Step(w, e).open == map[]
  {
    OpenAfter(w, e);
  }

  lemma {:induction false} RunKeepsInv(events: seq<Event>)
    requires Run(events).Some?
    ensures Inv(Run(events).value)
  {
    if events != [] {
      RunKeepsInv(events[..|events| - 1]);
      StepKeepsInv(Run(events[..|events| - 1]).value, events[|events| - 1]);
    }
  }

  lemma {:induction false} RunDecides(events: seq<Event>)
    requires Run(events).Some?
    ensures O.Run(Outcomes(events)) == Some(Run(events).value.outcome)
  {
    if events != [] {
      var before, last := events[..|events| - 1], events[|events| - 1];
      RunDecides(before);
      assert events == before + [last];
      OutcomesStep(before, last, Run(before).value);
    }
  }

  lemma {:induction false} DeadlineIsPassedByIt(events: seq<Event>)
    requires Run(events).Some?
    ensures Run(events).value.world.deadlinePassed <==> Deadline in events
  {
    if events != [] {
      var before, last := events[..|events| - 1], events[|events| - 1];
      DeadlineIsPassedByIt(before);
      assert events == before + [last];
      DeadlineStep(Run(before).value, last);
    }
  }

  /** The server came down cleanly, and so with nothing open. */
  ghost predicate Down(s: State) {
    s.world.open == map[] && s.world.program.shuttingDown
  }

  lemma StaysDown(s: State, e: Event)
    requires Down(s) && Enabled(s, e)
    ensures Down(Step(s, e))
  {
    if InWorld(e).Some? {
      NothingOpens(s.world, InWorld(e).value);
      ShuttingDownAfter(s.world, InWorld(e).value);
    }
  }

  lemma {:induction false} ClosedMeansDown(events: seq<Event>)
    requires Run(events).Some? && Ends(O.CloseCallback(true)) in events
    ensures Down(Run(events).value)
  {
    var before, last := events[..|events| - 1], events[|events| - 1];
    var s := Run(before).value;
    assert events == before + [last];
    RunKeepsInv(before);
    RunDecides(before);
    if last == Ends(O.CloseCallback(true)) {
      O.RunIsTold(Outcomes(before));
    } else {
      ClosedMeansDown(before);
      StaysDown(s, last);
    }
  }

  lemma OutcomesStep(before: seq<Event>, last: Event, s: State)
    requires Enabled(s, last) && O.Run(Outcomes(before)) == Some(s.outcome)
    ensures O.Run(Outcomes(before + [last])) == Some(Step(s, last).outcome)
    ensures Outcomes(before + [last]) ==
            if InOutcome(last).Some? then Outcomes(before) + [InOutcome(last).value] else Outcomes(before)
  {
    var all := before + [last];
    assert all[..|all| - 1] == before && all[|all| - 1] == last;
    if InOutcome(last).Some? {
      var outcomes := Outcomes(before) + [InOutcome(last).value];
      assert outcomes[..|outcomes| - 1] == Outcomes(before);
    }
  }

  lemma DeadlineStep(s: State, e: Event)
    requires Enabled(s, e)
    ensures Step(s, e).world.deadlinePassed == (s.world.deadlinePassed || e == Deadline)
  {
  }

  // ---- the theorems ----

  /**
   * Over every run, a connection the drain closed had every request received
   * on it by then answered, the answer written out and the body arrived, and
   * has them still, be it open or gone.
   */
  lemma WhatTheDrainClosedWasAnswered(events: seq<Event>)
    requires Run(events).Some?
    ensures var s := Run(events).value;
            && (forall c | c in s.closedAt :: c in s.world.open && Answered(s.world.open[c].requests, s.closedAt[c]))
            && (forall g | g in s.gone :: g.closedAt.Some? ==> Answered(g.requests, g.closedAt.value))
  {
    RunKeepsInv(events);
  }

  /**
   * An exit of 0 lost nothing of the drain's doing: the deadline's cut never
   * happened, every connection there ever was is gone, and each one the drain
   * closed had every request received on it by then answered.
   */
  lemma ExitZeroCutNothing(events: seq<Event>)
    requires Run(events).Some? && Run(events).value.outcome.exits != []
    requires Run(events).value.outcome.exits[0].code == 0
    ensures var s := Run(events).value;
            && Deadline !in events && !s.world.deadlinePassed
            && s.world.open == map[] && |s.gone| == s.connected
            && forall g | g in s.gone :: g.closedAt.Some? ==> Answered(g.requests, g.closedAt.value)
  {
    RunKeepsInv(events);
    RunDecides(events);
    O.ExitsZeroExactlyWhenClean(Outcomes(events));
    DeadlineIsAnOutcome(events);
    DeadlineIsPassedByIt(events);
    CloseIsAnEnd(events);
    ClosedMeansDown(events);
  }

  lemma DeadlineIsAnOutcome(events: seq<Event>)
    ensures Deadline in events ==> O.DeadlineFires in Outcomes(events)
  {
    assert InOutcome(Deadline) == Some(O.DeadlineFires);
  }

  lemma CloseIsAnEnd(events: seq<Event>)
    requires O.ClosedInTime(Outcomes(events))
    ensures Ends(O.CloseCallback(true)) in events
  {
    assert O.CloseCallback(true) in Outcomes(events);
    var e :| e in events && InOutcome(e) == Some(O.CloseCallback(true));
    assert e == Ends(O.CloseCallback(true));
  }
}
