/**
 * How a shutdown ends: which of the drain, its deadline and a failed close
 * decides, what the cleanup makes of it, and the code the process exits with.
 *
 * Assumed of the runtime: the close callback comes at most once, after the
 * handler has returned, and a cleared timer does not fire.
 */
module ShutdownOutcome {
  import opened Wrappers

  datatype Reason = Drained | CloseFailed | DrainTimeout | CleanupFailed | CleanupTimeout

  /** What the exit reports: its code, what decided it, and how the drain itself ended. */
  datatype Exit = Exit(code: int, outcome: Reason, drain: Reason)

  /** `cleaning` is `finish` awaiting the cleanup, with the code and reason it was called with. */
  datatype State = State(
    shuttingDown: bool,
    deadlineArmed: bool,
    closeAwaited: bool,
    finished: bool,
    cleaning: Option<(int, Reason)>,
    cleanupsStarted: nat,
    exits: seq<Exit>)

  const INITIAL := State(false, false, false, false, None, 0, [])

  datatype Event =
    | Signal
    | CloseCallback(ok: bool)
    | DeadlineFires
    | CleanupSettles   // also: there is no cleanup to run
    | CleanupThrows
    | CleanupTimerFires

  predicate Enabled(s: State, e: Event) {
    match e
    case Signal => true
    case CloseCallback(_) => s.closeAwaited
    case DeadlineFires => s.deadlineArmed
    case CleanupSettles => s.cleaning.Some?
    case CleanupThrows => s.cleaning.Some?
    case CleanupTimerFires => s.cleaning.Some?
  }

  /** `finish`, up to its await. */
  function Finish(s: State, code: int, reason: Reason): State {
    if s.finished then s
    else s.(finished := true, cleaning := Some((code, reason)), cleanupsStarted := s.cleanupsStarted + 1)
  }

  /** The rest of `finish`, once the race between the cleanup and its timer is over. */
  function Conclude(s: State, failure: Option<Reason>): State
    requires s.cleaning.Some?
  {
    var (code, reason) := s.cleaning.value;
    var exit := if failure.Some? then Exit(1, failure.value, reason) else Exit(code, reason, reason);
    s.(cleaning := None, exits := s.exits + [exit])
  }

  function Step(s: State, e: Event): State
    requires Enabled(s, e)
  {
    match e
    case Signal =>
      if s.shuttingDown then s else s.(shuttingDown := true, deadlineArmed := true, closeAwaited := true)
    case CloseCallback(ok) =>
      Finish(s.(closeAwaited := false, deadlineArmed := false), if ok then 0 else 1, if ok then Drained else CloseFailed)
    case DeadlineFires => Finish(s.(deadlineArmed := false), 1, DrainTimeout)
    case CleanupSettles => Conclude(s, None)
    case CleanupThrows => Conclude(s, Some(CleanupFailed))
    case CleanupTimerFires => Conclude(s, Some(CleanupTimeout))
  }

  /** A run's state, its latest event last. */
  function Run(events: seq<Event>): Option<State> {
    if events == [] then Some(INITIAL)
    else
      var before := Run(events[..|events| - 1]);
      var last := events[|events| - 1];
      if before.Some? && Enabled(before.value, last) then Some(Step(before.value, last)) else None
  }

  // ---- what happened, told from the events alone ----

  /** The event came, and the deadline had not passed before it. */
  ghost predicate InTime(events: seq<Event>, e: Event) {
    exists i :: 0 <= i < |events| && events[i] == e && DeadlineFires !in events[..i]
  }

  /** The listener came down cleanly before the deadline passed. */
  ghost predicate ClosedInTime(events: seq<Event>) {
    InTime(events, CloseCallback(true))
  }

  /** What has been seen, event by event, and which end of the listener came before the deadline. */
  datatype Seen = Seen(signal: bool, closed: bool, failed: bool, deadline: bool,
                       settled: bool, threw: bool, ranOut: bool, closedInTime: bool, failedInTime: bool)

  ghost function See(events: seq<Event>): Seen {
    Seen(Signal in events, CloseCallback(true) in events, CloseCallback(false) in events, DeadlineFires in events,
         CleanupSettles in events, CleanupThrows in events, CleanupTimerFires in events,
         ClosedInTime(events), InTime(events, CloseCallback(false)))
  }

  function SeeNext(seen: Seen, last: Event): Seen {
    Seen(seen.signal || last == Signal,
         seen.closed || last == CloseCallback(true), seen.failed || last == CloseCallback(false),
         seen.deadline || last == DeadlineFires,
         seen.settled || last == CleanupSettles, seen.threw || last == CleanupThrows,
         seen.ranOut || last == CleanupTimerFires,
         seen.closedInTime || (last == CloseCallback(true) && !seen.deadline),
         seen.failedInTime || (last == CloseCallback(false) && !seen.deadline))
  }

  lemma InTimeOneMore(events: seq<Event>, last: Event, e: Event)
    ensures InTime(events + [last], e) <==> InTime(events, e) || (last == e && DeadlineFires !in events)
  {
    var all := events + [last];
    assert all[..|events|] == events && all[|events|] == last;
    if InTime(events, e) {
      var i :| 0 <= i < |events| && events[i] == e && DeadlineFires !in events[..i];
      assert all[i] == e && all[..i] == events[..i];
    }
    if InTime(all, e) {
      var i :| 0 <= i < |all| && all[i] == e && DeadlineFires !in all[..i];
      if i < |events| {
        assert events[i] == e && events[..i] == all[..i];
      }
    }
  }

  lemma SeeOneMore(events: seq<Event>, last: Event)
    ensures See(events + [last]) == SeeNext(See(events), last)
  {
    InTimeOneMore(events, last, CloseCallback(true));
    InTimeOneMore(events, last, CloseCallback(false));
    InOneMore(events, last);
  }

  lemma InOneMore(events: seq<Event>, last: Event)
    ensures forall e :: e in events + [last] <==> e in events || e == last
  {
  }

  /** How the drain ended, by what came first. */
  function Verdict(seen: Seen): (int, Reason) {
    if seen.closedInTime then (0, Drained)
    else if seen.deadline && !seen.failedInTime then (1, DrainTimeout)
    else (1, CloseFailed)
  }

  function ExitOf(seen: Seen): Exit {
    var (code, drain) := Verdict(seen);
    if seen.threw then Exit(1, CleanupFailed, drain)
    else if seen.ranOut then Exit(1, CleanupTimeout, drain)
    else Exit(code, drain, drain)
  }

  /** The state, from what has been seen. */
  predicate Told(seen: Seen, s: State) {
    && s.shuttingDown == seen.signal
    && s.closeAwaited == (seen.signal && !seen.closed && !seen.failed)
    && s.deadlineArmed == (s.closeAwaited && !seen.deadline)
    && !(seen.closed && seen.failed)
    && s.finished == (seen.closed || seen.failed || seen.deadline)
    && (s.finished ==> seen.signal)
    && s.cleanupsStarted == (if s.finished then 1 else 0)
    && s.cleaning == (if s.finished && !seen.settled && !seen.threw && !seen.ranOut then Some(Verdict(seen)) else None)
    && s.exits == (if s.finished && s.cleaning.None? then [ExitOf(seen)] else [])
    && (seen.settled || seen.threw || seen.ranOut ==> s.finished)
    && !(seen.settled && seen.threw) && !(seen.settled && seen.ranOut) && !(seen.threw && seen.ranOut)
    && (seen.closedInTime ==> seen.closed && !seen.deadline) && (seen.failedInTime ==> seen.failed)
    && (seen.closed || seen.failed || seen.deadline ==> seen.closedInTime || seen.failedInTime || seen.deadline)
  }

  lemma StepIsTold(seen: Seen, s: State, last: Event)
    requires Told(seen, s) && Enabled(s, last)
    ensures Told(SeeNext(seen, last), Step(s, last))
  {
  }

  lemma {:induction false} RunIsTold(events: seq<Event>)
    requires Run(events).Some?
    ensures Told(See(events), Run(events).value)
  {
    if events != [] {
      var before, last := events[..|events| - 1], events[|events| - 1];
      RunIsTold(before);
      assert before + [last] == events;
      SeeOneMore(before, last);
      StepIsTold(See(before), Run(before).value, last);
    }
  }

  // ---- the theorems, over every ordering ----

  /** Cleanup is started and the process exited at most once each, and never before something decided the drain. */
  lemma AtMostOneCleanupAndExit(events: seq<Event>)
    requires Run(events).Some?
    ensures var s := Run(events).value;
            && s.cleanupsStarted <= 1 && |s.exits| <= s.cleanupsStarted
            && (s.cleanupsStarted == 1 <==>
                  CloseCallback(true) in events || CloseCallback(false) in events || DeadlineFires in events)
  {
    RunIsTold(events);
  }

  /** A signal once shutting down changes nothing. */
  lemma RepeatedSignalChangesNothing(events: seq<Event>)
    requires Run(events).Some? && Signal in events
    ensures Run(events + [Signal]) == Run(events)
  {
    RunIsTold(events);
    assert (events + [Signal])[..|events|] == events;
  }

  /**
   * The exit is 0, and what it reports is `drained`, exactly when the listener
   * came down before the deadline and the cleanup settled within its budget.
   */
  lemma ExitsZeroExactlyWhenClean(events: seq<Event>)
    requires Run(events).Some? && Run(events).value.exits != []
    ensures var exit := Run(events).value.exits[0];
            && (exit.code == 0 <==> ClosedInTime(events) && CleanupSettles in events)
            && (exit.outcome == Drained <==> ClosedInTime(events) && CleanupSettles in events)
            && (exit.drain == Drained <==> ClosedInTime(events))
            && (exit.code == 0 ==> DeadlineFires !in events)
            && exit.code in {0, 1}
  {
    RunIsTold(events);
  }
}
