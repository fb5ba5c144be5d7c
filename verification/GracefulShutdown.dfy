/** The program of both: the listeners `installGracefulShutdown` registers, as methods over its variables. */
module GracefulShutdown {
  import opened Wrappers
  import Drain
  import O = ShutdownOutcome

  class Shutdown {
    var connections: map<Drain.Socket, Option<nat>>
    var shuttingDown: bool
    var finished: bool
    var deadlineArmed: bool
    var cleaning: Option<(int, O.Reason)>
    ghost var closeAwaited: bool
    ghost var cleanupsStarted: nat
    ghost var exits: seq<O.Exit>

    ghost function Table(): Drain.Program
      reads this
    {
      Drain.Program(connections, shuttingDown)
    }

    ghost function Outcome(): O.State
      reads this
    {
      O.State(shuttingDown, deadlineArmed, closeAwaited, finished, cleaning, cleanupsStarted, exits)
    }

    constructor ()
      ensures Table() == Drain.INITIAL.program && Outcome() == O.INITIAL
    {
      connections, shuttingDown, finished, deadlineArmed, cleaning := map[], false, false, false, None;
      closeAwaited, cleanupsStarted, exits := false, 0, [];
    }

    // ---- the connections ----

    method Track(socket: Drain.Socket)
      modifies this`connections
      ensures Table() == Drain.Track(old(Table()), socket)
    {
      if socket in connections {
        return;
      }
      connections := connections[socket := None];
    }

    method OnRequest(socket: Drain.Socket, request: nat)
      modifies this`connections
      ensures Table() == Drain.OnRequest(old(Table()), socket, request)
    {
      Track(socket);
      connections := connections[socket := Some(request)];
    }

    /** `closes` is `destroySoon` on the socket. */
    method Done(socket: Drain.Socket, request: nat) returns (closes: bool)
      modifies this`connections
      ensures Table() == Drain.Done(old(Table()), socket, request)
      ensures closes == Drain.DoneCloses(old(Table()), socket, request)
      ensures closes <==> shuttingDown && socket in old(connections) && old(connections)[socket] == Some(request)
    {
      if socket !in connections || connections[socket] != Some(request) {
        return false;
      }
      connections := connections[socket := None];
      return shuttingDown;
    }

    /** The answer's `finish`: done at once when the body has arrived, else on the body's `end`. */
    method OnFinish(socket: Drain.Socket, request: nat, complete: bool) returns (closes: bool, awaitsEnd: bool)
      modifies this`connections
      ensures Table() == if complete then Drain.Done(old(Table()), socket, request) else old(Table())
      ensures closes == (complete && Drain.DoneCloses(old(Table()), socket, request))
      ensures closes ==> shuttingDown
      ensures awaitsEnd == !complete
    {
      if complete {
        closes := Done(socket, request);
        return closes, false;
      }
      return false, true;
    }

    method OnSocketClose(socket: Drain.Socket)
      modifies this`connections
      ensures Table() == Drain.OnSocketClose(old(Table()), socket)
    {
      connections := connections - {socket};
    }

    // ---- the signal, and what ends the drain ----

    /** `closed` are the connections the handler closes: those nothing has been read from. */
    method Handler(bytesRead: map<Drain.Socket, nat>) returns (closed: set<Drain.Socket>)
      requires connections.Keys <= bytesRead.Keys
      modifies this
      ensures Outcome() == O.Step(old(Outcome()), O.Signal)
      ensures Table() == old(Table()).(shuttingDown := true)
      ensures closed == if old(shuttingDown) then {} else set s | s in connections && bytesRead[s] == 0
    {
      closed := {};
      if shuttingDown {
        return;
      }
      shuttingDown := true;
      deadlineArmed := true;
      closeAwaited := true;
      var left := connections.Keys;
      while left != {}
        invariant left <= connections.Keys && connections == old(connections)
        invariant Outcome() == O.Step(old(Outcome()), O.Signal)
        invariant closed == set s | s in connections.Keys - left && bytesRead[s] == 0
        decreases left
      {
        var socket :| socket in left;
        if bytesRead[socket] == 0 {
          closed := closed + {socket};
        }
        left := left - {socket};
      }
    }

    /** `starts` is that this call is the one that runs the cleanup. */
    method Finish(code: int, reason: O.Reason) returns (starts: bool)
      modifies this
      ensures Outcome() == O.Finish(old(Outcome()), code, reason)
      ensures Table() == old(Table()) && starts == !old(finished)
    {
      if finished {
        return false;
      }
      finished := true;
      cleaning := Some((code, reason));
      cleanupsStarted := cleanupsStarted + 1;
      return true;
    }

    method OnDeadline() returns (starts: bool)
      requires O.Enabled(Outcome(), O.DeadlineFires)
      modifies this
      ensures Outcome() == O.Step(old(Outcome()), O.DeadlineFires) && Table() == old(Table())
      ensures starts == !old(finished)
    {
      deadlineArmed := false;
      starts := Finish(1, O.DrainTimeout);
    }

    method OnServerClose(ok: bool) returns (starts: bool)
      requires O.Enabled(Outcome(), O.CloseCallback(ok))
      modifies this
      ensures Outcome() == O.Step(old(Outcome()), O.CloseCallback(ok)) && Table() == old(Table())
      ensures starts == !old(finished)
    {
      closeAwaited := false;
      deadlineArmed := false;
      if !ok {
        starts := Finish(1, O.CloseFailed);
        return;
      }
      starts := Finish(0, O.Drained);
    }

    /** The cleanup's race is over: exits with the drain's code, or 1 when the cleanup failed or ran out of time. */
    method Conclude(failure: Option<O.Reason>) returns (exitCode: int, outcome: O.Reason)
      requires cleaning.Some?
      modifies this
      ensures Outcome() == O.Conclude(old(Outcome()), failure) && Table() == old(Table())
      ensures exits == old(exits) + [O.Exit(exitCode, outcome, old(cleaning).value.1)]
    {
      var (code, reason) := cleaning.value;
      exitCode, outcome := code, reason;
      if failure.Some? {
        exitCode, outcome := 1, failure.value;
      }
      cleaning := None;
      exits := exits + [O.Exit(exitCode, outcome, reason)];
    }
  }
}
