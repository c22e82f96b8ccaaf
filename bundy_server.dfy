/**
 * The BUNDYServer mixin: a server object holding three callback tables and
 * a shutdown flag, updated in place by watch_fileno, unwatch_fileno,
 * _trigger_shutdown and _command_handler, and driven by the main loop of
 * _run_internal.
 */
module Server {
  import opened CallbackTables
  import opened ServerSpec
  import opened EventLoop

  class BundyServer {
    var readCallbacks: CallbackTable
    var writeCallbacks: CallbackTable
    var errorCallbacks: CallbackTable
    /** Read through the `shutdown` property; set by _trigger_shutdown. */
    var shutdown: bool

    ghost predicate Valid()
      reads this
    {
      Callbacks().Valid()
    }

    ghost function Callbacks(): (reg: Registry)
      reads this
    {
      Registry(readCallbacks, writeCallbacks, errorCallbacks)
    }

    /** A fresh server watches nothing and is not shutting down. */
    constructor ()
      ensures Valid()
      ensures Callbacks() == EmptyRegistry && !shutdown
      ensures forall fd :: readCallbacks.Lookup(fd) == [] && writeCallbacks.Lookup(fd) == [] &&
                           errorCallbacks.Lookup(fd) == []
    {
      readCallbacks := Empty;
      writeCallbacks := Empty;
      errorCallbacks := Empty;
      shutdown := false;
    }

    /** Only ever sets the flag; nothing clears it. */
    method TriggerShutdown()
      modifies this`shutdown
      ensures shutdown
    {
      shutdown := true;
    }

    /** Registers each callback given for `fd`, read, write and error in
        turn, at the end of that kind's list for `fd`. */
    method WatchFileno(fd: FileNo, rcallback: Option<Callback>, wcallback: Option<Callback>,
                       xcallback: Option<Callback>)
      requires Valid()
      modifies this`readCallbacks, this`writeCallbacks, this`errorCallbacks
      ensures Valid()
      ensures Callbacks() == Watched(old(Callbacks()), fd, rcallback, wcallback, xcallback)
    {
      if rcallback.Some? {
        readCallbacks := Add(readCallbacks, fd, rcallback.value);
      }
      if wcallback.Some? {
        writeCallbacks := Add(writeCallbacks, fd, wcallback.value);
      }
      if xcallback.Some? {
        errorCallbacks := Add(errorCallbacks, fd, xcallback.value);
      }
    }

    /** Deletes the whole entry of `fd` from each table whose flag is set,
        read, then write, then error; fails with the first table that has
        no such entry, keeping the deletions already made. */
    method UnwatchFileno(fd: FileNo, onRead: bool, onWrite: bool, onError: bool) returns (outcome: Outcome)
      requires Valid()
      modifies this`readCallbacks, this`writeCallbacks, this`errorCallbacks
      ensures Valid()
      ensures Unwatching(Callbacks(), outcome) == Unwatched(old(Callbacks()), fd, onRead, onWrite, onError)
    {
      if onRead {
        if fd !in readCallbacks.lists {
          return Fail(NotWatched(Read, fd));
        }
        readCallbacks := Remove(readCallbacks, fd);
      }
      if onWrite {
        if fd !in writeCallbacks.lists {
          return Fail(NotWatched(Write, fd));
        }
        writeCallbacks := Remove(writeCallbacks, fd);
      }
      if onError {
        if fd !in errorCallbacks.lists {
          return Fail(NotWatched(Error, fd));
        }
        errorCallbacks := Remove(errorCallbacks, fd);
      }
      return Pass;
    }

    /** The default module-specific command handler: every command is unknown. */
    method ModCommandHandler(cmd: string) returns (answer: Answer)
      ensures answer.code == 1 && answer.text == Some("Unknown command: " + cmd)
    {
      answer := UnknownCommand(cmd);
    }

    /** "shutdown" sets the flag and succeeds; anything else goes to the
        module-specific handler and leaves the flag as it was. */
    method CommandHandler(cmd: string) returns (answer: Answer)
      modifies this`shutdown
      ensures Handled(shutdown, answer) == HandleCommand(old(shutdown), cmd)
    {
      if cmd == "shutdown" {
        TriggerShutdown();
        answer := Answer(0, None);
      } else {
        answer := ModCommandHandler(cmd);
      }
    }

    /** The dispatch part of one round: the callbacks of the readable, then
        the writable, then the erroneous file numbers select reported. */
    method DispatchReady(ready: FdSets) returns (fired: seq<Callback>)
      ensures fired == Dispatch(Callbacks(), ready)
    {
      var r := InvokeReady(readCallbacks, ready.readFds);
      var w := InvokeReady(writeCallbacks, ready.writeFds);
      var x := InvokeReady(errorCallbacks, ready.errorFds);
      fired := r + w + x;
    }

    /** One pass of the loop body: hand the watched file numbers and `cc`
        to select; unless select was interrupted, invoke the callbacks of
        what it reported and, if `cc` was readable, handle the command the
        CC session delivers. */
    method RunRound(cc: FileNo, input: RoundInput) returns (log: RoundLog)
      requires Valid()
      modifies this`shutdown
      ensures (log, shutdown) == Round(Callbacks(), cc, old(shutdown), input)
    {
      var readFds := readCallbacks.order + [cc];
      var sets := FdSets(readFds, writeCallbacks.order, errorCallbacks.order);
      match input.select {
        case Interrupted =>
          log := RoundLog(sets, [], false, None);
        case Ready(ready) =>
          var fired := DispatchReady(ready);
          var polled := cc in ready.readFds;
          var answer: Option<Answer> := None;
          if polled && input.command.Some? {
            var a := CommandHandler(input.command.value);
            answer := Some(a);
          }
          log := RoundLog(sets, fired, polled, answer);
      }
    }

    /** The main loop: rounds run while the flag is clear (and `script`
        supplies one). */
    method RunInternal(cc: FileNo, script: seq<RoundInput>) returns (logs: seq<RoundLog>)
      requires Valid()
      modifies this`shutdown
      ensures (logs, shutdown) == Run(Callbacks(), cc, old(shutdown), script)
    {
      ghost var reg := Callbacks();
      logs := [];
      var i := 0;
      assert script[i..] == script;
      assert logs + Run(reg, cc, shutdown, script).0 == Run(reg, cc, shutdown, script).0;
      while !shutdown && i < |script|
        invariant 0 <= i <= |script|
        invariant Callbacks() == reg && reg.Valid()
        invariant Run(reg, cc, old(shutdown), script) ==
          (logs + Run(reg, cc, shutdown, script[i..]).0, Run(reg, cc, shutdown, script[i..]).1)
        decreases |script| - i
      {
        ghost var before := shutdown;
        var log := RunRound(cc, script[i]);
        RunAdvance(reg, cc, old(shutdown), script, logs, i, before, log, shutdown);
        logs := logs + [log];
        i := i + 1;
      }
      assert logs + [] == logs;
    }
  }
}
