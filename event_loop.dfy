/**
 * The rounds of the server's main loop (_run_internal): which file numbers
 * are handed to select, which callbacks are invoked for what select reports,
 * and when the CC session is polled for a command.
 *
 * select itself is not modelled: what it reports each round is an input.
 * So is the command, if any, that polling the CC session (check_command)
 * delivers to _command_handler.  Callbacks are assumed to leave the server's
 * tables and shutdown flag alone.
 */
module EventLoop {
  import opened CallbackTables
  import opened ServerSpec

  /** Lists of file numbers for reading, writing and errors, as handed to
      select or as reported by it. */
  datatype FdSets = FdSets(readFds: seq<FileNo>, writeFds: seq<FileNo>, errorFds: seq<FileNo>)

  /** What select does in one round: report ready file numbers, or be
      interrupted by a signal (EINTR). */
  datatype SelectOutcome = Ready(ready: FdSets) | Interrupted

  /** What the outside world supplies in one round. */
  datatype RoundInput = RoundInput(select: SelectOutcome, command: Option<string>)

  /** What one round does: the sets handed to select, the callbacks invoked
      in order, whether the CC session was polled, and the answer to a
      command handled in that round. */
  datatype RoundLog = RoundLog(sets: FdSets, fired: seq<Callback>, polled: bool, answer: Option<Answer>)

  /** The arguments of select: the watched file numbers of each table in
      registration order, and the CC session's file number last among the reads. */
  function SelectSets(reg: Registry, cc: FileNo): (s: FdSets)
    requires reg.Valid()
    ensures forall fd :: fd in s.readFds <==> fd in reg.read.lists || fd == cc
    ensures forall fd :: fd in s.writeFds <==> fd in reg.write.lists
    ensures forall fd :: fd in s.errorFds <==> fd in reg.error.lists
    ensures |s.readFds| > 0 && s.readFds[|s.readFds| - 1] == cc
    ensures Distinct(s.readFds[..|s.readFds| - 1]) && Distinct(s.writeFds) && Distinct(s.errorFds)
    ensures s.readFds[..|s.readFds| - 1] == reg.read.order
    ensures s.writeFds == reg.write.order && s.errorFds == reg.error.order
  {
    var readFds := reg.read.order + [cc];
    assert readFds[..|readFds| - 1] == reg.read.order;
    FdSets(readFds, reg.write.order, reg.error.order)
  }

  /** The callbacks one round invokes for what select reported: those of the
      readable file numbers, then the writable, then the erroneous. */
  function Dispatch(reg: Registry, ready: FdSets): (fired: seq<Callback>)
    ensures var onRead := Fire(reg.read, ready.readFds);
      |onRead| <= |fired| && fired[..|onRead|] == onRead
    ensures var onError := Fire(reg.error, ready.errorFds);
      |onError| <= |fired| && fired[|fired| - |onError|..] == onError
    ensures |fired| == |Fire(reg.read, ready.readFds)| + |Fire(reg.write, ready.writeFds)| +
                       |Fire(reg.error, ready.errorFds)|
  {
    Fire(reg.read, ready.readFds) + Fire(reg.write, ready.writeFds) + Fire(reg.error, ready.errorFds)
  }

  /** A callback is invoked in a round exactly when it is registered for an
      event select reported. */
  lemma DispatchMember(reg: Registry, ready: FdSets, cb: Callback)
    ensures cb in Dispatch(reg, ready) <==>
      || (exists fd :: fd in ready.readFds && cb in reg.read.Lookup(fd))
      || (exists fd :: fd in ready.writeFds && cb in reg.write.Lookup(fd))
      || (exists fd :: fd in ready.errorFds && cb in reg.error.Lookup(fd))
  {
    FireMember(reg.read, ready.readFds, cb);
    FireMember(reg.write, ready.writeFds, cb);
    FireMember(reg.error, ready.errorFds, cb);
  }

  /** After a successful unwatch_fileno(fd, True, True, True), a round
      invokes what it would have invoked had select never reported `fd`. */
  lemma DispatchAfterUnwatch(reg: Registry, fd: FileNo, ready: FdSets)
    requires Unwatched(reg, fd, true, true, true).outcome == Pass
    ensures Dispatch(Unwatched(reg, fd, true, true, true).reg, ready) ==
      Dispatch(reg, FdSets(RemoveFrom(ready.readFds, fd), RemoveFrom(ready.writeFds, fd), RemoveFrom(ready.errorFds, fd)))
  {
    FireAfterRemove(reg.read, fd, ready.readFds);
    FireAfterRemove(reg.write, fd, ready.writeFds);
    FireAfterRemove(reg.error, fd, ready.errorFds);
  }

  /** The loops over the file numbers select reported for one kind: for each
      one that has an entry, invoke its callbacks in order. */
  method InvokeReady(t: CallbackTable, fds: seq<FileNo>) returns (fired: seq<Callback>)
    ensures fired == Fire(t, fds)
  {
    fired := [];
    for i := 0 to |fds|
      invariant fired == Fire(t, fds[..i])
    {
      var fd := fds[i];
      if fd in t.lists {
        var callbacks := t.lists[fd];
        for j := 0 to |callbacks|
          invariant fired == Fire(t, fds[..i]) + callbacks[..j]
        {
          fired := fired + [callbacks[j]];
          assert callbacks[..j + 1] == callbacks[..j] + [callbacks[j]];
        }
        assert callbacks[..|callbacks|] == callbacks;
      }
      FireAppend(t, fds[..i], fd);
      assert fds[..i + 1] == fds[..i] + [fd];
    }
    assert fds[..|fds|] == fds;
  }

  /** Whether a round polls the CC session: only when select reported its
      file number readable. */
  predicate Polls(cc: FileNo, ready: FdSets)
  {
    cc in ready.readFds
  }

  /** One pass of the loop body, from the tables, the CC file number and the
      shutdown flag before it; gives the log and the flag after it. */
  function Round(reg: Registry, cc: FileNo, shutdown: bool, input: RoundInput): (r: (RoundLog, bool))
    requires reg.Valid()
    ensures r.0.sets == SelectSets(reg, cc)
    ensures r.0.polled <==> input.select.Ready? && cc in input.select.ready.readFds
    ensures input.select.Interrupted? ==> r.0.fired == [] && r.1 == shutdown
    ensures r.0.answer.Some? <==> r.0.polled && input.command.Some?
    ensures !r.0.polled ==> r.1 == shutdown
    ensures input.select.Ready? ==> r.0.fired == Dispatch(reg, input.select.ready)
    ensures r.0.answer.Some? ==> r.0.answer.value == HandleCommand(shutdown, input.command.value).answer
    ensures r.0.answer.Some? ==> r.1 == HandleCommand(shutdown, input.command.value).shutdown
  {
    var sets := SelectSets(reg, cc);
    match input.select
    case Interrupted => (RoundLog(sets, [], false, None), shutdown)
    case Ready(ready) =>
      var fired := Dispatch(reg, ready);
      if Polls(cc, ready) && input.command.Some? then
        var h := HandleCommand(shutdown, input.command.value);
        (RoundLog(sets, fired, true, Some(h.answer)), h.shutdown)
      else (RoundLog(sets, fired, Polls(cc, ready), None), shutdown)
  }

  /** Whether a round makes the server shut down: select reports the CC
      session readable and the command it delivers is "shutdown". */
  predicate DeliversShutdown(cc: FileNo, input: RoundInput)
  {
    input.select.Ready? && Polls(cc, input.select.ready) && input.command == Some("shutdown")
  }

  /** A round only ever sets the flag, and sets it exactly when it delivers
      the shutdown command. */
  lemma RoundShutdown(reg: Registry, cc: FileNo, shutdown: bool, input: RoundInput)
    requires reg.Valid()
    ensures Round(reg, cc, shutdown, input).1 <==> shutdown || DeliversShutdown(cc, input)
  {
  }

  /** The main loop over the rounds `script` supplies, starting from flag
      `shutdown`: it stops before a round once the flag is set, and the
      model stops when the script runs out. */
  function Run(reg: Registry, cc: FileNo, shutdown: bool, script: seq<RoundInput>): (r: (seq<RoundLog>, bool))
    requires reg.Valid()
    ensures |r.0| <= |script|
    ensures shutdown ==> r == ([], true)
    ensures r.1 || |r.0| == |script|
    ensures forall k :: 0 <= k < |r.0| ==> r.0[k].sets == SelectSets(reg, cc)
    decreases |script|
  {
    if shutdown || script == [] then ([], shutdown)
    else
      var (log, sd) := Round(reg, cc, shutdown, script[0]);
      var rest := Run(reg, cc, sd, script[1..]);
      ([log] + rest.0, rest.1)
  }

  /** A loop that has not shut down and has a round left runs that round,
      then the rest from the flag that round leaves. */
  lemma RunStep(reg: Registry, cc: FileNo, shutdown: bool, script: seq<RoundInput>)
    requires reg.Valid() && !shutdown && script != []
    ensures var (log, sd) := Round(reg, cc, shutdown, script[0]);
      Run(reg, cc, shutdown, script) == ([log] + Run(reg, cc, sd, script[1..]).0, Run(reg, cc, sd, script[1..]).1)
  {
  }

  /** The loop step of RunInternal: after one more round, the rounds run
      so far followed by the rest still give the whole loop. */
  lemma RunAdvance(reg: Registry, cc: FileNo, start: bool, script: seq<RoundInput>, logs: seq<RoundLog>,
                   i: nat, before: bool, log: RoundLog, after: bool)
    requires reg.Valid() && i < |script| && !before
    requires Run(reg, cc, start, script) ==
      (logs + Run(reg, cc, before, script[i..]).0, Run(reg, cc, before, script[i..]).1)
    requires (log, after) == Round(reg, cc, before, script[i])
    ensures Run(reg, cc, start, script) ==
      ((logs + [log]) + Run(reg, cc, after, script[i + 1..]).0, Run(reg, cc, after, script[i + 1..]).1)
  {
    RunStep(reg, cc, before, script[i..]);
    assert script[i..][0] == script[i] && script[i..][1..] == script[i + 1..];
    assert logs + ([log] + Run(reg, cc, after, script[i + 1..]).0) ==
      (logs + [log]) + Run(reg, cc, after, script[i + 1..]).0;
  }

  /** The loop ends at the first round that delivers "shutdown" (that round
      is completed) and the flag is then set. */
  lemma {:induction false} RunStopsAtShutdown(reg: Registry, cc: FileNo, shutdown: bool,
                                              script: seq<RoundInput>, k: nat)
    requires reg.Valid()
    requires k < |script| && DeliversShutdown(cc, script[k])
    ensures |Run(reg, cc, shutdown, script).0| <= k + 1
    ensures Run(reg, cc, shutdown, script).1
    decreases k
  {
    if !shutdown {
      var (log, sd) := Round(reg, cc, shutdown, script[0]);
      RoundShutdown(reg, cc, shutdown, script[0]);
      if k > 0 {
        RunStopsAtShutdown(reg, cc, sd, script[1..], k - 1);
      }
    }
  }

  /** From a clear flag, the loop runs every round up to and including the
      first one that delivers "shutdown", and the flag is then set. */
  lemma {:induction false} RunUntilShutdown(reg: Registry, cc: FileNo, script: seq<RoundInput>, k: nat)
    requires reg.Valid()
    requires k < |script| && DeliversShutdown(cc, script[k])
    requires forall j :: 0 <= j < k ==> !DeliversShutdown(cc, script[j])
    ensures |Run(reg, cc, false, script).0| == k + 1
    ensures Run(reg, cc, false, script).1
    decreases k
  {
    var (log, sd) := Round(reg, cc, false, script[0]);
    RoundShutdown(reg, cc, false, script[0]);
    if k > 0 {
      assert !DeliversShutdown(cc, script[0]);
      assert forall j :: 0 <= j < k - 1 ==> script[1..][j] == script[j + 1];
      RunUntilShutdown(reg, cc, script[1..], k - 1);
    }
  }

  /** The loop ends with the flag set exactly when it started set or one of
      the rounds it ran delivered "shutdown"; only the last round run can
      be one that did. */
  lemma {:induction false} RunShutdownRounds(reg: Registry, cc: FileNo, shutdown: bool, script: seq<RoundInput>)
    requires reg.Valid()
    ensures var r := Run(reg, cc, shutdown, script);
      r.1 <==> shutdown || exists k :: 0 <= k < |r.0| && DeliversShutdown(cc, script[k])
    ensures var r := Run(reg, cc, shutdown, script);
      forall k :: 0 <= k < |r.0| - 1 ==> !DeliversShutdown(cc, script[k])
    decreases |script|
  {
    if !shutdown && script != [] {
      var (log, sd) := Round(reg, cc, shutdown, script[0]);
      RoundShutdown(reg, cc, shutdown, script[0]);
      RunShutdownRounds(reg, cc, sd, script[1..]);
      var rest := Run(reg, cc, sd, script[1..]);
      var r := Run(reg, cc, shutdown, script);
      assert |r.0| == 1 + |rest.0|;
      assert forall k :: 0 <= k < |rest.0| ==> script[1..][k] == script[k + 1];
      if r.1 && !DeliversShutdown(cc, script[0]) {
        var k :| 0 <= k < |rest.0| && DeliversShutdown(cc, script[1..][k]);
        assert DeliversShutdown(cc, script[k + 1]);
      }
      if exists k :: 0 <= k < |r.0| && DeliversShutdown(cc, script[k]) {
        var k :| 0 <= k < |r.0| && DeliversShutdown(cc, script[k]);
        if k > 0 {
          assert DeliversShutdown(cc, script[1..][k - 1]);
        }
      }
      forall k | 0 <= k < |r.0| - 1 ensures !DeliversShutdown(cc, script[k]) {
        if k == 0 {
          assert !sd;
        } else {
          assert script[k] == script[1..][k - 1];
        }
      }
    }
  }

  /** When no round delivers "shutdown" and the flag starts clear, every
      round runs and the flag stays clear. */
  lemma {:induction false} RunWithoutShutdown(reg: Registry, cc: FileNo, script: seq<RoundInput>)
    requires reg.Valid()
    requires forall k :: 0 <= k < |script| ==> !DeliversShutdown(cc, script[k])
    ensures |Run(reg, cc, false, script).0| == |script|
    ensures !Run(reg, cc, false, script).1
  {
    if script != [] {
      RoundShutdown(reg, cc, false, script[0]);
      assert forall k :: 0 <= k < |script[1..]| ==> script[1..][k] == script[k + 1];
      RunWithoutShutdown(reg, cc, script[1..]);
    }
  }
}
