/**
 * What the BUNDY server mixin's registry operations and command handler do,
 * as functions of the three callback tables and the shutdown flag.  The
 * class in module Server is proved to behave as these functions say.
 */
module ServerSpec {
  import opened CallbackTables

  /** The three kinds of select event a callback can be registered for. */
  datatype Event = Read | Write | Error

  /** The three callback tables of a server. */
  datatype Registry = Registry(read: CallbackTable, write: CallbackTable, error: CallbackTable)
  {
    ghost predicate Valid()
    {
      read.Valid() && write.Valid() && error.Valid()
    }

    function Table(e: Event): (t: CallbackTable)
    {
      match e
      case Read => read
      case Write => write
      case Error => error
    }
  }

  const EmptyRegistry: Registry := Registry(Empty, Empty, Empty)

  /** One kind of watch_fileno: a callback of `None` leaves the table as it is. */
  function WatchOne(t: CallbackTable, fd: FileNo, cb: Option<Callback>): (r: CallbackTable)
    ensures r.Lookup(fd) == t.Lookup(fd) + (if cb.Some? then [cb.value] else [])
    ensures forall k :: k != fd ==> r.Lookup(k) == t.Lookup(k)
    ensures cb.None? ==> r == t
    ensures t.Valid() ==> r.Valid()
  {
    match cb
    case None => t
    case Some(c) => Add(t, fd, c)
  }

  /** watch_fileno(fd, rcallback, wcallback, xcallback). */
  function Watched(reg: Registry, fd: FileNo, rcb: Option<Callback>, wcb: Option<Callback>,
                   xcb: Option<Callback>): (r: Registry)
    ensures reg.Valid() ==> r.Valid()
  {
    Registry(WatchOne(reg.read, fd, rcb), WatchOne(reg.write, fd, wcb), WatchOne(reg.error, fd, xcb))
  }

  /** The ValueError unwatch_fileno raises: which table lacked `fileno`. */
  datatype UnwatchError = NotWatched(event: Event, fileno: FileNo)

  datatype Outcome = Pass | Fail(error: UnwatchError)

  /** The tables after unwatch_fileno, and whether it raised. */
  datatype Unwatching = Unwatching(reg: Registry, outcome: Outcome)

  /** unwatch_fileno(fd, onRead, onWrite, onError): read, then write, then
      error; each flagged kind must have an entry for `fd`, which is deleted
      whole; the first missing one raises, and deletions already made stay. */
  function Unwatched(reg: Registry, fd: FileNo, onRead: bool, onWrite: bool, onError: bool): (u: Unwatching)
    ensures u.outcome == Fail(NotWatched(Read, fd)) <==> onRead && fd !in reg.read.lists
    ensures u.outcome == Fail(NotWatched(Write, fd)) <==>
      (onRead ==> fd in reg.read.lists) && onWrite && fd !in reg.write.lists
    ensures u.outcome == Fail(NotWatched(Error, fd)) <==>
      (onRead ==> fd in reg.read.lists) && (onWrite ==> fd in reg.write.lists) && onError && fd !in reg.error.lists
    ensures u.outcome.Fail? ==> u.outcome.error.fileno == fd
    ensures reg.Valid() ==> u.reg.Valid()
  {
    if onRead && fd !in reg.read.lists then Unwatching(reg, Fail(NotWatched(Read, fd)))
    else
      var reg1 := if onRead then reg.(read := Remove(reg.read, fd)) else reg;
      if onWrite && fd !in reg1.write.lists then Unwatching(reg1, Fail(NotWatched(Write, fd)))
      else
        var reg2 := if onWrite then reg1.(write := Remove(reg1.write, fd)) else reg1;
        if onError && fd !in reg2.error.lists then Unwatching(reg2, Fail(NotWatched(Error, fd)))
        else Unwatching(if onError then reg2.(error := Remove(reg2.error, fd)) else reg2, Pass)
  }

  /** Whether unwatch_fileno(fd, onRead, onWrite, onError) gets past the
      check of kind `e` (true when it does not raise for an earlier kind). */
  predicate Reaches(reg: Registry, fd: FileNo, onRead: bool, onWrite: bool, e: Event)
  {
    match e
    case Read => true
    case Write => onRead ==> fd in reg.read.lists
    case Error => (onRead ==> fd in reg.read.lists) && (onWrite ==> fd in reg.write.lists)
  }

  function Flag(e: Event, onRead: bool, onWrite: bool, onError: bool): (on: bool)
  {
    match e
    case Read => onRead
    case Write => onWrite
    case Error => onError
  }

  /** Every table ends up either untouched or without the entry of `fd`:
      it loses that entry exactly when its flag is set, the entry was there
      and no earlier kind raised.  Nothing is rolled back. */
  lemma UnwatchEffect(reg: Registry, fd: FileNo, onRead: bool, onWrite: bool, onError: bool, e: Event)
    ensures var u := Unwatched(reg, fd, onRead, onWrite, onError);
      u.reg.Table(e) ==
        if Flag(e, onRead, onWrite, onError) && fd in reg.Table(e).lists && Reaches(reg, fd, onRead, onWrite, e)
        then Remove(reg.Table(e), fd) else reg.Table(e)
  {
  }

  /** Unwatching the same file number for the same kind twice, without
      watching it again in between, raises the second time. */
  lemma UnwatchTwiceFails(reg: Registry, fd: FileNo, onRead: bool, onWrite: bool, onError: bool,
                          onRead2: bool, onWrite2: bool, onError2: bool)
    requires Unwatched(reg, fd, onRead, onWrite, onError).outcome == Pass
    requires (onRead && onRead2) || (onWrite && onWrite2) || (onError && onError2)
    ensures Unwatched(Unwatched(reg, fd, onRead, onWrite, onError).reg, fd, onRead2, onWrite2, onError2).outcome.Fail?
  {
  }

  /** Watching a file number that no table had, then unwatching it for the
      kinds that were given a callback, restores the tables exactly. */
  lemma UnwatchUndoesWatch(reg: Registry, fd: FileNo, rcb: Option<Callback>, wcb: Option<Callback>,
                           xcb: Option<Callback>)
    requires reg.Valid()
    requires fd !in reg.read.lists && fd !in reg.write.lists && fd !in reg.error.lists
    ensures Unwatched(Watched(reg, fd, rcb, wcb, xcb), fd, rcb.Some?, wcb.Some?, xcb.Some?) == Unwatching(reg, Pass)
  {
    if rcb.Some? { RemoveAfterAdd(reg.read, fd, rcb.value); }
    if wcb.Some? { RemoveAfterAdd(reg.write, fd, wcb.value); }
    if xcb.Some? { RemoveAfterAdd(reg.error, fd, xcb.value); }
  }

  /** The answer bundy.config.create_answer builds: a result code and an
      optional text. */
  datatype Answer = Answer(code: int, text: Option<string>)

  /** What the default _mod_command_handler answers. */
  function UnknownCommand(cmd: string): (a: Answer)
    ensures a.code == 1 && a.text == Some("Unknown command: " + cmd)
  {
    Answer(1, Some("Unknown command: " + cmd))
  }

  /** The shutdown flag and the answer after _command_handler(cmd), when
      the flag was `shutdown` before and the module handler is the default. */
  datatype Handled = Handled(shutdown: bool, answer: Answer)

  function HandleCommand(shutdown: bool, cmd: string): (h: Handled)
    ensures h.answer.code == 0 <==> cmd == "shutdown"
    ensures h.shutdown <==> shutdown || cmd == "shutdown"
    ensures cmd != "shutdown" ==> h.answer == Answer(1, Some("Unknown command: " + cmd))
    ensures cmd == "shutdown" ==> h.answer.text == None
  {
    if cmd == "shutdown" then Handled(true, Answer(0, None))
    else Handled(shutdown, UnknownCommand(cmd))
  }
}
