# BUNDY server mixin: callback registry, command handler and event loop

This project models the `BUNDYServer` mixin of BUNDY, the base class that its
Python server modules build on. The model covers:

- **The callback registry.** Three dictionaries map a file number to the
  callbacks registered for it: one each for read, write and error events.
  `watch_fileno` appends to them in place. `unwatch_fileno` deletes whole
  entries, raising `ValueError` for a missing one.
- **The shutdown flag.** It starts false. `_trigger_shutdown` sets it, and
  `_command_handler` sets it when the command is `shutdown`.
- **The main loop of `_run_internal`.** Each round hands the watched file
  numbers and the CC session's file number to `select`. It then invokes the
  callbacks of what `select` reports: reads, then writes, then errors, each
  in registration order. Last, it polls the CC session if that session's
  file number was readable. The loop runs while the flag is false.

Layout:

- `tables.dfy` (module `CallbackTables`): one callback table. A table is a
  dictionary with its keys in insertion order, because `select` is handed
  `list(d.keys())`. The file also holds appending, deletion and the
  callbacks fired for a list of ready file numbers.
- `server_spec.dfy` (module `ServerSpec`): the three tables together. It
  gives `watch_fileno`, `unwatch_fileno` and `_command_handler` as
  functions and proves their properties.
- `event_loop.dfy` (module `EventLoop`): the `select` arguments, the
  dispatch order, one round, and the loop over rounds.
- `bundy_server.dfy` (module `Server`): the class `BundyServer`. Its fields
  are the three tables and the flag, updated in place. Each method is proved
  to match the functions above.

Inputs from outside the model:

- `select`'s answer for each round is an input: either ready lists or an
  interruption by a signal (`EINTR`, after which the round is skipped).
- So is the command that polling the CC session (`check_command`) hands to
  `_command_handler` in that round, if any.
- Invoking a callback is recorded in a trace (`fired`). Callbacks are
  assumed to leave the tables and the flag alone.
- `create_answer` is the value `Answer(code, optional text)`.

## Model

| member | source | states |
|---|---|---|
| `CallbackTables.Add` | src/lib/python/bundy/server_common/bundy_server.py:200-203 | The new callback goes at the end of the file number's list, or starts a one-element list. The file number's key is appended to the key order only if it is new. Every other file number's list is unchanged. A valid table stays valid. |
| `CallbackTables.Remove` | src/lib/python/bundy/server_common/bundy_server.py:236-238 | Deleting a present key removes its whole list. The other keys keep their lists and their relative order. A valid table stays valid. |
| `CallbackTables.RemoveFrom` | src/lib/python/bundy/server_common/bundy_server.py:238 | The key order after a deletion holds exactly the old keys other than the deleted one. |
| `CallbackTables.RemoveFromDistinct` | src/lib/python/bundy/server_common/bundy_server.py:238 | Deleting a key keeps every key listed only once. |
| `CallbackTables.RemoveFromAppended` | src/lib/python/bundy/server_common/bundy_server.py:203 | Deleting a key that was just inserted as new restores the previous key order. |
| `CallbackTables.RemoveAfterAdd` | src/lib/python/bundy/server_common/bundy_server.py:199-203 | Watching a file number that had no entry, then deleting its entry, gives back the original table, key order included. |
| `CallbackTables.FireAppend` | src/lib/python/bundy/server_common/bundy_server.py:146-149 | One more reported file number adds its registered callbacks, in order, at the end of what fires. |
| `CallbackTables.FireMember` | src/lib/python/bundy/server_common/bundy_server.py:146-149 | A callback fires exactly when some reported file number has it registered. Unregistered file numbers fire nothing. |
| `CallbackTables.FireAfterRemove` | src/lib/python/bundy/server_common/bundy_server.py:146-149 | Once a file number's entry is deleted, a round fires what it would have fired had `select` never reported that file number. |
| `CallbackTables.Fire` | src/lib/python/bundy/server_common/bundy_server.py:146-149 | The callbacks fired for the reported file numbers of one kind: each reported file number's list in turn, in registration order. A report with no registered file number fires nothing, and a single reported file number fires exactly its list. |
| `ServerSpec.WatchOne` | src/lib/python/bundy/server_common/bundy_server.py:199-215 | For one kind: a callback is appended to the end of the file number's list. `None` leaves the table exactly as it was. No other file number's list changes. Validity is kept. |
| `ServerSpec.Watched` | src/lib/python/bundy/server_common/bundy_server.py:192-215 | Watching keeps all three tables valid. |
| `ServerSpec.Unwatched` | src/lib/python/bundy/server_common/bundy_server.py:217-246 | It fails on read exactly when the read flag is set and read has no entry. It fails on write exactly when read passed and write is flagged and missing. Error fails the same way after both. The error carries the file number. Validity is kept. |
| `ServerSpec.UnwatchEffect` | src/lib/python/bundy/server_common/bundy_server.py:235-246 | Each table either keeps its contents or loses the file number's entry. It loses the entry exactly when its flag is set, the entry exists, and no earlier kind raised. Tables whose flag is false are untouched, and nothing is rolled back. |
| `ServerSpec.UnwatchTwiceFails` | src/lib/python/bundy/server_common/bundy_server.py:226-229 | After a successful unwatch, a second unwatch of the same file number for any of the same kinds raises. |
| `ServerSpec.UnwatchUndoesWatch` | src/lib/python/bundy/server_common/bundy_server.py:192-246 | Watching a file number no table had, then unwatching it for the kinds given a callback, succeeds and restores all three tables exactly. |
| `ServerSpec.UnknownCommand` | src/lib/python/bundy/server_common/bundy_server.py:182 | The default module handler's answer: code 1 with the text `Unknown command: ` followed by the command. |
| `ServerSpec.HandleCommand` | src/lib/python/bundy/server_common/bundy_server.py:169-182 | The answer code is 0 exactly for `shutdown`. The flag afterwards is set exactly when it was set before or the command is `shutdown`. Any other command gets code 1 and the text `Unknown command: ` followed by the command. |
| `EventLoop.SelectSets` | src/lib/python/bundy/server_common/bundy_server.py:131-134 | The read list is the read table's keys in registration order followed by the CC file number, so the CC file number appears twice when it is also a read key. The write and error lists are exactly their tables' keys in registration order. As sets: reads are the read keys plus the CC file number, and writes and errors are their tables' keys. No table key is repeated. |
| `EventLoop.Dispatch` | src/lib/python/bundy/server_common/bundy_server.py:146-159 | The callbacks one round fires: `Fire` of the reads, then `Fire` of the writes, then `Fire` of the errors. The read callbacks form a prefix, the error callbacks a suffix, and the length is the sum of the three. |
| `EventLoop.DispatchMember` | src/lib/python/bundy/server_common/bundy_server.py:146-159 | A callback fires in a round exactly when it is registered for a kind and file number that `select` reported. |
| `EventLoop.DispatchAfterUnwatch` | src/lib/python/bundy/server_common/bundy_server.py:146-159 | After a successful unwatch of all three kinds, a round fires what it would have fired had `select` never reported the file number. |
| `EventLoop.InvokeReady` | src/lib/python/bundy/server_common/bundy_server.py:146-149 | The nested loops fire each registered reported file number's callbacks in registration order. Reported file numbers are taken in order and unregistered ones are skipped. |
| `EventLoop.Round` | src/lib/python/bundy/server_common/bundy_server.py:130-164 | Every round hands `select` the sets of `SelectSets`. A ready round fires exactly `Dispatch` of what `select` reported; an interrupted round fires nothing and leaves the flag alone. The CC session is polled exactly when `select` reported the CC file number readable. A command is answered exactly when the session is polled and delivers one, and then the answer and the new flag are those of `HandleCommand`. A round that does not poll leaves the flag alone. |
| `EventLoop.RoundShutdown` | src/lib/python/bundy/server_common/bundy_server.py:161-164 | After a round, the flag is set exactly when it was set before, or when `select` reported the CC file number readable and the delivered command was `shutdown`. |
| `EventLoop.Run` | src/lib/python/bundy/server_common/bundy_server.py:129-164 | No round runs once the flag is set. The loop stops early only with the flag set. Every round hands `select` the same sets, because the tables do not change. |
| `EventLoop.RunStopsAtShutdown` | src/lib/python/bundy/server_common/bundy_server.py:129 | The loop ends no later than the first round that delivers `shutdown`, after completing that round, with the flag set. |
| `EventLoop.RunWithoutShutdown` | src/lib/python/bundy/server_common/bundy_server.py:129 | Without a `shutdown` command and starting clear, every round runs and the flag stays clear. |
| `EventLoop.RunUntilShutdown` | src/lib/python/bundy/server_common/bundy_server.py:129-164 | Starting clear, the loop runs every round up to and including the first one that delivers `shutdown`: exactly that many rounds run, and the flag ends set. |
| `EventLoop.RunShutdownRounds` | src/lib/python/bundy/server_common/bundy_server.py:129-164 | The flag ends set exactly when it started set or a round that actually ran delivered `shutdown`. No round before the last one run delivered it. |
| `Server.BundyServer.constructor` | src/lib/python/bundy/server_common/bundy_server.py:82-85 | A fresh server has three empty tables and a clear shutdown flag. |
| `Server.BundyServer.TriggerShutdown` | src/lib/python/bundy/server_common/bundy_server.py:106-118 | The flag is set afterwards, and nothing else changes. |
| `Server.BundyServer.WatchFileno` | src/lib/python/bundy/server_common/bundy_server.py:192-215 | The tables become `Watched` of the old tables. Only the tables may change, and they stay valid. |
| `Server.BundyServer.UnwatchFileno` | src/lib/python/bundy/server_common/bundy_server.py:217-246 | The new tables and the outcome (`Pass`, or the `ValueError` as `Fail`) are those of `Unwatched` on the old tables. The read, write and error steps are done in place with early returns. |
| `Server.BundyServer.ModCommandHandler` | src/lib/python/bundy/server_common/bundy_server.py:180-182 | Every command is answered with code 1 and the text `Unknown command: ` followed by the command. |
| `Server.BundyServer.CommandHandler` | src/lib/python/bundy/server_common/bundy_server.py:169-178 | The new flag and the answer are those of `HandleCommand` on the old flag. |
| `Server.BundyServer.DispatchReady` | src/lib/python/bundy/server_common/bundy_server.py:146-159 | The callbacks fired are those of the readable file numbers, then the writable, then the erroneous. |
| `Server.BundyServer.RunRound` | src/lib/python/bundy/server_common/bundy_server.py:130-164 | One loop body: the round log and new flag are those of `Round` on the current tables and flag. |
| `Server.BundyServer.RunInternal` | src/lib/python/bundy/server_common/bundy_server.py:120-164 | The logs and the final flag are those of `Run` on the tables and the flag at entry. |

## Left out

- The `select` system call is left out. Its result each round is an input.
  `EINTR` is modelled as an interrupted round. Any other `select` error is
  re-raised out of the loop, and that path is not modelled.
- `check_command` and the CC session are abstracted. The model takes the
  one command, if any, that polling delivers to `_command_handler`. The CC
  session setup, configuration updates, `send_stopping` and
  `_shutdown_module` after the loop are not modelled.
- The model's loop also ends when the supplied rounds run out. The real
  loop would block in `select` instead.
- Callbacks that change the server are not modelled. This includes a
  callback calling `unwatch_fileno`, which the docstring allows, or
  `_trigger_shutdown`. The code iterates over the list object it fetched,
  but re-checks membership for each reported file number. The model assumes
  callbacks touch neither the tables nor the flag.
- Exceptions during a round are not modelled. Callbacks and
  `check_command` are assumed to return normally. In the code, an exception
  from a callback or from `check_command` propagates out of `_run_internal`.
  That ends the loop before the later callbacks fire, and skips
  `_shutdown_module` and `send_stopping`.
- Signal handlers are not modelled. They call `_trigger_shutdown`
  asynchronously between or during rounds.
- `run()` is not modelled: installing handlers, turning exceptions into
  exit codes, and the module name. Logging is not modelled either.
- Subclass overrides of `_mod_command_handler` are not modelled; only the
  default handler is. Its `args` parameter is not modelled, because the
  default handler ignores it.
- `create_answer`'s own argument checking is not modelled. An answer is
  just its code and optional text.
- `UnwatchFileno`: the `ValueError` message is not modelled as a string.
  It is `'fileno not watched for <kind>: ' + str(fileno)`. The model
  represents it by the kind and the file number it is built from.
- The `mod_ccsession` accessor is not modelled. The `shutdown` property is
  the `shutdown` field itself.
