# Session engine of the Discord sender server, modelled in Dafny

The server (`sever.js`) posts one message to a Discord channel over and over,
on a timer, for as many independent sessions as clients start. This project
models the engine behind that and proves properties of it. The engine has five
parts:

- **Session registry.** `activeSessions` is a dictionary from session id to
  `{config, lastActivity, isRunning, logs}`. Here it is the class
  `Sessions.Registry`, with a `map<Id, Session>` field. Its methods are the
  handlers that change the dictionary: `/start`, `/stop` and `/ping`. The
  read-only `/status` view is the function `Status`.
- **Log helper.** `addLog` is `Registry.AddLog`. It appends one entry to a
  registered session's log and does nothing for an id that is gone.
- **Dispatcher.** `sendDiscordMessage` is `Dispatcher.Dispatch`. It is the
  source's `while (attempts <= retries)` loop, proved against the
  specification functions `Outcome` and `Calls`.
- **Send loop.** `startSendingMessages` is split at its waits. `AfterSend` runs
  after a dispatch settles. `AfterDelay` runs when the delay ends. Each is one
  atomic step on the registry, so handlers and the janitor can be called in
  between. `RunCycle` is one pass of the loop body. `RunSendLoop` is the
  `while (session.isRunning)` loop over a series of cycles with nothing in
  between, proved against the functions `Pass` and `Run`. `AtHead` is the
  test at the loop's head on its own. The ghost set `Registry.loops` records
  which ids still have a loop running: `/start` adds one, and only the loop
  itself removes it, when it leaves its while.
- **Janitor.** The `setInterval` sweep is `Registry.Sweep`, a loop over the
  registered ids. Its result is tied to the function `Survivors`.

How the model abstracts the environment:

- Time is the `now` (or `sentAt`, `wokeAt`) argument of each step.
- The HTTP call is given as `outcome: nat -> Attempt`, the result of each
  numbered attempt.
- The id that `uuidv4` returns is a parameter that was never issued before. The
  ghost set `issued` tracks every id handed out, so a removed id can never be
  registered again.
- `Registry.Valid()` is the invariant every step keeps. Every registered id was
  issued and is not empty. Every registered session is running, and its retry
  count allows at least one attempt.
- The session object that the loop captures (line 199) is modelled by checking
  whether the id is still in the map. This is exact here because every removal
  clears `isRunning` before it deletes the key, and ids are never reused.

Modules: `Config` (constants and request normalisation), `Dispatcher`,
`Sessions`, `SendLoop` and `Scenarios`. `Scenarios` holds client call
sequences on a fresh registry, stating what an HTTP caller observes.

## Model

| member | source | states |
|---|---|---|
| `Config.DelayMs` | sever.js:73 | The delay is never 0 and is a whole number of seconds in ms. NaN and 0 fall back to 5 s; any other parsed value v gives v·1000. |
| `Config.RetriesAsWritten` | sever.js:74 | The source's count, `parseInt(retries)` with 2 as the fallback, is never 0. NaN and 0 give 2; any other value, negative ones too, is kept. |
| `Config.Retries` | sever.js:74 | Corrected count: always ≥ 0. It equals the as-written count when that is ≥ 0, and is 0 otherwise. |
| `Config.Complete` | sever.js:68-70 | A start request is accepted exactly when channel, token and message are all present and non-empty. |
| `Config.ConfigOf` | sever.js:72-86 | The stored config keeps the request's channel, token and message, all non-empty. It has the normalised delay and a retry count ≥ 0. |
| `Dispatcher.FirstDelivered` | sever.js:166-183 | The result is the first delivered attempt in the range, with every earlier attempt refused. None means every attempt in the range was refused. |
| `Dispatcher.Outcome` | sever.js:162-195 | The dispatch succeeds iff one of the first `retries + 1` attempts delivers, and then carries the first delivery's body. Otherwise it throws the last attempt's error. It throws `undefined` exactly when `retries < 0`. |
| `Dispatcher.Calls` | sever.js:166-192 | At most `retries + 1` calls. On success the last call is the first delivery. On failure every allowed call is made. |
| `Dispatcher.Dispatch` | sever.js:162-195 | The loop settles as `Outcome` says after `Calls` HTTP calls. It pauses 1000 ms only between two calls, never after the last, so it waits 1000 ms times one less than the number of calls. |
| `Dispatcher.NegativeRetriesThrowUndefined` | sever.js:74 | Retries "-1" as written: the dispatch makes no call and rejects with `undefined`. |
| `Dispatcher.StoredRetriesAlwaysAttempt` | sever.js:166 | With the corrected count, every dispatch makes at least one call and never throws `undefined`. |
| `Sessions.RecentLogs` | sever.js:144 | `slice(-20)`: at most 20 entries. They are a suffix of the log, so the newest ones in their order. The whole log when it has ≤ 20 entries. |
| `Sessions.Idle` | sever.js:215-216 | The inactivity test shared by the loop (lines 215-216) and the janitor (lines 253-255): more than 15 min since the last activity. |
| `Sessions.Survivors` | sever.js:251-261 | A sweep keeps exactly the sessions that are not idle (idle: `now - lastActivity > MAX_INACTIVITY`), unchanged. |
| `Sessions.SweepLater` | sever.js:247-266 | A second sweep at the same time removes nothing more. A later sweep removes everything an earlier one did. |
| `Sessions.JanitorCatchesIdle` | sever.js:247-266 | With sweeps every 5 min, a session never pinged again is removed by a sweep at most one period after it becomes idle. |
| `Sessions.Logged` | sever.js:232-243 | addLog's effect on the dictionary: one entry at the end of that session's log, other sessions and keys unchanged, nothing when the id is absent. |
| `Sessions.FoundAsWritten` | sever.js:119 | The lookup `!sessionId || !activeSessions[sessionId]` as written (also lines 137 and 151): a non-empty id passes when it is a key or an inherited name. |
| `Sessions.FoundAsWrittenOnOwnKeys` | sever.js:119 | For every non-empty id that is not an inherited name, the lookup as written is the own-key test. |
| `Sessions.StopAsWritten` | sever.js:116-126 | `/stop` as written never adds or alters a session and removes at most the named one. A 404 changes nothing. |
| `Sessions.PrototypeNameStopSucceeds` | sever.js:119-131 | On any registry, `/stop` with an inherited name that is not a key answers success and removes nothing. |
| `Sessions.StopAsWrittenOffPrototypes` | sever.js:116-126 | Off the inherited names, `/stop` as written answers and removes exactly what `Registry.Stop` promises. |
| `Sessions.StatusAsWritten` | sever.js:134-146 | `/status` as written succeeds exactly for keys, with their last activity and newest 20 entries. A 404 is only for names that are neither keys nor inherited. |
| `Sessions.PrototypeNameStatusFails` | sever.js:137-144 | `/status` with an inherited name that is not a key answers 500, not 404. |
| `Sessions.StatusAsWrittenOffPrototypes` | sever.js:134-146 | Off the inherited names, `/status` as written is `Registry.Status`. |
| `Sessions.PingAsWritten` | sever.js:148-159 | `/ping` as written keeps every key and every other session. A 404 changes nothing, and a success answers `now`. |
| `Sessions.PrototypeNamePingSucceeds` | sever.js:151-158 | `/ping` with an inherited name that is not a key answers success and keeps no session alive. |
| `Sessions.PingAsWrittenOffPrototypes` | sever.js:148-159 | Off the inherited names, `/ping` as written answers and changes exactly what `Registry.Ping` promises. |
| `Sessions.Registry.constructor` | sever.js:22 | The registry starts empty, with no id issued and no loop running. |
| `Sessions.Registry.Start` | sever.js:64-103 | A missing or empty channel, token or message gives 400, changes nothing and starts no loop. Otherwise exactly one new key, the fresh id, holds `ConfigOf(req)`, `lastActivity = now`, `isRunning` and an empty log. All other entries are unchanged. One send loop starts for the id, the first it has, and every registered session keeps a loop. |
| `Sessions.Registry.Stop` | sever.js:116-126 | A missing or unknown id gives 404 and changes nothing. A registered id gets success and is removed; nothing else changes. |
| `Sessions.Registry.Status` | sever.js:134-146 | 404 exactly for unregistered ids. Otherwise it reports active, the last activity and `RecentLogs` of the log, the newest 20 entries; the stored log is not cut. |
| `Sessions.Registry.Ping` | sever.js:148-159 | A missing or unknown id gives 404 and changes nothing. Otherwise that session's `lastActivity` alone becomes `now`. |
| `Sessions.Registry.AddLog` | sever.js:232-244 | The new dictionary is `Logged` of the old: one entry `{now, message, level, data}` at the end, or nothing when the id is absent. |
| `Sessions.Registry.ForceStop` | sever.js:255-259 | Log a warning, clear the flag, delete: the session and its warning leave the dictionary, all else unchanged. |
| `Sessions.Registry.SweepOne` | sever.js:252-260 | One turn of the for...in: the session is removed iff it is idle. |
| `Sessions.Registry.Sweep` | sever.js:247-266 | The new dictionary is `Survivors` of the old, and `cleaned` is the number of sessions removed. |
| `SendLoop.SendEntry` | sever.js:206-223 | The entry a settled dispatch appends, stamped `now`. When sent: level success, "Message sent successfully" and the response body. When it threw: level error, "Failed to send message: " with the error's message, and no data. |
| `SendLoop.AtHead` | sever.js:201 | The loop goes on while its session is registered. Once the session is removed, the loop ends and the id has no loop left. |
| `SendLoop.AfterSend` | sever.js:203-226 | A success is logged, then the loop sleeps the session's delay, or exits if the session was stopped meanwhile. A failure is logged, the session stays and the loop waits 5000 ms before its head. A rejection with `undefined` logs nothing and kills the loop, leaving a registered session with no loop. |
| `SendLoop.AfterDelay` | sever.js:212-221 | An idle session is force-stopped and the loop exits. A live one is untouched and the loop continues. A session already gone is untouched and the loop exits. An exit ends the id's loop. |
| `SendLoop.Pass` | sever.js:202-227 | One cycle removes the session iff the send succeeded and the session is idle after the delay. Otherwise exactly one entry is added, the `SendEntry` of the dispatch's outcome, and nothing else changes. |
| `SendLoop.Run` | sever.js:201-228 | The closed form of the loop over a session nobody else touches: cycle after cycle by `Pass`, until the loop removes the session. |
| `SendLoop.RunEvictsIff` | sever.js:201-228 | An uninterrupted run removes its session iff some cycle succeeds and then finds it idle. |
| `SendLoop.RunKeepsSession` | sever.js:201-228 | A run that keeps its session adds one entry per cycle at the end and changes nothing else in it. |
| `SendLoop.FailingRunKeepsSession` | sever.js:222-227 | When every dispatch fails, the loop never removes its session. |
| `SendLoop.RunCycle` | sever.js:202-227 | One pass of the loop body changes the registry exactly as `Pass` says. The loop ends exactly when the session is removed. |
| `SendLoop.RunSendLoop` | sever.js:198-229 | The loop changes the registry exactly as `Run` says: the session is removed and its loop ends, or it is replaced by its final state and the loop goes on. Nothing else changes. |
| `Scenarios.StartThenStatus` | sever.js:64-146 | After a valid start, `/status` reports active, last activity at the start time, no log, and a loop runs for the id. |
| `Scenarios.IncompleteStart` | sever.js:68-70 | An incomplete start gives 400, the would-be id is 404, the registry stays empty and no loop runs. |
| `Scenarios.StopTwice` | sever.js:116-139 | Start, stop, stop, status: success, then 404, then 404. |
| `Scenarios.StopDuringBackoff` | sever.js:116-228 | A stop during the 5000 ms backoff after a failed send answers success. The loop then exits at its head, and no loop is left for the id. |
| `Scenarios.PingProtects` | sever.js:148-261 | A ping keeps its session through a sweep that removes a silent twin started at the same time. |
| `Scenarios.FlakyThenOkDelivers` | sever.js:166-192 | With 2 retries, an endpoint that times out twice and then accepts gets the message on the third call. |
| `Scenarios.RetriedSend` | sever.js:162-212 | Channel "123", token "tok", message "hi", delay 1, retries 2; two failures then success. Result: 3 calls, 2000 ms of pauses, a single success entry, and a 1000 ms sleep next. |
| `Scenarios.UndefinedRejectionLeavesSession` | sever.js:222-223 | A rejection with `undefined` kills the loop. `/status` still reports its session active, and no loop is left for it. |

## Left out

- Express setup, body parsing, static files, the EJS view of `/`, the
  `express-session` preferences (`req.session.*`) and the monitor URL. They are
  framework glue with no decisions of their own.
- The axios call to the Discord API. Each attempt's result is an input.
- `uuidv4`. It becomes any id never issued before.
- `parseInt`. The request carries its result, `None` standing for NaN. A body
  field is modelled as an absent or a string value. Other JSON values (numbers,
  booleans, objects) are not modelled.
- `setTimeout`, `setInterval` and `console.log`. A wait is the boundary between
  two atomic steps. The caller supplies the clock readings, so nothing enforces
  that they are `delay`, 1 s or 5 s apart.
- SendLoop.AfterSend: `wait` is the argument passed to `setTimeout`, not the
  time Node actually waits. Node runs any delay below 1 ms or above
  2147483647 ms after 1 ms. So a delay of "-1" (stored as -1000 ms, since line
  73 keeps negative values) makes the source send back to back, while the
  model reports a negative `wait`.
- Concurrency. Every handler, loop step and sweep is one atomic step.
  `RunSendLoop` runs one loop with nothing in between. Interleavings are
  modelled by calling the step methods between handler calls. The ghost set
  `loops` records which ids have a loop; where each loop stands (its `Phase`)
  is the caller's to keep.
- The session object the loop captures, and aliasing in general. The registry
  stores sessions as values, and the loop reads membership instead of its own
  reference.
- `Date` objects. Timestamps are integer milliseconds. JavaScript's float
  numbers (loss of precision above 2^53) are not modelled.
- Reply bodies beyond the modelled fields (the `success` flags and message
  texts of the JSON replies, and the sweep's summary line on the console).
- Sessions.Registry.Ping: the source reads the clock a second time for the
  reply's `timestamp`. The model answers with the same `now` it stores.
- Sessions.Registry.Start: stores the corrected retry count, `Config.Retries`,
  not the as-written one. See Findings.
- Sessions.Registry.Stop: tests own keys, as `Ping` and `Status` do. See
  Findings for the as-written lookup.
- Sessions.Registry.Status: tests own keys. `StatusAsWritten` is the
  as-written lookup; see Findings.
- Sessions.StopAsWritten: the flag write onto an inherited member (line 124)
  is not modelled, because the model has no prototype objects. Only the
  reply and the registry's own entries are.
- Sessions.PingAsWritten: the `lastActivity` write onto an inherited member
  (line 156) is not modelled, for the same reason. It is not harmless; see
  the Findings row for line 151.
- Sessions.Survivors, Sessions.Registry.Sweep: assume that the janitor's
  `for...in` (line 251) visits only own keys. That holds only while no
  enumerable property has been written onto Object.prototype, which
  `/ping` or `/stop` with "__proto__" does (lines 124 and 156).
- Sessions.Registry.SweepOne, SendLoop.AfterDelay: the warning logged before
  an inactivity stop omits the seconds count of lines 217 and 256. The entry
  is deleted in the same step, so no reply can show it.
- Scenarios.UndefinedRejectionLeavesSession: assumes that an unhandled
  rejection only warns. The promise of `startSendingMessages` (line 103) is
  never awaited or caught, and no `unhandledRejection` handler exists. So
  under Node's default since version 15, the TypeError from line 223 ends the
  whole process: every session and the janitor stop, and `/status` no longer
  answers.
- SendLoop.AfterSend: `Crashed` ends the one loop. The process exit that
  Node's default makes of it is not modelled.

## Findings

| source | as written | input that shows it | evidently intended | confidence | as-written member | corrected member |
|---|---|---|---|---|---|---|
| sever.js:74 | The fallback to 2 after `parseInt(retries)` keeps a negative count. The dispatcher then makes no call and throws `undefined`. The loop's catch reads `error.message` on it and throws. The promise started at line 103 is never caught, so the rejection is unhandled. Under Node's default since version 15 that ends the process, with every session. Where unhandled rejections only warn, the loop dies while its session stays registered and active. | POST /start with retries "-1" | A negative count means no extra attempt: every dispatch tries at least once. | medium; not executed | `Dispatcher.NegativeRetriesThrowUndefined` | `Config.Retries` |
| sever.js:119 | `!activeSessions[sessionId]` reads a property of a plain object, so names inherited from Object.prototype look registered. `/stop` then answers success for a session that does not exist. | POST /stop with sessionId "toString" | 404 for every id that is not a registered session | high; not executed | `Sessions.PrototypeNameStopSucceeds` | `Sessions.Registry.Stop` |
| sever.js:137 | The same lookup in `/status` lets an inherited name through. Line 144 then reads `.logs.slice` on a member with no `logs` and throws, so Express answers 500. | GET /status/toString | 404 | high; not executed | `Sessions.PrototypeNameStatusFails` | `Sessions.Registry.Status` |
| sever.js:151 | The same lookup in `/ping` lets an inherited name through. Line 156 writes `lastActivity` onto the inherited member, and the reply is success although no session was kept alive. For "__proto__" the member is Object.prototype, so every object inherits an enumerable `lastActivity`. The janitor's `for...in` (line 251) then visits the name "lastActivity". Once that timestamp is more than 15 min old, line 256 calls `addLog`, which passes line 233 (a number is truthy) and throws at line 242's `.logs.push`. The throw is uncaught inside the `setInterval` callback, so the process exits 15 to 20 min after the ping. | POST /ping with sessionId "toString"; POST /ping with sessionId "__proto__", then no request for 20 min | 404 | high; not executed | `Sessions.PrototypeNamePingSucceeds` | `Sessions.Registry.Ping` |
