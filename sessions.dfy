/** The session registry: the in-memory dictionary from session id to session
    state, the HTTP handlers that change it (/start, /stop, /ping), the
    read-only /status view, the log helper and the janitor sweep.
    Every handler is one atomic step; `now` is the clock reading it takes and
    the id a start request receives is any id never issued before. */
module Sessions {
  import opened Config

  type Id = string

  datatype Level = Info | Success | Warning | Error

  /** One entry of a session's activity log. */
  datatype LogEntry = LogEntry(timestamp: int, message: string, level: Level, data: Option<string>)

  /** One registered session: its fixed configuration, the time of its last
      keep-alive, its running flag and its log, newest entry last. */
  datatype Session = Session(config: SendConfig, lastActivity: int, isRunning: bool, logs: seq<LogEntry>)

  /** The errors the handlers answer with. */
  datatype Failure =
    | AllFieldsRequired
    | SessionNotFound
    | HandlerThrew  // an exception inside a handler, which Express answers with 500

  function HttpStatus(f: Failure): int {
    match f
    case AllFieldsRequired => 400
    case SessionNotFound => 404
    case HandlerThrew => 500
  }

  datatype Reply<T> = Ok(value: T) | Err(failure: Failure)

  /** What GET /status/:sessionId answers for a registered session. */
  datatype StatusView = StatusView(isActive: bool, lastActivity: int, logs: seq<LogEntry>)

  /** Array.prototype.slice with one argument: a negative start counts from the end. */
  function Slice<T>(s: seq<T>, start: int): seq<T> {
    var from := if start < 0 then (if |s| + start < 0 then 0 else |s| + start)
                else (if start > |s| then |s| else start);
    s[from..]
  }

  /** How many log entries a status reply carries at most. */
  const STATUS_LOGS: nat := 20

  /** `logs.slice(-20)`: the newest twenty entries, in their order. */
  function RecentLogs(logs: seq<LogEntry>): (r: seq<LogEntry>)
    ensures |r| <= STATUS_LOGS && |r| <= |logs|
    ensures logs == logs[..|logs| - |r|] + r
    ensures |logs| <= STATUS_LOGS ==> r == logs
    ensures |logs| > STATUS_LOGS ==> |r| == STATUS_LOGS
  {
    Slice(logs, -(STATUS_LOGS as int))
  }

  /** The inactivity test shared by the send loop and the janitor. */
  predicate Idle(s: Session, now: int) {
    now - s.lastActivity > MAX_INACTIVITY
  }

  /** The sessions a sweep at `now` keeps. The for...in is taken to visit the
      own keys only, which holds as long as no enumerable property has been
      written onto Object.prototype. */
  function Survivors(m: map<Id, Session>, now: int): (r: map<Id, Session>)
    ensures forall id :: id in r <==> id in m && !Idle(m[id], now)
    ensures forall id :: id in r ==> r[id] == m[id]
  {
    map id | id in m && !Idle(m[id], now) :: m[id]
  }

  /** A later sweep removes everything an earlier one did, and sweeping twice
      at the same time removes nothing more than sweeping once. */
  lemma SweepLater(m: map<Id, Session>, t: int, t': int)
    requires t <= t'
    ensures Survivors(Survivors(m, t), t') == Survivors(m, t')
    ensures Survivors(Survivors(m, t), t) == Survivors(m, t)
  {
  }

  /** With sweeps at t0, t0 + SWEEP_PERIOD, t0 + 2 * SWEEP_PERIOD, ..., a
      session that is never pinged again is removed by a sweep no later than
      SWEEP_PERIOD after its idle time first exceeds MAX_INACTIVITY. */
  lemma JanitorCatchesIdle(m: map<Id, Session>, id: Id, t0: int) returns (t: int)
    requires id in m && t0 <= m[id].lastActivity + MAX_INACTIVITY
    ensures t >= t0 && (t - t0) % SWEEP_PERIOD == 0
    ensures m[id].lastActivity + MAX_INACTIVITY < t <= m[id].lastActivity + MAX_INACTIVITY + SWEEP_PERIOD
    ensures id !in Survivors(m, t)
  {
    var x := m[id].lastActivity + MAX_INACTIVITY - t0;
    var q := x / SWEEP_PERIOD;
    assert q * SWEEP_PERIOD <= x < q * SWEEP_PERIOD + SWEEP_PERIOD;
    t := t0 + (q + 1) * SWEEP_PERIOD;
    assert (t - t0) % SWEEP_PERIOD == ((q + 1) * SWEEP_PERIOD) % SWEEP_PERIOD == 0;
  }

  /** The sessions left once a sweep at `now` has visited the ids in `visited`. */
  function SweptOver(m: map<Id, Session>, now: int, visited: set<Id>): (r: map<Id, Session>)
    ensures forall id :: id in r <==> id in m && !(id in visited && Idle(m[id], now))
    ensures forall id :: id in r ==> r[id] == m[id]
  {
    map id | id in m && !(id in visited && Idle(m[id], now)) :: m[id]
  }

  /** Visiting one more id removes it exactly when it is idle. */
  lemma SweptOverStep(m: map<Id, Session>, now: int, visited: set<Id>, id: Id)
    requires id in m && id !in visited
    ensures Idle(m[id], now) ==> SweptOver(m, now, visited + {id}) == SweptOver(m, now, visited) - {id}
    ensures !Idle(m[id], now) ==> SweptOver(m, now, visited + {id}) == SweptOver(m, now, visited)
  {
  }

  /** Once every id has been visited, what is left is what a sweep keeps. */
  lemma SweptOverAll(m: map<Id, Session>, now: int)
    ensures SweptOver(m, now, m.Keys) == Survivors(m, now)
  {
  }

  /** `m` after addLog(id, e): the entry goes at the end of that session's
      log, and nothing happens when the session is absent. */
  function Logged(m: map<Id, Session>, id: Id, e: LogEntry): (r: map<Id, Session>)
    ensures r.Keys == m.Keys
    ensures forall k :: k in m && k != id ==> r[k] == m[k]
    ensures id in m ==> r[id] == m[id].(logs := m[id].logs + [e])
  {
    if id in m then m[id := m[id].(logs := m[id].logs + [e])] else m
  }

  /** The warning the janitor logs before it removes an idle session. */
  const SWEEP_WARNING: string := "Session cleaned up due to inactivity"

  /** The names every plain object inherits from Object.prototype. */
  const PrototypeNames: set<string> := {
    "constructor", "__proto__", "hasOwnProperty", "isPrototypeOf",
    "propertyIsEnumerable", "toString", "toLocaleString", "valueOf",
    "__defineGetter__", "__defineSetter__", "__lookupGetter__", "__lookupSetter__"}

  /** Whether a handler's sessionId is an inherited member's name. */
  predicate Inherited(sessionId: Field) {
    sessionId.Some? && sessionId.value in PrototypeNames
  }

  /** The presence test `!sessionId || !activeSessions[sessionId]` as written:
      a property read on a plain object, which also finds inherited members. */
  predicate FoundAsWritten(m: map<Id, Session>, sessionId: Field) {
    !Falsy(sessionId) && (sessionId.value in m || sessionId.value in PrototypeNames)
  }

  /** On every id that is not an inherited name, the lookup as written is the
      own-key test the registry uses. */
  lemma FoundAsWrittenOnOwnKeys(m: map<Id, Session>, sessionId: Field)
    requires sessionId.Some? && sessionId.value !in PrototypeNames && sessionId.value != ""
    ensures FoundAsWritten(m, sessionId) <==> sessionId.value in m
  {
  }

  /** POST /stop as written, on the registry's contents: the reply, and the
      contents afterwards. Deleting a name that is not an own key does
      nothing; the flag write onto an inherited member is not part of the
      registry's contents. */
  function StopAsWritten(m: map<Id, Session>, sessionId: Field): (r: (Reply<()>, map<Id, Session>))
    ensures r.1.Keys <= m.Keys && forall k :: k in r.1 ==> r.1[k] == m[k]
    ensures r.0.Err? ==> r.0.failure == SessionNotFound && r.1 == m
    ensures r.0.Ok? ==> sessionId.Some? && forall k :: k in m && k != sessionId.value ==> k in r.1
  {
    if !FoundAsWritten(m, sessionId) then (Err(SessionNotFound), m)
    else (Ok(()), m - {sessionId.value})
  }

  /** Whatever the registry holds, stopping an inherited name that is not a
      registered session reports success and removes nothing. */
  lemma PrototypeNameStopSucceeds(m: map<Id, Session>, name: string)
    requires name in PrototypeNames && name !in m
    ensures StopAsWritten(m, Some(name)) == (Ok(()), m)
  {
    assert m - {name} == m;
  }

  /** Off the inherited names, /stop as written answers and removes exactly
      what Registry.Stop does: success and the removal of a registered id,
      404 and no change otherwise. */
  lemma StopAsWrittenOffPrototypes(m: map<Id, Session>, sessionId: Field)
    requires "" !in m && !Inherited(sessionId)
    ensures StopAsWritten(m, sessionId) ==
              if sessionId.Some? && sessionId.value in m then (Ok(()), m - {sessionId.value})
              else (Err(SessionNotFound), m)
  {
  }

  /** GET /status as written: an inherited name passes the lookup, and
      reading `.logs.slice` on it throws, which Express answers with 500. */
  function StatusAsWritten(m: map<Id, Session>, id: Id): (r: Reply<StatusView>)
    ensures r.Ok? <==> id in m
    ensures r.Ok? ==> r.value.lastActivity == m[id].lastActivity && r.value.logs == RecentLogs(m[id].logs)
    ensures r.Err? && r.failure == SessionNotFound ==> id !in m && id !in PrototypeNames
  {
    if id in m then Ok(StatusView(m[id].isRunning, m[id].lastActivity, RecentLogs(m[id].logs)))
    else if id in PrototypeNames then Err(HandlerThrew)
    else Err(SessionNotFound)
  }

  /** Status of an inherited name that is not a registered session: 500, not 404. */
  lemma PrototypeNameStatusFails(m: map<Id, Session>, name: string)
    requires name in PrototypeNames && name !in m
    ensures StatusAsWritten(m, name).Err? && HttpStatus(StatusAsWritten(m, name).failure) == 500
  {
  }

  /** Off the inherited names, /status as written is the registry's own view. */
  lemma StatusAsWrittenOffPrototypes(reg: Registry, id: Id)
    requires id !in PrototypeNames
    ensures StatusAsWritten(reg.sessions, id) == reg.Status(id)
  {
  }

  /** POST /ping as written, on the registry's own entries. For an inherited
      name the handler answers success and writes `lastActivity` onto the
      inherited member, which no own entry shows. That write is not
      harmless: for "__proto__" it lands on Object.prototype, where the
      janitor's for...in later visits it; `Survivors` does not model that. */
  function PingAsWritten(m: map<Id, Session>, sessionId: Field, now: int): (r: (Reply<int>, map<Id, Session>))
    ensures r.1.Keys == m.Keys
    ensures forall k :: k in m && Some(k) != sessionId ==> r.1[k] == m[k]
    ensures r.0.Err? ==> r.0.failure == SessionNotFound && r.1 == m
    ensures r.0.Ok? ==> r.0.value == now
  {
    if !FoundAsWritten(m, sessionId) then (Err(SessionNotFound), m)
    else if sessionId.value in m then
      (Ok(now), m[sessionId.value := m[sessionId.value].(lastActivity := now)])
    else (Ok(now), m)
  }

  /** Pinging an inherited name that is not a registered session reports
      success and keeps no session alive. */
  lemma PrototypeNamePingSucceeds(m: map<Id, Session>, name: string, now: int)
    requires name in PrototypeNames && name !in m
    ensures PingAsWritten(m, Some(name), now) == (Ok(now), m)
  {
  }

  /** Off the inherited names, /ping as written answers and changes exactly
      what Registry.Ping does. */
  lemma PingAsWrittenOffPrototypes(m: map<Id, Session>, sessionId: Field, now: int)
    requires "" !in m && !Inherited(sessionId)
    ensures PingAsWritten(m, sessionId, now) ==
              if sessionId.Some? && sessionId.value in m
              then (Ok(now), m[sessionId.value := m[sessionId.value].(lastActivity := now)])
              else (Err(SessionNotFound), m)
  {
  }

  /** What holds of every registered session: it is running, and its retry
      count allows at least one attempt per dispatch. */
  predicate Healthy(s: Session) {
    s.isRunning && s.config.retries >= 0
  }

  /** The dictionary of active sessions. */
  class Registry {
    var sessions: map<Id, Session>
    /** Every id ever handed out by /start. */
    ghost var issued: set<Id>
    /** The ids whose send loop is still running. /start launches one loop
        per new id; only the loop itself ends it, when it leaves its while. */
    ghost var loops: set<Id>

    /** Registered ids were issued, are not empty, and their sessions are
        running with a retry count that allows at least one attempt; loops
        run only for issued ids. */
    ghost predicate Valid()
      reads this
    {
      && sessions.Keys <= issued && loops <= issued
      && "" !in sessions
      && forall id :: id in sessions ==> Healthy(sessions[id])
    }

    /** Whether a handler's sessionId names a registered session. */
    predicate Present(sessionId: Field)
      reads this
    {
      sessionId.Some? && sessionId.value in sessions
    }

    /** Every registered session has a send loop working for it. */
    ghost predicate Driven()
      reads this
    {
      sessions.Keys <= loops
    }

    constructor ()
      ensures Valid() && Driven() && sessions == map[] && issued == {} && loops == {}
    {
      sessions := map[];
      issued := {};
      loops := {};
    }

    /** POST /start: a request missing channel, token or message is refused
        with 400, changes nothing and starts no loop; otherwise the fresh id
        is registered with a running session, last active now, with an empty
        log, and one send loop, the first for that id, starts for it. */
    method Start(req: StartRequest, id: Id, now: int) returns (r: Reply<Id>)
      requires Valid() && id !in issued && id != ""
      modifies this
      ensures Valid()
      ensures old(Driven()) ==> Driven()
      ensures !Complete(req) ==>
                r == Err(AllFieldsRequired) && sessions == old(sessions) && issued == old(issued) && loops == old(loops)
      ensures Complete(req) ==>
                && r == Ok(id) && id !in old(sessions) && issued == old(issued) + {id}
                && sessions == old(sessions)[id := Session(ConfigOf(req), now, true, [])]
                && id !in old(loops) && loops == old(loops) + {id}
    {
      if Falsy(req.channelId) || Falsy(req.token) || Falsy(req.message) {
        return Err(AllFieldsRequired);
      }
      var config := ConfigOf(req);
      issued := issued + {id};
      sessions := sessions[id := Session(config, now, true, [])];
      loops := loops + {id};
      r := Ok(id);
    }

    /** POST /stop: an absent or unknown id is 404 and changes nothing; a
        registered one has its flag cleared and is removed. */
    method Stop(sessionId: Field) returns (r: Reply<()>)
      requires Valid()
      modifies this
      ensures Valid() && issued == old(issued) && loops == old(loops)
      ensures !old(Present(sessionId)) ==> r == Err(SessionNotFound) && sessions == old(sessions)
      ensures old(Present(sessionId)) ==> r == Ok(()) && sessions == old(sessions) - {sessionId.value}
    {
      if Falsy(sessionId) || sessionId.value !in sessions {
        return Err(SessionNotFound);
      }
      var id := sessionId.value;
      sessions := sessions[id := sessions[id].(isRunning := false)];
      sessions := sessions - {id};
      r := Ok(());
    }

    /** GET /status/:sessionId: 404 for an unknown id; otherwise the running
        flag, the last activity and the newest twenty log entries. */
    function Status(id: Id): (r: Reply<StatusView>)
      reads this
      ensures r.Err? <==> id !in sessions
      ensures r.Err? ==> r.failure == SessionNotFound
      ensures r.Ok? ==> r.value.lastActivity == sessions[id].lastActivity
      ensures r.Ok? ==> r.value.logs == RecentLogs(sessions[id].logs)
      ensures r.Ok? && Valid() ==> r.value.isActive
    {
      if id !in sessions then Err(SessionNotFound)
      else
        var s := sessions[id];
        Ok(StatusView(s.isRunning, s.lastActivity, RecentLogs(s.logs)))
    }

    /** POST /ping: 404 for an absent or unknown id; otherwise only that
        session's last activity becomes now. */
    method Ping(sessionId: Field, now: int) returns (r: Reply<int>)
      requires Valid()
      modifies this
      ensures Valid() && issued == old(issued) && loops == old(loops)
      ensures !old(Present(sessionId)) ==> r == Err(SessionNotFound) && sessions == old(sessions)
      ensures old(Present(sessionId)) ==>
                && r == Ok(now)
                && sessions == old(sessions)[sessionId.value := old(sessions)[sessionId.value].(lastActivity := now)]
    {
      if Falsy(sessionId) || sessionId.value !in sessions {
        return Err(SessionNotFound);
      }
      var id := sessionId.value;
      sessions := sessions[id := sessions[id].(lastActivity := now)];
      r := Ok(now);
    }

    /** addLog: one entry at the end of the session's log, or nothing when
        the session is no longer registered. */
    method AddLog(id: Id, message: string, level: Level, data: Option<string>, now: int)
      requires Valid()
      modifies this
      ensures Valid() && issued == old(issued) && loops == old(loops)
      ensures sessions == Logged(old(sessions), id, LogEntry(now, message, level, data))
    {
      if id !in sessions {
        return;
      }
      var entry := LogEntry(now, message, level, data);
      sessions := sessions[id := sessions[id].(logs := sessions[id].logs + [entry])];
    }

    /** The forced stop of an idle session, shared by the send loop and the
        janitor: a warning is logged, the flag is cleared and the session is
        removed, so that nothing of it (the warning included) stays behind. */
    method ForceStop(id: Id, warning: string, now: int)
      requires Valid() && id in sessions
      modifies this
      ensures Valid() && issued == old(issued) && loops == old(loops)
      ensures sessions == old(sessions) - {id}
    {
      AddLog(id, warning, Warning, None, now);
      sessions := sessions[id := sessions[id].(isRunning := false)];
      sessions := sessions - {id};
    }

    /** One turn of the janitor's for...in over `id`: an idle session is
        force-stopped, any other is left as it is. */
    method SweepOne(id: Id, now: int) returns (evicted: bool)
      requires Valid() && id in sessions
      modifies this
      ensures Valid() && issued == old(issued) && loops == old(loops)
      ensures evicted == Idle(old(sessions)[id], now)
      ensures evicted ==> sessions == old(sessions) - {id}
      ensures !evicted ==> sessions == old(sessions)
      ensures |sessions| == if evicted then |old(sessions)| - 1 else |old(sessions)|
    {
      var idle := now - sessions[id].lastActivity;
      evicted := idle > MAX_INACTIVITY;
      if evicted {
        ForceStop(id, SWEEP_WARNING, now);
        assert sessions.Keys == old(sessions).Keys - {id};
      }
    }

    /** The janitor's sweep at `now`: every idle session gets a warning, has
        its flag cleared and is removed; `cleaned` counts them. */
    method Sweep(now: int) returns (cleaned: nat)
      requires Valid()
      modifies this
      ensures Valid() && issued == old(issued) && loops == old(loops)
      ensures sessions == Survivors(old(sessions), now)
      ensures cleaned == |old(sessions)| - |sessions|
    {
      ghost var m0, issued0, loops0 := sessions, issued, loops;
      cleaned := 0;
      var pending := sessions.Keys;
      ghost var visited: set<Id> := {};
      while pending != {}
        invariant Valid() && issued == issued0 && loops == loops0
        invariant pending <= m0.Keys && visited == m0.Keys - pending
        invariant sessions == SweptOver(m0, now, visited)
        invariant cleaned == |m0| - |sessions|
        decreases pending
      {
        var id :| id in pending;
        SweptOverStep(m0, now, visited, id);
        var evicted := SweepOne(id, now);
        if evicted {
          cleaned := cleaned + 1;
        }
        pending := pending - {id};
        visited := visited + {id};
      }
      SweptOverAll(m0, now);
    }
  }
}
