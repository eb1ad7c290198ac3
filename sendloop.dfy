/** The per-session send loop. Its body is split at the points where it waits
    (the dispatch, the inter-send delay, the error backoff): each piece between
    two waits is one atomic step on the registry, so that handlers and the
    janitor can be interleaved between them. RunSendLoop drives one session
    through a given series of cycles with nothing interleaved. */
module SendLoop {
  import opened Config
  import opened Dispatcher
  import opened Sessions

  /** Where a loop stands between two atomic steps. */
  datatype Phase =
    | Head      // at `while (session.isRunning)`, about to dispatch
    | Sleeping  // a send succeeded and the loop waits config.delay
    | Exited    // the loop has left its while
    | Crashed   // the catch block threw and the loop is gone

  const SUCCESS_TEXT: string := "Message sent successfully"

  function FailureText(message: string): string {
    "Failed to send message: " + message
  }

  /** The warning of the loop's own inactivity stop. */
  const INACTIVITY_WARNING: string := "Session stopped due to inactivity"

  /** The entry a settled dispatch appends: success with the response body,
      or error with the message of the last failure. */
  function SendEntry(r: SendOutcome, now: int): (e: LogEntry)
    requires !r.ThrewUndefined?
    ensures e.timestamp == now
    ensures e.level == Success <==> r.Sent?
    ensures e.level == Error <==> r.Threw?
    ensures r.Sent? ==> e.message == SUCCESS_TEXT && e.data == Some(r.data)
    ensures r.Threw? ==> e.message == FailureText(r.message) && e.data == None
  {
    if r.Sent? then LogEntry(now, SUCCESS_TEXT, Success, Some(r.data))
    else LogEntry(now, FailureText(r.message), Error, None)
  }

  /** The test `while (session.isRunning)` at the loop's head: the loop goes
      on while its session is registered, and ends once it has been removed. */
  method AtHead(reg: Registry, id: Id) returns (next: Phase)
    requires reg.Valid() && id in reg.loops
    modifies reg
    ensures reg.Valid() && reg.issued == old(reg.issued) && reg.sessions == old(reg.sessions)
    ensures old(reg.Driven()) ==> reg.Driven()
    ensures id in reg.sessions ==> next == Head && reg.loops == old(reg.loops)
    ensures id !in reg.sessions ==> next == Exited && reg.loops == old(reg.loops) - {id}
  {
    if id in reg.sessions {
      return Head;
    }
    reg.loops := reg.loops - {id};
    next := Exited;
  }

  /** The step after a dispatch settles at `now`. A success is logged and the
      loop sleeps the session's delay, unless its session has been stopped
      meanwhile; a failure is logged and the loop waits ERROR_BACKOFF before
      its head, the session staying registered. A rejection with `undefined`
      makes the catch block itself throw: nothing is logged and the loop dies,
      leaving a registered session without a loop. `wait` is the milliseconds
      until the loop's next step. */
  method AfterSend(reg: Registry, id: Id, r: SendOutcome, now: int) returns (next: Phase, wait: int)
    requires reg.Valid() && id in reg.loops
    modifies reg
    ensures reg.Valid() && reg.issued == old(reg.issued)
    ensures r.ThrewUndefined? ==> next == Crashed && reg.sessions == old(reg.sessions)
    ensures !r.ThrewUndefined? ==> reg.sessions == Logged(old(reg.sessions), id, SendEntry(r, now))
    ensures r.Sent? ==> next == if id in old(reg.sessions) then Sleeping else Exited
    ensures r.Threw? ==> next == Head
    ensures next == Sleeping ==> wait == old(reg.sessions)[id].config.delay
    ensures next == Head ==> wait == ERROR_BACKOFF
    ensures next == Exited || next == Crashed ==> wait == 0
    ensures next == Exited || next == Crashed ==> reg.loops == old(reg.loops) - {id}
    ensures next == Head || next == Sleeping ==> reg.loops == old(reg.loops)
    ensures old(reg.Driven()) && !r.ThrewUndefined? ==> reg.Driven()
    ensures r.ThrewUndefined? && id in old(reg.sessions) ==> id in reg.sessions && id !in reg.loops
  {
    match r
    case Sent(data) =>
      reg.AddLog(id, SUCCESS_TEXT, Success, Some(data), now);
      if id in reg.sessions {
        next, wait := Sleeping, reg.sessions[id].config.delay;
      } else {
        reg.loops := reg.loops - {id};
        next, wait := Exited, 0;
      }
    case Threw(message) =>
      reg.AddLog(id, FailureText(message), Error, None, now);
      next, wait := Head, ERROR_BACKOFF;
    case ThrewUndefined =>
      reg.loops := reg.loops - {id};
      next, wait := Crashed, 0;
  }

  /** The step when the delay has elapsed at `now`: a session idle for more
      than MAX_INACTIVITY is force-stopped and the loop exits; otherwise the
      loop returns to its head. A session stopped during the delay is left
      alone and the loop exits (the source reaches the exit either through the
      forced stop, whose log and delete then do nothing, or through the head). */
  method AfterDelay(reg: Registry, id: Id, now: int) returns (next: Phase)
    requires reg.Valid() && id in reg.loops
    modifies reg
    ensures reg.Valid() && reg.issued == old(reg.issued)
    ensures old(reg.Driven()) ==> reg.Driven()
    ensures id !in old(reg.sessions) ==> next == Exited && reg.sessions == old(reg.sessions)
    ensures id in old(reg.sessions) && Idle(old(reg.sessions)[id], now) ==>
              next == Exited && reg.sessions == old(reg.sessions) - {id}
    ensures id in old(reg.sessions) && !Idle(old(reg.sessions)[id], now) ==>
              next == Head && reg.sessions == old(reg.sessions)
    ensures next == Exited ==> reg.loops == old(reg.loops) - {id}
    ensures next == Head ==> reg.loops == old(reg.loops)
  {
    if id !in reg.sessions {
      reg.loops := reg.loops - {id};
      return Exited;
    }
    var idle := now - reg.sessions[id].lastActivity;
    if idle > MAX_INACTIVITY {
      reg.ForceStop(id, INACTIVITY_WARNING, now);
      reg.loops := reg.loops - {id};
      return Exited;
    }
    next := Head;
  }

  /** One cycle as the environment plays it: what each dispatch attempt comes
      back with, when the dispatch settles and when the delay ends. */
  datatype Cycle = Cycle(outcome: nat -> Attempt, sentAt: int, wokeAt: int)

  /** Whether a cycle over `s` ends with the loop's inactivity stop: the
      dispatch succeeds and the session is idle when the delay ends. */
  predicate Evicts(s: Session, c: Cycle) {
    Outcome(s.config.retries, c.outcome).Sent? && Idle(s, c.wokeAt)
  }

  /** A cycle of the loop over a session nobody else touches: None when the
      loop removes the session. */
  function Pass(s: Session, c: Cycle): (p: Option<Session>)
    requires s.config.retries >= 0
    ensures p.None? <==> Evicts(s, c)
    ensures p.Some? ==> && p.value.config == s.config && p.value.lastActivity == s.lastActivity
                        && p.value.isRunning == s.isRunning
                        && |p.value.logs| == |s.logs| + 1 && p.value.logs[..|s.logs|] == s.logs
                        && p.value.logs[|s.logs|] == SendEntry(Outcome(s.config.retries, c.outcome), c.sentAt)
                        && (p.value.logs[|s.logs|].level == Success <==> Outcome(s.config.retries, c.outcome).Sent?)
  {
    var r := Outcome(s.config.retries, c.outcome);
    var s1 := s.(logs := s.logs + [SendEntry(r, c.sentAt)]);
    if r.Sent? && Idle(s1, c.wokeAt) then None else Some(s1)
  }

  /** The cycles of one uninterrupted run, until the loop removes the session. */
  function Run(s: Session, cycles: seq<Cycle>): Option<Session>
    requires s.config.retries >= 0
    decreases |cycles|
  {
    if cycles == [] then Some(s)
    else match Pass(s, cycles[0])
      case None => None
      case Some(s1) => Run(s1, cycles[1..])
  }

  /** The loop removes its session exactly when some cycle sends successfully
      and then finds the session idle. */
  lemma {:induction false} RunEvictsIff(s: Session, cycles: seq<Cycle>)
    requires s.config.retries >= 0
    decreases |cycles|
    ensures Run(s, cycles).None? <==> exists k :: 0 <= k < |cycles| && Evicts(s, cycles[k])
  {
    if cycles != [] {
      match Pass(s, cycles[0])
      case None =>
        assert Evicts(s, cycles[0]);
      case Some(s1) =>
        RunEvictsIff(s1, cycles[1..]);
        forall k | 0 <= k < |cycles[1..]|
          ensures Evicts(s1, cycles[1..][k]) <==> Evicts(s, cycles[k + 1])
        {
          assert cycles[1..][k] == cycles[k + 1];
        }
        if Run(s, cycles).None? {
          var k :| 0 <= k < |cycles[1..]| && Evicts(s1, cycles[1..][k]);
          assert Evicts(s, cycles[k + 1]);
        }
        if exists k :: 0 <= k < |cycles| && Evicts(s, cycles[k]) {
          var k :| 0 <= k < |cycles| && Evicts(s, cycles[k]);
          assert k != 0;
          assert Evicts(s1, cycles[1..][k - 1]);
        }
    }
  }

  /** A run that keeps its session changes nothing of it but the log, which
      grows by exactly one entry per cycle, older entries untouched. */
  lemma {:induction false} RunKeepsSession(s: Session, cycles: seq<Cycle>)
    requires s.config.retries >= 0
    decreases |cycles|
    ensures Run(s, cycles).Some? ==>
              var t := Run(s, cycles).value;
              && t.config == s.config && t.lastActivity == s.lastActivity && t.isRunning == s.isRunning
              && |t.logs| == |s.logs| + |cycles| && t.logs[..|s.logs|] == s.logs
  {
    if cycles != [] {
      match Pass(s, cycles[0])
      case None =>
      case Some(s1) =>
        RunKeepsSession(s1, cycles[1..]);
        if Run(s, cycles).Some? {
          var t := Run(s, cycles).value;
          assert t.logs[..|s.logs|] == t.logs[..|s1.logs|][..|s.logs|];
        }
    }
  }

  /** A run in which every dispatch fails never removes its session. */
  lemma FailingRunKeepsSession(s: Session, cycles: seq<Cycle>)
    requires s.config.retries >= 0
    requires forall k :: 0 <= k < |cycles| ==> !Outcome(s.config.retries, cycles[k].outcome).Sent?
    ensures Run(s, cycles).Some?
  {
    RunEvictsIff(s, cycles);
  }

  /** Updating `id` does not change the map without `id`. */
  lemma SameOffKey(m: map<Id, Session>, id: Id, v: Session)
    ensures m[id := v] - {id} == m - {id}
  {
  }

  /** Two maps that agree once `id` is removed, the first holding `id`. */
  lemma EqualOffKey(a: map<Id, Session>, b: map<Id, Session>, id: Id)
    requires a - {id} == b - {id} && id in a
    ensures a == b[id := a[id]]
  {
    forall k | k != id
      ensures (k in a <==> k in b) && (k in a ==> a[k] == b[k])
    {
      assert (k in a <==> k in a - {id}) && (k in b <==> k in b - {id});
      if k in a {
        assert a[k] == (a - {id})[k] == (b - {id})[k] == b[k];
      }
    }
  }

  /** One pass of the loop body over a registered session, with nothing
      interleaved: dispatch, log, and after a success the delay and the
      inactivity check. */
  method RunCycle(reg: Registry, id: Id, c: Cycle) returns (next: Phase)
    requires reg.Valid() && id in reg.sessions && id in reg.loops
    modifies reg
    ensures reg.Valid() && reg.issued == old(reg.issued)
    ensures Pass(old(reg.sessions)[id], c).None? ==>
              next == Exited && reg.sessions == old(reg.sessions) - {id} && reg.loops == old(reg.loops) - {id}
    ensures Pass(old(reg.sessions)[id], c).Some? ==>
              && next == Head && reg.loops == old(reg.loops)
              && reg.sessions == old(reg.sessions)[id := Pass(old(reg.sessions)[id], c).value]
  {
    var s := reg.sessions[id];
    var r, calls, waited := Dispatch(s.config.retries, c.outcome);
    var wait;
    next, wait := AfterSend(reg, id, r, c.sentAt);
    if next == Sleeping {
      next := AfterDelay(reg, id, c.wokeAt);
    }
  }

  /** `while (session.isRunning)`: the loop of startSendingMessages over the
      given cycles, with no handler or sweep in between. */
  method RunSendLoop(reg: Registry, id: Id, cycles: seq<Cycle>) returns (next: Phase)
    requires reg.Valid() && id in reg.sessions && id in reg.loops
    modifies reg
    ensures reg.Valid() && reg.issued == old(reg.issued)
    ensures Run(old(reg.sessions)[id], cycles).None? ==>
              next == Exited && reg.sessions == old(reg.sessions) - {id} && reg.loops == old(reg.loops) - {id}
    ensures Run(old(reg.sessions)[id], cycles).Some? ==>
              && next == Head && reg.loops == old(reg.loops)
              && reg.sessions == old(reg.sessions)[id := Run(old(reg.sessions)[id], cycles).value]
  {
    ghost var start := reg.sessions[id];
    var i := 0;
    next := Head;
    while i < |cycles| && id in reg.sessions
      invariant 0 <= i <= |cycles|
      invariant reg.Valid() && reg.issued == old(reg.issued)
      invariant reg.sessions - {id} == old(reg.sessions) - {id}
      invariant reg.loops == if id in reg.sessions then old(reg.loops) else old(reg.loops) - {id}
      invariant id in reg.sessions ==> next == Head && Run(start, cycles) == Run(reg.sessions[id], cycles[i..])
      invariant id !in reg.sessions ==> next == Exited && Run(start, cycles).None?
      decreases |cycles| - i
    {
      assert cycles[i..][0] == cycles[i] && cycles[i..][1..] == cycles[i + 1..];
      ghost var before := reg.sessions;
      next := RunCycle(reg, id, cycles[i]);
      if id in reg.sessions {
        assert reg.sessions - {id} == before - {id} by {
          SameOffKey(before, id, reg.sessions[id]);
        }
      }
      i := i + 1;
    }
    if id in reg.sessions {
      assert cycles[i..] == [];
      EqualOffKey(reg.sessions, old(reg.sessions), id);
    }
  }
}
