/** Client sequences of handler calls, each run on a fresh registry, stating
    what a caller of the HTTP interface observes. */
module Scenarios {
  import opened Config
  import opened Dispatcher
  import opened Sessions
  import opened SendLoop

  /** A valid start is at once visible to /status: active, last active at the
      start time, with an empty log, and a send loop works for it. */
  method StartThenStatus(req: StartRequest, id: Id, now: int)
    returns (started: Reply<Id>, status: Reply<StatusView>, ghost looping: bool)
    requires Complete(req) && id != ""
    ensures started == Ok(id)
    ensures status == Ok(StatusView(true, now, []))
    ensures looping
  {
    var reg := new Registry();
    started := reg.Start(req, id, now);
    status := reg.Status(id);
    looping := id in reg.loops;
  }

  /** An incomplete start is refused and creates nothing: the id it would have
      received is unknown to /status, the registry stays empty and no send
      loop starts. */
  method IncompleteStart(req: StartRequest, id: Id, now: int)
    returns (started: Reply<Id>, status: Reply<StatusView>, count: nat, ghost running: nat)
    requires !Complete(req) && id != ""
    ensures started == Err(AllFieldsRequired) && HttpStatus(started.failure) == 400
    ensures status == Err(SessionNotFound) && count == 0
    ensures running == 0
  {
    var reg := new Registry();
    started := reg.Start(req, id, now);
    status := reg.Status(id);
    count := |reg.sessions|;
    running := |reg.loops|;
  }

  /** Stopping is final: a second stop and a later status are both 404. */
  method StopTwice(req: StartRequest, id: Id, now: int)
    returns (first: Reply<()>, second: Reply<()>, status: Reply<StatusView>)
    requires Complete(req) && id != ""
    ensures first == Ok(())
    ensures second == Err(SessionNotFound) && HttpStatus(second.failure) == 404
    ensures status == Err(SessionNotFound)
  {
    var reg := new Registry();
    var started := reg.Start(req, id, now);
    first := reg.Stop(Some(id));
    second := reg.Stop(Some(id));
    status := reg.Status(id);
  }

  /** A stop that comes while the loop waits out a failed dispatch is seen at
      the loop's head: the loop exits and no loop is left for the id. The
      session starts at t0 and its failed dispatch settles at t1. */
  method StopDuringBackoff(req: StartRequest, id: Id, t0: int, t1: int)
    returns (wait: int, stopped: Reply<()>, next: Phase, ghost looping: bool)
    requires Complete(req) && id != ""
    ensures wait == ERROR_BACKOFF && stopped == Ok(())
    ensures next == Exited && !looping
  {
    var reg := new Registry();
    var started := reg.Start(req, id, t0);
    var after;
    after, wait := AfterSend(reg, id, Threw("timeout"), t1);
    stopped := reg.Stop(Some(id));
    next := AtHead(reg, id);
    looping := id in reg.loops;
  }

  /** A keep-alive ping protects its session from a sweep that would have
      removed it, and only that session: a second one, started at the same
      time and never pinged, is removed. */
  method PingProtects(req: StartRequest, a: Id, b: Id, t0: int, t1: int, t2: int)
    returns (pinged: Reply<StatusView>, silent: Reply<StatusView>, cleaned: nat)
    requires Complete(req) && a != "" && b != "" && a != b
    requires t2 - t0 > MAX_INACTIVITY && t2 - t1 <= MAX_INACTIVITY
    ensures pinged.Ok? && pinged.value.lastActivity == t1
    ensures silent == Err(SessionNotFound)
    ensures cleaned == 1
  {
    var reg := new Registry();
    var ra := reg.Start(req, a, t0);
    var rb := reg.Start(req, b, t0);
    var ping := reg.Ping(Some(a), t1);
    assert reg.sessions.Keys == {a, b};
    assert !Idle(reg.sessions[a], t2) && Idle(reg.sessions[b], t2);
    ghost var swept := Survivors(reg.sessions, t2);
    assert swept.Keys == {a};
    cleaned := reg.Sweep(t2);
    pinged := reg.Status(a);
    silent := reg.Status(b);
  }

  /** An HTTP endpoint that times out twice and then accepts the message. */
  function FlakyThenOk(k: nat): Attempt {
    if k < 2 then Refused("timeout") else Delivered("ok")
  }

  /** With 2 retries, that endpoint gets the message on the third call. */
  lemma FlakyThenOkDelivers()
    ensures Outcome(2, FlakyThenOk) == Sent("ok") && Calls(2, FlakyThenOk) == 3
  {
    assert FirstDelivered(FlakyThenOk, 2, 3) == Some(2);
    assert FirstDelivered(FlakyThenOk, 1, 3) == Some(2);
    assert FirstDelivered(FlakyThenOk, 0, 3) == Some(2);
  }

  /** A session configured with channel "123", token "tok", message "hi", a
      delay of 1 and 2 retries, whose dispatch fails twice and then succeeds:
      three calls with two pauses of a second, one success entry and no error
      entry, and the loop goes on to wait its 1000 ms delay. */
  method RetriedSend(id: Id, now: int, sentAt: int)
    returns (calls: nat, waited: int, next: Phase, wait: int, status: Reply<StatusView>)
    requires id != ""
    ensures calls == 3 && waited == 2000
    ensures next == Sleeping && wait == 1000
    ensures status == Ok(StatusView(true, now, [LogEntry(sentAt, SUCCESS_TEXT, Success, Some("ok"))]))
  {
    var reg := new Registry();
    var req := StartRequest(Some("123"), Some("tok"), Some("hi"), Some(1), Some(2));
    var started := reg.Start(req, id, now);
    var config := reg.sessions[id].config;
    assert config.retries == 2 && config.delay == 1000 by {
      assert config == ConfigOf(req);
    }
    FlakyThenOkDelivers();
    var r;
    r, calls, waited := Dispatch(config.retries, FlakyThenOk);
    assert r == Sent("ok");
    next, wait := AfterSend(reg, id, r, sentAt);
    assert reg.sessions[id].logs == [LogEntry(sentAt, SUCCESS_TEXT, Success, Some("ok"))];
    status := reg.Status(id);
  }

  /** A dispatch that rejects with `undefined` (what a negative retry count
      produces) kills the loop but leaves its session registered and reported
      active, so that nothing sends for it any more. Registry.Start stores the
      corrected count, for which Dispatch never rejects with `undefined`, so
      the rejection passed here stands in for the as-written start with
      retries "-1". */
  method UndefinedRejectionLeavesSession(req: StartRequest, id: Id, now: int)
    returns (next: Phase, status: Reply<StatusView>, ghost looping: bool)
    requires Complete(req) && id != ""
    ensures next == Crashed
    ensures status == Ok(StatusView(true, now, []))
    ensures !looping
  {
    var reg := new Registry();
    var started := reg.Start(req, id, now);
    var wait;
    next, wait := AfterSend(reg, id, ThrewUndefined, now);
    status := reg.Status(id);
    looping := id in reg.loops;
  }
}
