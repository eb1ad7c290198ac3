/** The message dispatcher: one message, sent with a bounded number of
    attempts and a fixed pause between them. The HTTP call to the messaging
    API is abstract: `outcome(k)` is what the k-th attempt (counting from 0)
    comes back with. */
module Dispatcher {
  import opened Config

  /** What one HTTP attempt yields: the response body, or the error's message. */
  datatype Attempt = Delivered(data: string) | Refused(message: string)

  /** How a dispatch settles: resolved with the response body, rejected with
      the last error, or rejected with `undefined` when no attempt was made. */
  datatype SendOutcome = Sent(data: string) | Threw(message: string) | ThrewUndefined

  /** How many passes `while (attempts <= retries)` allows when every attempt fails. */
  function Tries(retries: int): nat {
    if retries < 0 then 0 else retries + 1
  }

  /** The first delivered attempt among attempts from .. n-1, if any. */
  function FirstDelivered(outcome: nat -> Attempt, from: nat, n: nat): (k: Option<nat>)
    decreases n - from
    ensures k.Some? ==> from <= k.value < n && outcome(k.value).Delivered?
    ensures k.Some? ==> forall j :: from <= j < k.value ==> outcome(j).Refused?
    ensures k.None? ==> forall j :: from <= j < n ==> outcome(j).Refused?
  {
    if from >= n then None
    else if outcome(from).Delivered? then Some(from)
    else FirstDelivered(outcome, from + 1, n)
  }

  /** How a dispatch with `retries` extra attempts settles. */
  function Outcome(retries: int, outcome: nat -> Attempt): (r: SendOutcome)
    ensures r.Sent? <==> exists k :: 0 <= k < Tries(retries) && outcome(k).Delivered?
    ensures r.Sent? ==>
              exists k :: 0 <= k < Tries(retries) && outcome(k) == Delivered(r.data) && forall j :: 0 <= j < k ==> outcome(j).Refused?
    ensures r.Threw? ==> Tries(retries) >= 1 && r.message == outcome(Tries(retries) - 1).message
    ensures r.ThrewUndefined? <==> retries < 0
  {
    match FirstDelivered(outcome, 0, Tries(retries))
    case Some(k) => Sent(outcome(k).data)
    case None =>
      if Tries(retries) == 0 then ThrewUndefined
      else Threw(outcome(Tries(retries) - 1).message)
  }

  /** How many HTTP calls a dispatch makes. */
  function Calls(retries: int, outcome: nat -> Attempt): (n: nat)
    ensures n <= Tries(retries)
    ensures Outcome(retries, outcome).Sent? ==>
              n >= 1 && outcome(n - 1).Delivered? && forall j :: 0 <= j < n - 1 ==> outcome(j).Refused?
    ensures !Outcome(retries, outcome).Sent? ==> n == Tries(retries)
  {
    match FirstDelivered(outcome, 0, Tries(retries))
    case Some(k) => k + 1
    case None => Tries(retries)
  }

  /** sendDiscordMessage: `attempts` counts the failed calls; after each
      failure it pauses RETRY_PAUSE only if one more attempt is allowed.
      `calls` is the number of HTTP calls and `waited` the milliseconds spent
      in those pauses. */
  method Dispatch(retries: int, outcome: nat -> Attempt) returns (r: SendOutcome, calls: nat, waited: int)
    ensures r == Outcome(retries, outcome) && calls == Calls(retries, outcome)
    ensures waited == if calls == 0 then 0 else (calls - 1) * RETRY_PAUSE
  {
    var attempts: nat := 0;
    var lastError: Option<string> := None;
    waited := 0;
    while attempts <= retries
      invariant attempts <= Tries(retries)
      invariant forall j :: 0 <= j < attempts ==> outcome(j).Refused?
      invariant lastError == if attempts == 0 then None else Some(outcome(attempts - 1).message)
      invariant attempts <= retries ==> waited == attempts * RETRY_PAUSE
      invariant attempts > retries ==> waited == if attempts == 0 then 0 else (attempts - 1) * RETRY_PAUSE
      decreases retries - attempts
    {
      var a := outcome(attempts);
      if a.Delivered? {
        r, calls := Sent(a.data), attempts + 1;
        return;
      }
      lastError := Some(a.message);
      attempts := attempts + 1;
      if attempts <= retries {
        waited := waited + RETRY_PAUSE;
      }
    }
    calls := attempts;
    r := if lastError == None then ThrewUndefined else Threw(lastError.value);
  }

  /** With the retry count the start handler computes from "-1", a dispatch
      makes no call at all and rejects with `undefined`. */
  lemma NegativeRetriesThrowUndefined(outcome: nat -> Attempt)
    ensures RetriesAsWritten(Some(-1)) == -1
    ensures Outcome(RetriesAsWritten(Some(-1)), outcome) == ThrewUndefined
    ensures Calls(RetriesAsWritten(Some(-1)), outcome) == 0
  {
  }

  /** With every retry count a session keeps, a dispatch makes at least one
      call and a rejection carries the last call's error. */
  lemma StoredRetriesAlwaysAttempt(parsed: Option<int>, outcome: nat -> Attempt)
    ensures Calls(Retries(parsed), outcome) >= 1
    ensures Outcome(Retries(parsed), outcome) != ThrewUndefined
  {
  }
}
