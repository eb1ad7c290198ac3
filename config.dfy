/** Constants of the sender server and the normalisation of a start request
    into the configuration a session keeps for its whole life. */
module Config {

  datatype Option<T> = None | Some(value: T)

  /** Milliseconds without a keep-alive ping after which a session is stopped. */
  const MAX_INACTIVITY: int := 15 * 60 * 1000
  /** Seconds between two sends when the request gives no usable delay. */
  const DEFAULT_DELAY: int := 5
  /** Extra attempts of one dispatch when the request gives no usable count. */
  const DEFAULT_RETRIES: int := 2
  /** Milliseconds the dispatcher waits between two attempts. */
  const RETRY_PAUSE: int := 1000
  /** Milliseconds the send loop waits after a dispatch that failed. */
  const ERROR_BACKOFF: int := 5000
  /** Milliseconds between two janitor sweeps. */
  const SWEEP_PERIOD: int := 5 * 60 * 1000

  /** A string field of a request body: absent (undefined), or present. */
  type Field = Option<string>

  /** JavaScript falsiness of a string field: undefined or the empty string. */
  predicate Falsy(f: Field) {
    f == None || f == Some("")
  }

  /** The part of a POST /start body the core reads. `delay` and `retries`
      hold what parseInt made of the fields, None standing for NaN. */
  datatype StartRequest = StartRequest(
    channelId: Field,
    token: Field,
    message: Field,
    delay: Option<int>,
    retries: Option<int>)

  /** What a session sends, where, with which credential, how often (delay in
      milliseconds) and with how many extra attempts per dispatch. */
  datatype SendConfig = SendConfig(
    channelId: string,
    token: string,
    message: string,
    delay: int,
    retries: int)

  /** `n || fallback` on a parseInt result: NaN and 0 are falsy. */
  function OrDefault(n: Option<int>, fallback: int): int {
    if n == None || n == Some(0) then fallback else n.value
  }

  /** The inter-send delay in milliseconds: the parsed seconds, with 0 and NaN
      falling back to the default. */
  function DelayMs(parsed: Option<int>): (ms: int)
    ensures ms != 0 && ms % 1000 == 0
    ensures parsed == None || parsed == Some(0) ==> ms == DEFAULT_DELAY * 1000
    ensures parsed.Some? && parsed.value != 0 ==> ms == parsed.value * 1000
  {
    OrDefault(parsed, DEFAULT_DELAY) * 1000
  }

  /** The retry count as the handler computes it: `parseInt(retries) || 2`.
      A negative number goes through unchanged. */
  function RetriesAsWritten(parsed: Option<int>): (n: int)
    ensures n != 0
    ensures parsed == None || parsed == Some(0) ==> n == DEFAULT_RETRIES
    ensures parsed.Some? && parsed.value != 0 ==> n == parsed.value
  {
    OrDefault(parsed, DEFAULT_RETRIES)
  }

  /** The retry count a session keeps: as written, except that a negative
      count is raised to 0, so that every dispatch makes at least one attempt. */
  function Retries(parsed: Option<int>): (n: int)
    ensures n >= 0
    ensures RetriesAsWritten(parsed) >= 0 ==> n == RetriesAsWritten(parsed)
    ensures RetriesAsWritten(parsed) < 0 ==> n == 0
  {
    var n := RetriesAsWritten(parsed);
    if n < 0 then 0 else n
  }

  /** The validation of /start: channel, token and message must all be truthy. */
  predicate Complete(req: StartRequest) {
    !Falsy(req.channelId) && !Falsy(req.token) && !Falsy(req.message)
  }

  /** The configuration stored for an accepted request. */
  function ConfigOf(req: StartRequest): (c: SendConfig)
    requires Complete(req)
    ensures c.channelId != "" && c.token != "" && c.message != ""
    ensures Some(c.channelId) == req.channelId && Some(c.token) == req.token
    ensures Some(c.message) == req.message
    ensures c.delay == DelayMs(req.delay) && c.retries == Retries(req.retries)
    ensures c.retries >= 0 && c.delay != 0
  {
    SendConfig(req.channelId.value, req.token.value, req.message.value,
               DelayMs(req.delay), Retries(req.retries))
  }
}
