/**
 The listener's transport callbacks of tweet.py: `on_error(status_code)` and
 `on_timeout()`. Both log through `log_error`, which concatenates its argument
 with the current time and appends that line to the log file. Both return True
 so the stream stays open; a rate-limit status (420) first sleeps 900 seconds.

 `on_error` as written builds its message with a comma, which makes a tuple;
 `tuple + str` inside `log_error` raises TypeError, so the sleep and the
 `return True` are never reached. `OnErrorAsWritten` models that code and
 `OnError` the evidently intended behaviour.
 */
module Callbacks {
  import opened Wrappers
  import opened Listener

  /** The Python values that reach `log_error`. */
  datatype PyValue = PyStr(s: string) | PyInt(i: int) | PyTuple(items: seq<PyValue>)

  /** Python's `+`: concatenation of two strings or two tuples, addition of two ints, otherwise TypeError. */
  function PyAdd(a: PyValue, b: PyValue): (r: Result<PyValue, string>)
    ensures r.Success? <==> (a.PyStr? && b.PyStr?) || (a.PyInt? && b.PyInt?) || (a.PyTuple? && b.PyTuple?)
    ensures a.PyStr? && b.PyStr? ==> r == Success(PyStr(a.s + b.s))
  {
    match (a, b)
    case (PyStr(x), PyStr(y)) => Success(PyStr(x + y))
    case (PyInt(x), PyInt(y)) => Success(PyInt(x + y))
    case (PyTuple(x), PyTuple(y)) => Success(PyTuple(x + y))
    case _ => Failure("TypeError")
  }

  /** `log_error(error)` on any value: it fails unless `error` is a string. */
  function LogErrorValue(log: seq<string>, error: PyValue, now: string): (r: Result<seq<string>, string>)
    ensures r.Success? <==> error.PyStr?
    ensures error.PyStr? ==> r == Success(LogError(log, error.s, now))
  {
    match PyAdd(error, PyStr(now))
    case Success(PyStr(line)) => Success(log + [line])
    case Success(_) => Failure("TypeError")
    case Failure(e) => Failure(e)
  }

  /** What a callback did: returned a keep-alive answer after sleeping, or raised. */
  datatype CallbackOutcome =
    | Returned(keepAlive: bool, sleepSeconds: nat, log: seq<string>)
    | Raised(error: string, log: seq<string>)

  const RateLimitStatus := 420
  const RateLimitSleep: nat := 900

  /** `time.sleep(900)` on the rate-limit status, no pause otherwise. */
  function SleepFor(status: int): nat {
    if status == RateLimitStatus then RateLimitSleep else 0
  }

  const ErrorPrefix := "Encountered error with status code: "

  /** The decimal digits of `n`, as `str(n)` prints them. */
  function NatToDecimal(n: nat): (r: string)
    ensures |r| >= 1
    ensures forall i :: 0 <= i < |r| ==> '0' <= r[i] <= '9'
    decreases n
  {
    if n < 10 then [('0' as int + n) as char]
    else NatToDecimal(n / 10) + [('0' as int + n % 10) as char]
  }

  /** The number a string of decimal digits denotes. */
  function DecimalValue(s: string): nat
    requires forall i :: 0 <= i < |s| ==> '0' <= s[i] <= '9'
  {
    if s == [] then 0
    else 10 * DecimalValue(s[..|s| - 1]) + (s[|s| - 1] as int - '0' as int)
  }

  /** Reading the printed digits back gives the number. */
  lemma {:induction false} DecimalRoundTrip(n: nat)
    ensures DecimalValue(NatToDecimal(n)) == n
    decreases n
  {
    var r := NatToDecimal(n);
    if n >= 10 {
      DecimalRoundTrip(n / 10);
      assert r[..|r| - 1] == NatToDecimal(n / 10);
    }
  }

  /** `str(status_code)`. */
  function IntToDecimal(i: int): string {
    if i < 0 then "-" + NatToDecimal(-i) else NatToDecimal(i)
  }

  /** `on_error` as written: the message is the tuple `(ErrorPrefix, status_code)`. */
  function OnErrorAsWritten(log: seq<string>, status: int, now: string): (r: CallbackOutcome)
    ensures r == Raised("TypeError", log)
  {
    var message := PyTuple([PyStr(ErrorPrefix), PyInt(status)]);
    match LogErrorValue(log, message, now)
    case Failure(e) => Raised(e, log)
    case Success(log') =>
      Returned(true, SleepFor(status), log')
  }

  /** Even on the rate-limit status the code as written never sleeps and never returns True. */
  lemma RateLimitNeverSleepsAsWritten(log: seq<string>, now: string)
    ensures !OnErrorAsWritten(log, RateLimitStatus, now).Returned?
  {
  }

  /** `on_error` as intended: log the status, sleep 15 minutes on 420, keep the stream open. */
  function OnError(log: seq<string>, status: int, now: string): (r: CallbackOutcome)
    ensures r.Returned? && r.keepAlive
    ensures r.sleepSeconds > 0 <==> status == RateLimitStatus
    ensures r.sleepSeconds > 0 ==> r.sleepSeconds == 15 * 60
    ensures |r.log| == |log| + 1 && log <= r.log
    ensures r.log[|log|] == ErrorPrefix + IntToDecimal(status) + now
  {
    var message := PyStr(ErrorPrefix + IntToDecimal(status));
    match LogErrorValue(log, message, now)
    case Failure(e) => Raised(e, log)
    case Success(log') =>
      Returned(true, SleepFor(status), log')
  }

  /** `on_timeout`: log "Timeout..." and keep the stream open without sleeping. */
  function OnTimeout(log: seq<string>, now: string): (r: CallbackOutcome)
    ensures r == Returned(true, 0, log + ["Timeout..." + now])
  {
    match LogErrorValue(log, PyStr("Timeout..."), now)
    case Failure(e) => Raised(e, log)
    case Success(log') => Returned(true, 0, log')
  }
}
