/** The data writer of the middleware, as far as both senders depend on it. */
module DataWriter {

  datatype ReturnCode = OK | TIMEOUT | ERROR

  /** What becomes of one sample: how often its write times out, and whether the last try succeeds. */
  datatype Tries = Tries(timeouts: nat, ok: bool)

  /** The outcome of the n-th try. */
  function Outcome(t: Tries, n: nat): ReturnCode {
    if n < t.timeouts then TIMEOUT else if t.ok then OK else ERROR
  }
}
