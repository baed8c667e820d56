/** What the checker and the probe helpers can say about a candidate. */
module Checker {

  /**
   * The user checker's answer: a plain boolean, or acceptance together
   * with a request to stop (StopMinimization raised from the checker).
   */
  datatype Verdict = Reject | Accept | AcceptAndStop

  /**
   * What one probe (`try_with`) reports to its caller: accepted, rejected,
   * or an exception that unwinds the whole search (a cooperative stop, or
   * a failure of the engine itself). Callers return at once on `Unwind`.
   */
  datatype Answer = Yes | No | Unwind
}
