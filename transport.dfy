/**
 * The serial connection as the upload loops use it: an append-only log of
 * the byte strings passed to `ser.write`, one of which may raise an I/O
 * error. Opening, configuring and closing the port are not part of this model.
 */
module Transport {
  import opened Wrappers
  import opened Commands
  import opened Progress

  class SerialPort {
    /** Every write accepted so far, oldest first. */
    var log: seq<seq<Byte>>
    /** The write, counted from 0 since the port was opened, that raises an I/O error, if any. */
    const failsAt: Option<nat>

    constructor (failsAt: Option<nat>)
      ensures log == [] && this.failsAt == failsAt
    {
      log := [];
      this.failsAt := failsAt;
    }

    /** `ser.write(data)`: appends `data`, unless this is the write that raises. */
    method Write(data: seq<Byte>) returns (ok: bool)
      modifies this
      ensures ok <==> failsAt != Some(|old(log)|)
      ensures log == if ok then old(log) + [data] else old(log)
    {
      ok := failsAt != Some(|log|);
      if ok {
        log := log + [data];
      }
    }
  }

  /**
   * How a run ends: every byte sent, with the wall-clock duration split as
   * the completion message prints it, or an uncaught write error after
   * `sent` commands went out.
   */
  datatype Outcome = Completed(duration: Hms) | Aborted(sent: nat)

  /**
   * The outcome of a run of `n` writes on a port that had already accepted
   * `before` writes: aborted at the first failing write, if it falls within
   * the run, otherwise completed at time `finish`.
   */
  function RunOutcome(failsAt: Option<nat>, before: nat, n: nat, start: real, finish: real): (o: Outcome)
    ensures o.Aborted? ==> o.sent < n && failsAt == Some(before + o.sent)
    ensures o.Completed? ==> !(failsAt.Some? && before <= failsAt.value < before + n)
  {
    match failsAt
    case Some(f) =>
      if before <= f < before + n then Aborted(f - before) else Completed(SplitElapsed(finish - start))
    case None => Completed(SplitElapsed(finish - start))
  }
}
