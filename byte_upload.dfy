/**
 * `main()` of upload_firmware_byte.py after the image is read and the
 * operator has pressed Enter: one `mw.b` command per byte, in ascending
 * address order, with the progress line. The fixed delay after each command
 * has no effect on what is sent and is not modelled.
 */
module ByteUpload {
  import opened Commands
  import opened Traversal
  import opened Progress
  import opened Transport

  /**
   * The end of the iteration for index `i`, at clock reading `now`: a status
   * line is printed, and `last_update` set, when the index is a multiple of
   * 10000, ten seconds have passed since the last line, or this is the last
   * byte. The ETA of the first byte reads "calculating...".
   */
  method ReportProgress(image: seq<Byte>, base: nat, start: real, now: real, i: nat, lastUpdate: real, console: seq<Status>)
    returns (lastUpdate': real, console': seq<Status>)
    requires i < |image|
    ensures Reporter(lastUpdate', console') == ForwardNext(Reporter(lastUpdate, console), image, base, start, now, i)
  {
    lastUpdate', console' := lastUpdate, console;
    if i % ReportEvery == 0 || now - lastUpdate >= ReportInterval || i == |image| - 1 {
      var elapsed := now - start;
      var eta: Eta;
      if i > 0 {
        eta := Estimated(|image| - i);
      } else {
        eta := Calculating;
      }
      var status := Status(i + 1, |image|, SplitElapsed(elapsed), eta, base + i, image[i]);
      console' := console + [status];
      lastUpdate' := now;
    }
  }

  /**
   * Sends `image` to `port`, the byte at index `i` as a write to `base + i`,
   * lowest index first. `start` is the clock before the loop, `clock[i]` the
   * reading taken in iteration `i`, and `finish` the reading after the loop.
   * Returns how the run ended and the status lines written to the console.
   */
  method SendImage(port: SerialPort, image: seq<Byte>, base: nat, start: real, clock: seq<real>, finish: real)
    returns (outcome: Outcome, console: seq<Status>)
    requires |clock| == |image|
    modifies port
    ensures outcome == RunOutcome(port.failsAt, |old(port.log)|, |image|, start, finish)
    ensures outcome.Completed? ==>
      port.log == old(port.log) + ForwardLog(image, base)
      && console == ForwardReport(image, base, start, clock, |image|).lines
    ensures outcome.Aborted? ==>
      port.log == old(port.log) + ForwardLog(image, base)[..outcome.sent]
      && console == ForwardReport(image, base, start, clock, outcome.sent).lines
  {
    var lastUpdate := start;
    console := [];
    for i := 0 to |image|
      invariant port.log == old(port.log) + ForwardLog(image, base)[..i]
      invariant Reporter(lastUpdate, console) == ForwardReport(image, base, start, clock, i)
      invariant !(port.failsAt.Some? && |old(port.log)| <= port.failsAt.value < |old(port.log)| + i)
    {
      var address := base + i;
      var byteVal := image[i];
      var command := Encode(ByteCommand(address, byteVal));
      var ok := port.Write(command);
      if !ok {
        outcome := Aborted(i);
        return;
      }
      ForwardLogStep(old(port.log), image, base, i);

      var now := clock[i];
      lastUpdate, console := ReportProgress(image, base, start, now, i, lastUpdate, console);
    }
    assert ForwardLog(image, base)[..|image|] == ForwardLog(image, base);
    outcome := Completed(SplitElapsed(finish - start));
  }
}
