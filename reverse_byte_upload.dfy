/**
 * `main()` of upload_firmware_byte_reverse.py after the image is read and
 * the operator has pressed Enter: one `mw.b` command per byte, from the
 * highest address down to the load address, with the progress line. The
 * fixed delay after each command has no effect on what is sent and is not
 * modelled.
 */
module ReverseByteUpload {
  import opened Commands
  import opened Traversal
  import opened Progress
  import opened Transport

  /**
   * The end of the iteration for index `i`, at clock reading `now`, once
   * `processed = file_size - i` bytes have gone out: a status line is
   * printed, and `last_update` set, when the processed count is a multiple
   * of 10000, ten seconds have passed since the last line, or this is
   * index 0. The "calculating..." branch for the ETA is kept although
   * `processed` is never 0 here.
   */
  method ReportProgress(image: seq<Byte>, base: nat, start: real, now: real, i: nat, lastUpdate: real, console: seq<Status>)
    returns (lastUpdate': real, console': seq<Status>)
    requires i < |image|
    ensures Reporter(lastUpdate', console') == ReverseNext(Reporter(lastUpdate, console), image, base, start, now, i)
  {
    var n := |image|;
    var processed := n - i;
    lastUpdate', console' := lastUpdate, console;
    if processed % ReportEvery == 0 || now - lastUpdate >= ReportInterval || i == 0 {
      var elapsed := now - start;
      var eta: Eta;
      if processed > 0 {
        eta := Estimated(n - processed);
      } else {
        eta := Calculating;
      }
      var status := Status(processed, n, SplitElapsed(elapsed), eta, base + i, image[i]);
      console' := console + [status];
      lastUpdate' := now;
    }
  }

  /**
   * Sends `image` to `port`, the byte at index `i` as a write to `base + i`,
   * highest index first. `start` is the clock before the loop, `clock[j]` the
   * reading taken in the `j`-th iteration (which handles index
   * `|image| - 1 - j`), and `finish` the reading after the loop. Returns how
   * the run ended and the status lines written to the console.
   */
  method SendImage(port: SerialPort, image: seq<Byte>, base: nat, start: real, clock: seq<real>, finish: real)
    returns (outcome: Outcome, console: seq<Status>)
    requires |clock| == |image|
    modifies port
    ensures outcome == RunOutcome(port.failsAt, |old(port.log)|, |image|, start, finish)
    ensures outcome.Completed? ==>
      port.log == old(port.log) + ReverseLog(image, base)
      && console == ReverseReport(image, base, start, clock, |image|).lines
    ensures outcome.Aborted? ==>
      port.log == old(port.log) + ReverseLog(image, base)[..outcome.sent]
      && console == ReverseReport(image, base, start, clock, outcome.sent).lines
  {
    var n := |image|;
    var lastUpdate := start;
    console := [];
    for i := n downto 0
      invariant port.log == old(port.log) + ReverseLog(image, base)[..n - i]
      invariant Reporter(lastUpdate, console) == ReverseReport(image, base, start, clock, n - i)
      invariant !(port.failsAt.Some? && |old(port.log)| <= port.failsAt.value < |old(port.log)| + n - i)
    {
      var address := base + i;
      var byteVal := image[i];
      var command := Encode(ByteCommand(address, byteVal));
      var ok := port.Write(command);
      if !ok {
        outcome := Aborted(n - 1 - i);
        return;
      }
      ReverseLogStep(old(port.log), image, base, i);

      var now := clock[n - i - 1];
      assert ReverseReport(image, base, start, clock, n - i)
        == ReverseNext(ReverseReport(image, base, start, clock, n - i - 1), image, base, start, now, i);
      lastUpdate, console := ReportProgress(image, base, start, now, i, lastUpdate, console);
    }
    assert ReverseLog(image, base)[..n] == ReverseLog(image, base);
    outcome := Completed(SplitElapsed(finish - start));
  }
}
