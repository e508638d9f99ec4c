/**
 * The status line of the upload loops: when a line is emitted, what count,
 * address, byte and ETA kind it shows, and the HH:MM:SS split of a duration.
 * Time is given as exact real seconds (the readings of `time.time()`); the
 * rate and ETA values themselves are not modelled, only which ETA branch is
 * taken and the remaining count it is computed from.
 */
module Progress {
  import opened Commands

  /** A status line is due every this many bytes ... */
  const ReportEvery: nat := 10000
  /** ... or once this many seconds have passed since the last one. */
  const ReportInterval: real := 10.0

  /** Hours, minutes, seconds as the scripts print them (`%02d` each, hours unbounded). */
  datatype Hms = Hms(hours: int, minutes: int, seconds: int)

  /**
   * Whole seconds split with Python's floor `//` and `%`: `s // 3600`,
   * `(s % 3600) // 60`, `s % 60`.
   */
  function SplitSeconds(s: int): (t: Hms)
    ensures t.hours * 3600 + t.minutes * 60 + t.seconds == s
    ensures 0 <= t.minutes < 60 && 0 <= t.seconds < 60
    ensures s >= 0 ==> t.hours >= 0
  {
    Hms(s / 3600, (s % 3600) / 60, s % 60)
  }

  /** The split is the only one with minutes and seconds below 60 that adds up to `s`. */
  lemma SplitSecondsUnique(s: int, t: Hms)
    requires t.hours * 3600 + t.minutes * 60 + t.seconds == s
    requires 0 <= t.minutes < 60 && 0 <= t.seconds < 60
    ensures t == SplitSeconds(s)
  {
    var u := SplitSeconds(s);
    assert t.hours == u.hours;
    assert t.minutes == u.minutes;
  }

  /** Python's `x // d` on a float and a positive whole divisor: the floor of the quotient. */
  function FloorDiv(x: real, d: nat): int
    requires d > 0
  {
    (x / d as real).Floor
  }

  /** Python's `x % d` on a float: the remainder, which takes the sign of the divisor. */
  function FloatMod(x: real, d: nat): real
    requires d > 0
  {
    x - (d * FloorDiv(x, d)) as real
  }

  /** Python's `int(x)` on a float: truncation toward zero. */
  function Trunc(x: real): int {
    if x >= 0.0 then x.Floor else -((-x).Floor)
  }

  /** The floor quotient brackets `x` between consecutive multiples of the divisor. */
  lemma FloorDivBounds(x: real, d: nat)
    requires d == 60 || d == 3600
    ensures (d * FloorDiv(x, d)) as real <= x < (d * (FloorDiv(x, d) + 1)) as real
  {
    var q := FloorDiv(x, d);
    if d == 60 {
      assert q as real <= x / 60.0 < q as real + 1.0;
    } else {
      assert q as real <= x / 3600.0 < q as real + 1.0;
    }
  }

  /** Dividing a float and then flooring is flooring first and dividing whole numbers. */
  lemma FloorDivOfFloor(x: real, d: nat)
    requires d == 60 || d == 3600
    ensures FloorDiv(x, d) == x.Floor / d
  {
    FloorDivBounds(x, d);
    var s := x.Floor;
    var p := FloorDiv(x, d);
    assert s as real <= x < s as real + 1.0;
    if d == 60 {
      assert 60 * p <= s < 60 * p + 60;
    } else {
      assert 3600 * p <= s < 3600 * p + 3600;
    }
  }

  /** The float remainder lies in [0, d) and its whole part is the integer remainder. */
  lemma FloatModOfFloor(x: real, d: nat)
    requires d == 60 || d == 3600
    ensures 0.0 <= FloatMod(x, d) < d as real
    ensures FloatMod(x, d).Floor == x.Floor % d
  {
    FloorDivBounds(x, d);
    FloorDivOfFloor(x, d);
    var s := x.Floor;
    var q := FloorDiv(x, d);
    assert s == d * q + s % d;
    var m := FloatMod(x, d);
    assert m == x - (d * q) as real;
    assert s as real <= x < s as real + 1.0;
    assert (s % d) as real <= m < (s % d) as real + 1.0;
  }

  /**
   * The scripts' HH:MM:SS of a float duration `x`:
   * `int(x // 3600)`, `int((x % 3600) // 60)`, `int(x % 60)`.
   */
  function SplitElapsed(x: real): Hms {
    Hms(FloorDiv(x, 3600), FloorDiv(FloatMod(x, 3600), 60), Trunc(FloatMod(x, 60)))
  }

  /** The split of a float duration is the split of the whole seconds in it, for any sign. */
  lemma SplitElapsedWhole(x: real)
    ensures SplitElapsed(x) == SplitSeconds(x.Floor)
  {
    FloorDivOfFloor(x, 3600);
    FloatModOfFloor(x, 3600);
    FloatModOfFloor(x, 60);
    FloorDivOfFloor(FloatMod(x, 3600), 60);
  }

  /** Seconds the scripts wait after each command. */
  const CommandDelay: real := 0.005

  /**
   * The "Estimated time" printed before the upload: `file_size * COMMAND_DELAY`
   * seconds split as elapsed time is. It is the split of `file_size / 200`
   * whole seconds, so it never counts the delays of a partial 200 bytes.
   */
  lemma EstimatedTime(size: nat)
    ensures SplitElapsed(size as real * CommandDelay) == SplitSeconds(size / 200)
  {
    var x := size as real * CommandDelay;
    SplitElapsedWhole(x);
    var q := size / 200;
    assert size == 200 * q + size % 200;
    assert x == q as real + (size % 200) as real / 200.0;
    assert q as real <= x < q as real + 1.0;
  }

  /** The ETA field: "calculating..." or an estimate for this many remaining bytes. */
  datatype Eta = Calculating | Estimated(remaining: int)

  /**
   * One status line: the count shown before the slash, the total, elapsed
   * time, the ETA kind, and the address and byte just sent.
   */
  datatype Status = Status(count: int, total: nat, elapsed: Hms, eta: Eta, address: nat, value: Byte)

  /** The reporter's state across iterations: `last_update` and the lines written so far. */
  datatype Reporter = Reporter(lastUpdate: real, lines: seq<Status>)

  /** Emission test of the ascending script: index a multiple of 10000, time due, or last index. */
  predicate ForwardEmits(i: nat, size: nat, timeDue: bool) {
    i % ReportEvery == 0 || timeDue || i == size - 1
  }

  /** Emission test of the descending script: processed count a multiple of 10000, time due, or index 0. */
  predicate ReverseEmits(i: nat, size: nat, timeDue: bool)
    requires i < size
  {
    (size - i) % ReportEvery == 0 || timeDue || i == 0
  }

  /** The ascending script's line for index `i`, read from the clock at `now`. */
  function ForwardStatus(image: seq<Byte>, base: nat, start: real, now: real, i: nat): Status
    requires i < |image|
  {
    Status(i + 1, |image|, SplitElapsed(now - start),
      if i > 0 then Estimated(|image| - i) else Calculating,
      base + i, image[i])
  }

  /** The descending script's line for index `i`, where `processed = file_size - i`. */
  function ReverseStatus(image: seq<Byte>, base: nat, start: real, now: real, i: nat): Status
    requires i < |image|
  {
    var processed := |image| - i;
    Status(processed, |image|, SplitElapsed(now - start),
      if processed > 0 then Estimated(|image| - processed) else Calculating,
      base + i, image[i])
  }

  /**
   * The reporter after the ascending iteration for index `i`, whose clock
   * reading is `now`, starting from `r`: a line is added and `last_update`
   * moves to `now` exactly when the emission test holds.
   */
  function ForwardNext(r: Reporter, image: seq<Byte>, base: nat, start: real, now: real, i: nat): Reporter
    requires i < |image|
  {
    if ForwardEmits(i, |image|, now - r.lastUpdate >= ReportInterval)
    then Reporter(now, r.lines + [ForwardStatus(image, base, start, now, i)])
    else r
  }

  /** The reporter after the descending iteration for index `i`, whose clock reading is `now`. */
  function ReverseNext(r: Reporter, image: seq<Byte>, base: nat, start: real, now: real, i: nat): Reporter
    requires i < |image|
  {
    if ReverseEmits(i, |image|, now - r.lastUpdate >= ReportInterval)
    then Reporter(now, r.lines + [ReverseStatus(image, base, start, now, i)])
    else r
  }

  /**
   * The reporter after the first `k` iterations of the ascending loop;
   * `clock[j]` is the `time.time()` reading of iteration `j`.
   */
  function ForwardReport(image: seq<Byte>, base: nat, start: real, clock: seq<real>, k: nat): Reporter
    requires k <= |image| == |clock|
  {
    if k == 0 then Reporter(start, [])
    else ForwardNext(ForwardReport(image, base, start, clock, k - 1), image, base, start, clock[k - 1], k - 1)
  }

  /**
   * The reporter after the first `k` iterations of the descending loop;
   * iteration `j` handles index `|image| - 1 - j` and reads `clock[j]`.
   */
  function ReverseReport(image: seq<Byte>, base: nat, start: real, clock: seq<real>, k: nat): Reporter
    requires k <= |image| == |clock|
  {
    if k == 0 then Reporter(start, [])
    else ReverseNext(ReverseReport(image, base, start, clock, k - 1), image, base, start, clock[k - 1], |image| - k)
  }

  /** The counts that have been shown. */
  function Counts(lines: seq<Status>): set<int> {
    set l | l in lines :: l.count
  }

  /**
   * A line of the ascending script: count `c` in 1..n stands for index `c - 1`;
   * the ETA says "calculating..." only for the first byte, and is otherwise
   * computed for `n - (c - 1)` >= 1 remaining bytes.
   */
  ghost predicate ForwardLine(image: seq<Byte>, base: nat, l: Status) {
    1 <= l.count <= |image| && l.total == |image|
    && l.address == base + l.count - 1 && l.value == image[l.count - 1]
    && l.eta == (if l.count == 1 then Calculating else Estimated(|image| - l.count + 1))
  }

  /**
   * A line of the descending script: count `c` in 1..n is the processed
   * count after sending index `n - c`; the ETA is always computed, for
   * `n - c` >= 0 remaining bytes.
   */
  ghost predicate ReverseLine(image: seq<Byte>, base: nat, l: Status) {
    1 <= l.count <= |image| && l.total == |image|
    && l.address == base + (|image| - l.count) && l.value == image[|image| - l.count]
    && l.eta == Estimated(|image| - l.count)
  }

  /** Counts strictly increase from line to line. */
  ghost predicate Increasing(lines: seq<Status>) {
    forall j1, j2 | 0 <= j1 < j2 < |lines| :: lines[j1].count < lines[j2].count
  }

  /** Every line is a well-formed ascending line for one of the first `k` bytes. */
  ghost predicate ForwardLinesUpTo(image: seq<Byte>, base: nat, lines: seq<Status>, k: nat) {
    forall j | 0 <= j < |lines| :: ForwardLine(image, base, lines[j]) && lines[j].count <= k
  }

  /** Every line is a well-formed descending line for one of the first `k` processed counts. */
  ghost predicate ReverseLinesUpTo(image: seq<Byte>, base: nat, lines: seq<Status>, k: nat) {
    forall j | 0 <= j < |lines| :: ReverseLine(image, base, lines[j]) && lines[j].count <= k
  }

  /** Among the first `k` indices, every multiple of 10000 and the last index have been shown. */
  ghost predicate ForwardCovers(image: seq<Byte>, lines: seq<Status>, k: nat) {
    forall i | 0 <= i < k && (i % ReportEvery == 0 || i == |image| - 1) :: i + 1 in Counts(lines)
  }

  /** Among the first `k` processed counts, every multiple of 10000 and the full size have been shown. */
  ghost predicate ReverseCovers(image: seq<Byte>, lines: seq<Status>, k: nat) {
    forall c | 1 <= c <= k && (c % ReportEvery == 0 || c == |image|) :: c in Counts(lines)
  }

  lemma ForwardStatusLine(image: seq<Byte>, base: nat, start: real, now: real, i: nat)
    requires i < |image|
    ensures ForwardLine(image, base, ForwardStatus(image, base, start, now, i))
    ensures ForwardStatus(image, base, start, now, i).count == i + 1
  {
  }

  lemma ReverseStatusLine(image: seq<Byte>, base: nat, start: real, now: real, i: nat)
    requires i < |image|
    ensures ReverseLine(image, base, ReverseStatus(image, base, start, now, i))
    ensures ReverseStatus(image, base, start, now, i).count == |image| - i
  {
  }

  /** Appending a line adds exactly its count to the counts shown. */
  lemma CountsAppend(lines: seq<Status>, l: Status)
    ensures Counts(lines + [l]) == Counts(lines) + {l.count}
  {
    assert forall m | m in lines + [l] :: m in lines || m == l;
  }

  /** A line whose count exceeds every count so far keeps the counts increasing when appended. */
  lemma IncreasingAppend(lines: seq<Status>, l: Status)
    requires Increasing(lines)
    requires forall j | 0 <= j < |lines| :: lines[j].count < l.count
    ensures Increasing(lines + [l])
  {
  }

  lemma {:induction false} ForwardLinesWellFormed(image: seq<Byte>, base: nat, start: real, clock: seq<real>, k: nat)
    requires k <= |image| == |clock|
    ensures ForwardLinesUpTo(image, base, ForwardReport(image, base, start, clock, k).lines, k)
  {
    if k > 0 {
      ForwardLinesWellFormed(image, base, start, clock, k - 1);
      var i := k - 1;
      var prev := ForwardReport(image, base, start, clock, k - 1);
      var lines := ForwardReport(image, base, start, clock, k).lines;
      if ForwardEmits(i, |image|, clock[i] - prev.lastUpdate >= ReportInterval) {
        var l := ForwardStatus(image, base, start, clock[i], i);
        ForwardStatusLine(image, base, start, clock[i], i);
        assert lines == prev.lines + [l];
        forall j | 0 <= j < |lines|
          ensures ForwardLine(image, base, lines[j]) && lines[j].count <= k
        {
          if j < |prev.lines| {
            assert lines[j] == prev.lines[j];
          }
        }
      }
    }
  }

  lemma {:induction false} ForwardLinesIncreasing(image: seq<Byte>, base: nat, start: real, clock: seq<real>, k: nat)
    requires k <= |image| == |clock|
    ensures Increasing(ForwardReport(image, base, start, clock, k).lines)
  {
    if k > 0 {
      ForwardLinesIncreasing(image, base, start, clock, k - 1);
      ForwardLinesWellFormed(image, base, start, clock, k - 1);
      var i := k - 1;
      var prev := ForwardReport(image, base, start, clock, k - 1);
      var lines := ForwardReport(image, base, start, clock, k).lines;
      if ForwardEmits(i, |image|, clock[i] - prev.lastUpdate >= ReportInterval) {
        var l := ForwardStatus(image, base, start, clock[i], i);
        ForwardStatusLine(image, base, start, clock[i], i);
        IncreasingAppend(prev.lines, l);
      }
    }
  }

  lemma {:induction false} ForwardLinesCover(image: seq<Byte>, base: nat, start: real, clock: seq<real>, k: nat)
    requires k <= |image| == |clock|
    ensures ForwardCovers(image, ForwardReport(image, base, start, clock, k).lines, k)
  {
    if k > 0 {
      ForwardLinesCover(image, base, start, clock, k - 1);
      var i := k - 1;
      var prev := ForwardReport(image, base, start, clock, k - 1);
      var lines := ForwardReport(image, base, start, clock, k).lines;
      if ForwardEmits(i, |image|, clock[i] - prev.lastUpdate >= ReportInterval) {
        CountsAppend(prev.lines, ForwardStatus(image, base, start, clock[i], i));
      }
      assert Counts(prev.lines) <= Counts(lines);
    }
  }

  /**
   * Every line of the ascending script is well formed (see `ForwardLine`),
   * counts strictly increase, and a line is shown for every index that is a
   * multiple of 10000 (the first byte among them) and for the last byte,
   * whatever the clock says.
   */
  lemma ForwardReportLines(image: seq<Byte>, base: nat, start: real, clock: seq<real>)
    requires |image| == |clock|
    ensures var lines := ForwardReport(image, base, start, clock, |image|).lines;
      (forall j | 0 <= j < |lines| :: ForwardLine(image, base, lines[j]))
      && Increasing(lines)
      && (forall i | 0 <= i < |image| && i % ReportEvery == 0 :: i + 1 in Counts(lines))
      && (|image| > 0 ==> |image| in Counts(lines))
  {
    ForwardLinesWellFormed(image, base, start, clock, |image|);
    ForwardLinesIncreasing(image, base, start, clock, |image|);
    ForwardLinesCover(image, base, start, clock, |image|);
  }

  /**
   * For a non-empty image the ascending script's first line is for the
   * first byte, with ETA "calculating...", and its last line is for the last
   * byte, with the ETA computed for one remaining byte.
   */
  lemma ForwardFirstAndLastLine(image: seq<Byte>, base: nat, start: real, clock: seq<real>)
    requires |image| == |clock| && |image| > 0
    ensures var lines := ForwardReport(image, base, start, clock, |image|).lines;
      |lines| > 0
      && lines[0].count == 1 && lines[0].eta == Calculating
      && lines[|lines| - 1].count == |image| && lines[|lines| - 1].address == base + |image| - 1
      && (|image| > 1 ==> lines[|lines| - 1].eta == Estimated(1))
  {
    ForwardReportLines(image, base, start, clock);
    var lines := ForwardReport(image, base, start, clock, |image|).lines;
    assert 0 % ReportEvery == 0;
    assert 1 in Counts(lines);
    assert |image| in Counts(lines);
    var first :| first in lines && first.count == 1;
    var last :| last in lines && last.count == |image|;
    var jf :| 0 <= jf < |lines| && lines[jf] == first;
    var jl :| 0 <= jl < |lines| && lines[jl] == last;
    assert lines[0].count <= lines[jf].count;
    assert lines[jl].count <= lines[|lines| - 1].count;
  }

  lemma {:induction false} ReverseLinesWellFormed(image: seq<Byte>, base: nat, start: real, clock: seq<real>, k: nat)
    requires k <= |image| == |clock|
    ensures ReverseLinesUpTo(image, base, ReverseReport(image, base, start, clock, k).lines, k)
  {
    if k > 0 {
      ReverseLinesWellFormed(image, base, start, clock, k - 1);
      var i := |image| - k;
      var prev := ReverseReport(image, base, start, clock, k - 1);
      var lines := ReverseReport(image, base, start, clock, k).lines;
      if ReverseEmits(i, |image|, clock[k - 1] - prev.lastUpdate >= ReportInterval) {
        var l := ReverseStatus(image, base, start, clock[k - 1], i);
        ReverseStatusLine(image, base, start, clock[k - 1], i);
        assert lines == prev.lines + [l];
        forall j | 0 <= j < |lines|
          ensures ReverseLine(image, base, lines[j]) && lines[j].count <= k
        {
          if j < |prev.lines| {
            assert lines[j] == prev.lines[j];
          }
        }
      }
    }
  }

  lemma {:induction false} ReverseLinesIncreasing(image: seq<Byte>, base: nat, start: real, clock: seq<real>, k: nat)
    requires k <= |image| == |clock|
    ensures Increasing(ReverseReport(image, base, start, clock, k).lines)
  {
    if k > 0 {
      ReverseLinesIncreasing(image, base, start, clock, k - 1);
      ReverseLinesWellFormed(image, base, start, clock, k - 1);
      var i := |image| - k;
      var prev := ReverseReport(image, base, start, clock, k - 1);
      var lines := ReverseReport(image, base, start, clock, k).lines;
      if ReverseEmits(i, |image|, clock[k - 1] - prev.lastUpdate >= ReportInterval) {
        var l := ReverseStatus(image, base, start, clock[k - 1], i);
        ReverseStatusLine(image, base, start, clock[k - 1], i);
        IncreasingAppend(prev.lines, l);
      }
    }
  }

  lemma {:induction false} ReverseLinesCover(image: seq<Byte>, base: nat, start: real, clock: seq<real>, k: nat)
    requires k <= |image| == |clock|
    ensures ReverseCovers(image, ReverseReport(image, base, start, clock, k).lines, k)
  {
    if k > 0 {
      ReverseLinesCover(image, base, start, clock, k - 1);
      var i := |image| - k;
      var prev := ReverseReport(image, base, start, clock, k - 1);
      var lines := ReverseReport(image, base, start, clock, k).lines;
      if ReverseEmits(i, |image|, clock[k - 1] - prev.lastUpdate >= ReportInterval) {
        CountsAppend(prev.lines, ReverseStatus(image, base, start, clock[k - 1], i));
      }
      assert Counts(prev.lines) <= Counts(lines);
    }
  }

  /**
   * Every line of the descending script is well formed (see `ReverseLine`):
   * its ETA is always computed, so the "calculating..." branch is never
   * taken, and the remaining count is never negative. Counts strictly
   * increase, and a line is shown whenever the processed count is a
   * multiple of 10000 and for the final byte at index 0.
   */
  lemma ReverseReportLines(image: seq<Byte>, base: nat, start: real, clock: seq<real>)
    requires |image| == |clock|
    ensures var lines := ReverseReport(image, base, start, clock, |image|).lines;
      (forall j | 0 <= j < |lines| :: ReverseLine(image, base, lines[j]))
      && (forall j | 0 <= j < |lines| :: lines[j].eta != Calculating && lines[j].eta.remaining >= 0)
      && Increasing(lines)
      && (forall c | 1 <= c <= |image| && c % ReportEvery == 0 :: c in Counts(lines))
      && (|image| > 0 ==> |image| in Counts(lines))
  {
    ReverseLinesWellFormed(image, base, start, clock, |image|);
    ReverseLinesIncreasing(image, base, start, clock, |image|);
    ReverseLinesCover(image, base, start, clock, |image|);
  }

  /**
   * For a non-empty image the descending script's last line is for index 0
   * at the load address, with every byte processed and nothing remaining.
   */
  lemma ReverseLastLine(image: seq<Byte>, base: nat, start: real, clock: seq<real>)
    requires |image| == |clock| && |image| > 0
    ensures var lines := ReverseReport(image, base, start, clock, |image|).lines;
      |lines| > 0
      && lines[|lines| - 1].count == |image| && lines[|lines| - 1].address == base
      && lines[|lines| - 1].value == image[0] && lines[|lines| - 1].eta == Estimated(0)
  {
    ReverseReportLines(image, base, start, clock);
    var lines := ReverseReport(image, base, start, clock, |image|).lines;
    var last :| last in lines && last.count == |image|;
    var jl :| 0 <= jl < |lines| && lines[jl] == last;
    assert lines[jl].count <= lines[|lines| - 1].count;
  }
}
