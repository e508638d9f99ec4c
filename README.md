# Byte-by-byte firmware upload over a U-Boot serial console

Two scripts push a firmware image into the RAM of a router through its
U-Boot console. They send one `mw.b` ("memory write byte") command per
image byte: `mw.b 0x<address> 0x<byte>\n`. The address is the load address
`0x44000000` plus the byte's index. `upload_firmware_byte.py` walks the
image from the first byte to the last. `upload_firmware_byte_reverse.py`
walks it from the last byte down to the first. While sending, both print
a progress line when a count hits a multiple of 10000, when ten seconds
have passed since the last line, or at the final byte. At the end they
print the total duration as HH:MM:SS.

This project models that core in Dafny:

- `Hex` and `Commands`: the command text and its ASCII bytes. Python's
  `%08x` gives at least 8 lower-case hex digits and never truncates. A
  strict fixed-width reader accepts exactly 21 characters, with exactly 8
  and exactly 2 lower-case hex digits. It inverts the encoder exactly when
  the address fits in 32 bits. It is not U-Boot's own parser (see "Left
  out").
- `Traversal`: the commands of a complete run in either order. Each log
  is a specification function. It covers the addresses the run touches,
  the decoding of the whole log by the strict reader, and the RAM that
  results from running the decoded writes in order.
- `Progress`: the emission tests, the status line's fields, the
  reporter's state from one iteration to the next, and the HH:MM:SS split
  of float seconds. The split uses Python's float `//`, float `%` and
  `int()`.
- `Transport`: the serial port as an append-only log of writes. One write
  may fail, and how a run ends follows from that.
- `ByteUpload` and `ReverseByteUpload`: the two upload loops as imperative
  methods. Each method is proved against the log and reporter functions
  above.

Clock readings are parameters. `start` is read before the loop, `clock`
holds one reading per iteration, and `finish` is read after the loop.
Times are exact reals.

Three behaviours of the code are modelled as written:

- The docstring of `upload_firmware_byte.py` says `mm.b`, but the code
  sends `mw.b`.
- The ascending script tests the index for a multiple of 10000, so it
  shows the counts 1, 10001, 20001, … The descending script tests the
  processed count, so it shows 10000, 20000, …
- The ascending script computes its ETA from the index `i` rather than
  from the `i + 1` bytes already sent. For an image of two or more bytes
  its last line therefore shows one byte remaining
  (`Progress.ForwardFirstAndLastLine`). For a one-byte image the last line
  is also the first and shows "calculating...". The descending
  script's last line shows none (`Progress.ReverseLastLine`). The
  descending script's "calculating..." branch is dead code, because its
  processed count is never 0.

## Model

| member | source | states |
|---|---|---|
| Hex.FormatValue | upload_firmware_byte.py:62 | the digits `{n:0Wx}` produces are lower-case hex and read back as `n`, for every width |
| Hex.FormatLength | upload_firmware_byte.py:62 | `{n:0Wx}` has exactly `W` digits iff `n < 16^W`, and more than `W` otherwise: the width is a minimum, never a truncation |
| Hex.FormatCanonical | upload_firmware_byte.py:62 | every non-empty hex string is what `{n:0Wx}` prints for its own value at its own width |
| Hex.FormatInjective | upload_firmware_byte.py:62 | different numbers never print the same digits at the same width |
| Hex.Format | upload_firmware_byte.py:62 | defines `{n:0Wx}`: the lower-case digits of `n`, most significant first, left-padded with '0' to at least `W` characters and never truncated |
| Hex.DigitValueOfDigit | upload_firmware_byte.py:62 | the digit printed for a value below 16 reads back as that value |
| Hex.DigitOfDigitValue | upload_firmware_byte.py:62 | every lower-case hex digit is the digit printed for its own value |
| Commands.AsciiEncode | upload_firmware_byte.py:62 | `.encode('ascii')` of ASCII text gives bytes that read back as the same characters |
| Commands.Text | upload_firmware_byte.py:62 | the command text is ASCII, so the encode never raises |
| Commands.Encode | upload_firmware_byte.py:62 | the bytes written are the characters of `mw.b 0x{address:08x} 0x{byte_val:02x}\n` |
| Commands.TextLength | upload_firmware_byte.py:62 | the command is 21 characters iff the address fits in 32 bits, and never shorter |
| Commands.DecodeText | upload_firmware_byte_reverse.py:63 | an accepted line is 21 characters long and carries a 32-bit address |
| Commands.Decode | upload_firmware_byte_reverse.py:63 | the strict reader applied to the bytes as characters: an accepted byte line is 21 bytes long and carries a 32-bit address |
| Commands.DecodeTextOfText | upload_firmware_byte_reverse.py:63 | decoding a command's text gives back the command exactly when its address fits in 32 bits, and nothing otherwise |
| Commands.DecodeEncode | upload_firmware_byte.py:62 | decode after encode is the identity iff the address is below 2^32, and fails above it |
| Commands.EncodeDecode | upload_firmware_byte.py:62 | every accepted line is exactly the encoding of what it decodes to |
| Commands.EncodeInjective | upload_firmware_byte.py:62 | two different (address, byte) pairs never produce the same bytes |
| Commands.ExampleText | upload_firmware_byte.py:58-62 | the byte `0xab` at index 16 is sent as `mw.b 0x44000010 0xab\n` |
| Traversal.Ascending | upload_firmware_byte.py:57 | defines the indices `enumerate(firmware_data)` visits: 0 up to n-1 |
| Traversal.Descending | upload_firmware_byte_reverse.py:57 | defines the indices `range(n-1, -1, -1)` visits: n-1 down to 0 |
| Traversal.CommandAt | upload_firmware_byte_reverse.py:58-59 | defines the write of one iteration: byte `firmware_data[i]` at address `LOAD_ADDRESS + i` |
| Traversal.ForwardPlan | upload_firmware_byte.py:57-62 | the ascending run's writes, one per image byte |
| Traversal.ReversePlan | upload_firmware_byte_reverse.py:57-63 | the descending run's writes, one per image byte |
| Traversal.AscendingAt | upload_firmware_byte.py:57 | `enumerate` visits indices 0 .. n-1 in order, each once |
| Traversal.DescendingAt | upload_firmware_byte_reverse.py:57 | `range(n-1, -1, -1)` visits n-1 down to 0, each once |
| Traversal.DescendingIsReversedAscending | upload_firmware_byte_reverse.py:57 | the descending index order is the ascending one reversed |
| Traversal.ForwardPlanAt | upload_firmware_byte.py:57-62 | the k-th command of the ascending run writes `image[k]` to `base + k` |
| Traversal.ReversePlanAt | upload_firmware_byte_reverse.py:57-63 | the k-th command of the descending run writes `image[n-1-k]` to `base + n-1-k` |
| Traversal.ForwardLog | upload_firmware_byte.py:57-65 | defines the bytes the ascending loop writes: the encoded commands of the ascending writes, in order |
| Traversal.ReverseLog | upload_firmware_byte_reverse.py:57-66 | defines the bytes the descending loop writes: the encoded commands of the descending writes, in order |
| Traversal.ForwardLogStep | upload_firmware_byte.py:57-65 | one more ascending iteration appends exactly the command for its index to the log |
| Traversal.ReverseLogStep | upload_firmware_byte_reverse.py:57-66 | one more descending iteration appends exactly the command for its index to the log |
| Traversal.ReversePlanIsReversed | upload_firmware_byte_reverse.py:57-63 | the descending run's commands are the ascending run's, reversed |
| Traversal.ReverseLogIsReversedForwardLog | upload_firmware_byte_reverse.py:57-66 | the bytes the descending script writes are the ascending script's writes, reversed |
| Traversal.ForwardStrictlyIncreasing | upload_firmware_byte.py:57-58 | ascending addresses strictly increase |
| Traversal.ReverseStrictlyDecreasing | upload_firmware_byte_reverse.py:57-58 | descending addresses strictly decrease |
| Traversal.EndAddress | upload_firmware_byte.py:41 | defines the printed "End address": the load address plus the file size |
| Traversal.AddressesCovered | upload_firmware_byte.py:41 | either run writes exactly the addresses from the load address up to, not including, the printed end address |
| Traversal.SameWrites | upload_firmware_byte_reverse.py:57-63 | both runs send the same multiset and the same set of (address, byte) writes |
| Traversal.DecodeAllLog | upload_firmware_byte.py:62-65 | a log of encoded commands decodes back to its commands iff every address fits in 32 bits |
| Traversal.DecodeAllNone | upload_firmware_byte.py:62-65 | one line the strict reader refuses makes the whole log undecodable |
| Traversal.MemoryStep | upload_firmware_byte.py:65 | running one more write changes RAM at exactly its address |
| Traversal.ForwardMemoryPrefix | upload_firmware_byte.py:57-65 | after the first k ascending writes, RAM holds exactly image bytes 0 .. k-1 at their addresses |
| Traversal.ReverseMemoryPrefix | upload_firmware_byte_reverse.py:57-66 | after the first k descending writes, RAM holds exactly the last k image bytes at their addresses |
| Traversal.UploadLoadsImage | upload_firmware_byte.py:57-65 | if the image ends at or below 2^32, both logs decode in full, and either run leaves exactly the image at the load address |
| Traversal.OversizedImageUndecodable | upload_firmware_byte.py:41 | if a non-empty image runs past 2^32, both logs contain a command whose address needs more than 8 hex digits (9 at the scripts' load address), which the strict reader refuses |
| Traversal.LoadAddressRoom | upload_firmware_byte.py:11 | at load address `0x44000000`, any image of up to `0xbc000000` bytes decodes in full, in either order |
| Progress.SplitSeconds | upload_firmware_byte.py:83-85 | whole seconds split into hours, minutes and seconds, with minutes and seconds in 0..59 and nothing lost |
| Progress.SplitSecondsUnique | upload_firmware_byte.py:83-85 | that split is the only one with minutes and seconds in 0..59 |
| Progress.FloorDivBounds | upload_firmware_byte.py:97 | float `x // d` brackets `x` between consecutive multiples of `d` |
| Progress.FloorDivOfFloor | upload_firmware_byte.py:97-98 | float `x // d` equals integer division of the whole seconds in `x` |
| Progress.FloatModOfFloor | upload_firmware_byte.py:98-99 | float `x % d` lies in `[0, d)`, and its whole part is the integer remainder |
| Progress.FloorDiv | upload_firmware_byte.py:83-84 | defines Python's float `x // d`: the floor of `x / d` |
| Progress.FloatMod | upload_firmware_byte.py:84-85 | defines Python's float `x % d`: `x` minus `d` times the floor quotient, so it takes the divisor's sign |
| Progress.Trunc | upload_firmware_byte.py:83-85 | defines Python's `int()` of a float: truncation toward zero |
| Progress.SplitElapsed | upload_firmware_byte.py:83-86 | defines the elapsed HH:MM:SS as the script computes it: `int(x // 3600)`, `int((x % 3600) // 60)`, `int(x % 60)` on a float |
| Progress.SplitElapsedWhole | upload_firmware_byte_reverse.py:85-87 | the HH:MM:SS shown for a float duration is the split of its whole seconds, for any sign |
| Progress.EstimatedTime | upload_firmware_byte.py:44-48 | the printed estimate for `size` bytes at 5 ms each is the split of `size / 200` whole seconds |
| Progress.ForwardEmits | upload_firmware_byte.py:69 | defines the ascending emission test: the index is a multiple of 10000, ten seconds have passed since the last line, or it is the last index |
| Progress.ReverseEmits | upload_firmware_byte_reverse.py:71 | defines the descending emission test: the processed count is a multiple of 10000, ten seconds have passed since the last line, or the index is 0 |
| Progress.ForwardStatus | upload_firmware_byte.py:70-88 | defines the ascending status line: count `i + 1`, total, elapsed split, ETA "calculating..." at index 0 and otherwise for `file_size - i` bytes, address and byte |
| Progress.ReverseStatus | upload_firmware_byte_reverse.py:69-90 | defines the descending status line: count `file_size - i`, total, elapsed split, ETA for `file_size - processed` bytes ("calculating..." when nothing is processed), address and byte |
| Progress.ForwardNext | upload_firmware_byte.py:68-90 | defines one ascending iteration's effect on the reporter: when the test holds, one line is added and `last_update` moves to the clock reading; otherwise nothing changes |
| Progress.ReverseNext | upload_firmware_byte_reverse.py:70-92 | defines one descending iteration's effect on the reporter, in the same way |
| Progress.ForwardReport | upload_firmware_byte.py:54-90 | defines the reporter after the first k ascending iterations, starting from `last_update = start_time` and no lines |
| Progress.ReverseReport | upload_firmware_byte_reverse.py:53-92 | defines the reporter after the first k descending iterations, where iteration j handles index `file_size - 1 - j` |
| Progress.ForwardStatusLine | upload_firmware_byte.py:69-88 | a status line of the ascending script shows count `i + 1`, address `base + i` and `image[i]` |
| Progress.ReverseStatusLine | upload_firmware_byte_reverse.py:69-90 | a status line of the descending script shows count `n - i`, address `base + i` and `image[i]` |
| Progress.CountsAppend | upload_firmware_byte.py:88 | printing a line adds exactly its count to the counts shown |
| Progress.IncreasingAppend | upload_firmware_byte.py:88 | a line whose count exceeds all earlier ones keeps the counts increasing |
| Progress.ForwardLinesWellFormed | upload_firmware_byte.py:69-90 | after k ascending iterations, every line is well formed and for one of the first k bytes |
| Progress.ForwardLinesIncreasing | upload_firmware_byte.py:69-90 | after k ascending iterations, counts strictly increase from line to line |
| Progress.ForwardLinesCover | upload_firmware_byte.py:69 | after k ascending iterations, every index below k that is a multiple of 10000, or the last index, has had a line |
| Progress.ReverseLinesWellFormed | upload_firmware_byte_reverse.py:69-92 | after k descending iterations, every line is well formed and for one of the first k processed counts |
| Progress.ReverseLinesIncreasing | upload_firmware_byte_reverse.py:69-92 | after k descending iterations, counts strictly increase from line to line |
| Progress.ReverseLinesCover | upload_firmware_byte_reverse.py:71 | after k descending iterations, every processed count up to k that is a multiple of 10000, or the full size, has had a line |
| Progress.ForwardReportLines | upload_firmware_byte.py:67-90 | over a whole run: all lines well formed, counts increasing, a line at every index that is a multiple of 10000 and at the last byte, whatever the clock says |
| Progress.ForwardFirstAndLastLine | upload_firmware_byte.py:69-81 | the first line is for the first byte with ETA "calculating...", and the last line is for the last byte, with an ETA for one remaining byte for an image of two or more bytes |
| Progress.ReverseReportLines | upload_firmware_byte_reverse.py:68-92 | over a whole run: all lines well formed, the ETA never "calculating..." and never negative, counts increasing, a line at every multiple of 10000 and at the end |
| Progress.ReverseLastLine | upload_firmware_byte_reverse.py:71-83 | the last line is for index 0 at the load address, with every byte counted and an ETA for zero remaining bytes |
| Transport.SerialPort.Write | upload_firmware_byte.py:65 | a write appends its bytes to the port's log unless it is the failing write, which raises and leaves the log unchanged |
| Transport.RunOutcome | upload_firmware_byte.py:57-102 | a run aborts at the first failing write inside it, after sending the commands before it, and otherwise completes |
| ByteUpload.ReportProgress | upload_firmware_byte.py:67-90 | the progress step of the loop body equals one step of the reporter function |
| ByteUpload.SendImage | upload_firmware_byte.py:54-102 | the port receives exactly the ascending log, or its prefix up to the failing write, and the console the reporter's lines |
| ReverseByteUpload.ReportProgress | upload_firmware_byte_reverse.py:68-92 | the progress step of the loop body equals one step of the reporter function |
| ReverseByteUpload.SendImage | upload_firmware_byte_reverse.py:53-104 | the port receives exactly the descending log, or its prefix up to the failing write, and the console the reporter's lines |

## Left out

- Checking that the firmware file exists, and reading it: the image is a parameter.
- Opening the serial port and its `SerialException`: the model starts from an open port. Closing the port is not modelled either. On a failed write the exception leaves the port open.
- The banners, the `input()` prompt and the fixed text of the messages.
- The percentage, the `:>7` padding and the `:02d` zero padding of the status line: a `Status` holds the numbers the line shows, not the characters.
- `time.sleep(COMMAND_DELAY)` after each command. It affects only the clock readings, which are parameters.
- Float rounding: times are exact reals, and the HH:MM:SS split follows Python's float `//`, `%` and `int()` on them.
- Progress.ForwardStatus: the ETA holds the remaining count the script divides by the rate, not the ETA seconds. The rate `i / elapsed` and its `ZeroDivisionError` when two clock readings coincide are not modelled.
- Progress.ReverseStatus: as for the ascending line, the ETA holds `file_size - processed`, not the seconds. The division by `elapsed` is not modelled.
- ByteUpload.SendImage: a clock whose reading equals `start` at a line for an index above 0 makes `i / elapsed` raise `ZeroDivisionError`, which ends the run just after that iteration's write. The method completes the log for every clock instead.
- ReverseByteUpload.SendImage: a clock whose reading equals `start` at any line makes `processed / elapsed` raise `ZeroDivisionError`, which ends the run just after that iteration's write. The method completes the log for every clock instead.
- The average rate `file_size / duration` in the completion message is not modelled, nor its `ZeroDivisionError` for a zero duration.
- Transport.SerialPort.Write: a failing write is all-or-nothing. A partial write or a timeout that sends part of the command is not modelled.
- U-Boot's own parsing of the `mw.b` line is not modelled. It reads hex numbers of any length and either case into a machine word, and what it does with a 9-digit address is not modelled. `Commands.DecodeText` is only a strict fixed-width reader that inverts the encoder.
- The later `bootm` step and what the router does with the image: RAM is modelled only as the map of bytes written.
