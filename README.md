# JK-BMS RS-485 telemetry receiver, modelled in Dafny

The firmware is an ESP32 application. It reads the RS-485 link to a JK battery
management system. From each read it takes the first header its scan accepts
and decodes the 45 two-byte pairs after that header into the global
`struct jkbms_t`. The scan can step over a header (see "## Findings"), and the
pairs it decodes need not have been received. It also
holds two 21-byte command templates. Each template ends in a 16-bit additive
checksum of its first 19 bytes. The project has six modules:

- **Bytes**: the C integer widths of the model: `uint8_t`, `uint16_t` and `int16_t`.
- **Checksum**: `chksum` modelled as a loop over an array, and its result proved to be
  the byte sum modulo 2^16. It also holds the templates `active_cmd` and `frame2`,
  with their trailers proved to be that checksum.
- **Telemetry**: the specification of one receive cycle, written as functions of the
  received bytes. It has these pieces:
  - the six header comparisons;
  - the header scan as written, with its data-dependent skip;
  - a corrected one-byte-resync scan;
  - the positional decode;
  - the outcome of one read.
- **Receiver**: the record `jkbms` as a class whose fields are updated in place. This
  part has the imperative receive step. Its `while` loop probes the header with the
  post-incrementing `&&` chain and stops at the first accepted header. It then walks
  the 45 pairs, and the 24 cells are filled by a `for` loop. The step is proved
  against the Telemetry functions.
- **FrameBuilder**: a reference encoder. It is the inverse of the decode and exists
  only to state a round trip. **Findings**: two defects of the receive loop, each
  shown on concrete input.

Numeric fields take one byte: the first byte of their pair. A cast such as
`(uint16_t) data[index]` widens a single byte and never reads two. Flag and
status fields take the second byte of their pair. Voltage and current are kept
as the integer numerators of the source's float divisions, in hundredths of a
volt and tenths of an amp.

The source never checks that a whole frame was received after an accepted
header. It goes on to decode 90 more bytes. These may be bytes left over from an
earlier read, never-written bytes of the freshly allocated buffer, or bytes past
the end of the 1024-byte buffer. The model gives this case an
explicit `Truncated` outcome: the record is left unchanged and the scan stops,
as the source's `break` stops it. See "## Findings".

## Model

| member | source | states |
|---|---|---|
| Bytes.BigEndian16 | main/hello_world_main.c:69 | The two trailing template bytes, read high byte first, give a 16-bit value whose high and low bytes are exactly those two bytes. |
| Checksum.SumConcat | main/hello_world_main.c:51-53 | The accumulated byte sum is additive over concatenation of byte ranges. |
| Checksum.SumBound | main/hello_world_main.c:51-53 | The sum of n bytes is at most 255·n. |
| Checksum.ShortRangeSumFits | main/hello_world_main.c:49-55 | For ranges of at most 257 bytes the sum stays below 2^16, so the truncating checksum equals the plain sum there. |
| Checksum.SumPrefixStep | main/hello_world_main.c:51-53 | Extending the summed range by one byte adds exactly that byte, as one loop step does. |
| Checksum.Chksum | main/hello_world_main.c:49-55 | The returned checksum is the sum of the first `len` bytes modulo 2^16, because the uint16_t accumulator truncates at every step. It is 0 for `len == 0`. |
| Checksum.CoveredSum | main/hello_world_main.c:57-85 | The checksum-covered prefix of a 21-byte template sums to its first 19 bytes added one by one. |
| Checksum.ActiveCmdChecksum | main/hello_world_main.c:57-70 | `active_cmd` is 21 bytes, its first 19 bytes sum to 0x0124, and its last two bytes read big-endian equal that checksum. |
| Checksum.ReadAllCmdChecksum | main/hello_world_main.c:72-85 | `frame2` is 21 bytes, its first 19 bytes sum to 0x0129, and its last two bytes read big-endian equal that checksum. |
| Telemetry.Received | main/hello_world_main.c:132-144 | The bytes one read delivers are the first `len` bytes of the buffer. There are none when `len` is 0 or the read failed with a negative length. |
| Telemetry.HeaderAt | main/hello_world_main.c:145-148 | The header condition at offset `s`: byte s differs from 0xA5, byte s+1 is 0x5A, byte s+2 is at least 0x5D, byte s+3 is 0x82, bytes s+4 and s+5 are 0x10 and 0x00. |
| Telemetry.Test | main/hello_world_main.c:145-148 | The j-th comparison of the `&&` chain at offset `s`, for j from 0 to 5, in the order the chain evaluates them. |
| Telemetry.HeaderAtIsAllTests | main/hello_world_main.c:145-148 | A header is present exactly when all six comparisons of the `&&` chain hold. |
| Telemetry.Evaluated | main/hello_world_main.c:145-148 | One probe evaluates 1 to 6 comparisons. All but the last evaluated comparison pass, and the last one fails unless all six were evaluated. An accepted header always evaluates all six. |
| Telemetry.ScanFrom | main/hello_world_main.c:144-148 | The as-written scan reports a header only at or after its starting index, fully inside the received bytes, and where all six conditions hold. |
| Telemetry.AcceptedAtProbe | main/hello_world_main.c:145-148 | A probe at `s` accepts if and only if `data[s] != 0xA5`, `data[s+1] == 0x5A`, `data[s+2] >= 0x5D`, `data[s+3] == 0x82`, `data[s+4] == 0x10` and `data[s+5] == 0x00`, with all six bytes received. |
| Telemetry.MismatchAdvances | main/hello_world_main.c:144-148 | A failed probe moves the index forward by at least 1 and at most 6, and the scan continues from there, so it terminates. |
| Telemetry.ShortReadFindsNothing | main/hello_world_main.c:144 | With fewer than six received bytes the loop body never runs and no frame is found. |
| Telemetry.ScanResync | main/hello_world_main.c:144-148 | The corrected scan, which moves on by one byte after a mismatch. It reports the first header at or after its start, and it reports none only when no header exists there. |
| Telemetry.ResyncFindsFirstHeader | main/hello_world_main.c:144-148 | If a header starts at `s` and none starts between `i` and `s`, the corrected scan from `i` finds exactly `s`. |
| Telemetry.ResyncNoLaterThanAsWritten | main/hello_world_main.c:144-148 | Whenever the as-written scan accepts a header, the corrected scan also finds one, at the same offset or earlier. |
| Telemetry.DecodeAt | main/hello_world_main.c:150-216 | The decoded record has 24 cells and 9 alarms. Every numeric field, including every cell, lies in 0..255 because it is one byte. |
| Telemetry.DecodeAtLayout | main/hello_world_main.c:150-216 | The decode of the frame at `s` reads these offsets: voltage s+6, current s+8, level s+12, maximum difference s+14, MOS temperature s+16, battery temperature s+18, system alarm s+21, average voltage s+22, switches s+25/27/29, cell i at s+30+2i and alarm j at s+79+2j. The reserved pair is skipped. |
| Telemetry.LayoutDeterminesDecode | main/hello_world_main.c:150-216 | Conversely, any record whose fields hold the bytes at those offsets is the decode of the frame. |
| Telemetry.DecodeReadsOnlyUsedBytes | main/hello_world_main.c:150-216 | Two frames, at any two offsets, that agree on the bytes the decode reads decode to the same record. The reserved pair and the unused half of every pair do not matter. |
| Telemetry.ReservedPairIgnored | main/hello_world_main.c:156-157 | Overwriting both bytes of the reserved pair leaves the decode unchanged, since the walk skips that pair. |
| Telemetry.DecodeReceivedFrame | main/hello_world_main.c:144-216 | A frame lying wholly inside the received bytes decodes the same from the received bytes as from the whole buffer. |
| Telemetry.Cycle | main/hello_world_main.c:141-224 | One read has one of three outcomes. It decodes a frame only when the first accepted header is followed by all 96 bytes of its frame. It is `Truncated` when the header was received but the frame was not. It is `NoFrame` exactly when the scan finds no header. |
| FrameBuilder.EncodeFrame | main/hello_world_main.c:145-216 | The reference encoding of a record is 96 bytes and starts with a header the scan accepts. |
| FrameBuilder.DecodeEncode | main/hello_world_main.c:150-216 | Decoding the reference encoding of any one-byte-per-field record gives back that record. |
| FrameBuilder.EncodedFrameIsDecoded | main/hello_world_main.c:141-224 | A read holding exactly one encoded frame is decoded at offset 0 into the record it carries. |
| FrameBuilder.ResyncFindsFrameAfterNoise | main/hello_world_main.c:144-216 | After noise in which no header starts, the corrected scan finds the frame right after the noise, and the frame decodes to its record. |
| FrameBuilder.SingleAlarm | main/hello_world_main.c:191-216 | Setting only the second byte of alarm pair j raises alarm j alone, with that byte's value. Every other field decodes as zero. |
| Findings.SkipMissesFrame | main/hello_world_main.c:145-148 | On the 7-byte read `00 00 5A 5D 82 10 00` a header sits at offset 1. The as-written scan finds nothing and the cycle has no frame, while the corrected scan finds offset 1. |
| Findings.AsWrittenSkipsFrameAfterOneNoiseByte | main/hello_world_main.c:145-148 | A complete frame preceded by one zero byte is not accepted at its offset 1 by the as-written scan. The corrected scan finds it there, and it decodes to its record. |
| Findings.ScanStepsOverRejectedBytes | main/hello_world_main.c:144-145 | A run of 0xA5 bytes is stepped over one byte per probe. |
| Findings.HeaderOnlyReadIsAccepted | main/hello_world_main.c:144-150 | A read of only the six header bytes is accepted at offset 0 even though its 90-byte payload was never received. The model reports it as `Truncated`. |
| Findings.HeaderAtBufferEndOverruns | main/hello_world_main.c:126-150 | A full 1024-byte read of 0xA5 bytes ending in a header is accepted at offset 1018. Its frame would end at 1114, beyond the 1024-byte buffer, and the model reports it as `Truncated`. |
| Receiver.Jkbms.Snapshot | main/hello_world_main.c:25-47 | The record's value as a `BmsState`, with 24 cells and 9 alarms. |
| Receiver.Jkbms.AlarmOrder | main/hello_world_main.c:38-46 | The snapshot's alarm list holds the nine alarm fields at their named positions, in the order of `struct jkbms_t` and of the pairs on the wire. |
| Receiver.Jkbms.constructor | main/hello_world_main.c:87 | The static record starts as all zeros. |
| Receiver.Jkbms.DecodeReadings | main/hello_world_main.c:150-169 | Pairs 0 to 6 set voltage, current, level, maximum cell difference and both temperatures to the first byte of their pairs, skip the reserved pair, and advance the index by 14. |
| Receiver.Jkbms.DecodeStatus | main/hello_world_main.c:171-184 | Pairs 7 to 11 set the system alarm and the three switches to the second byte of their pairs and the average voltage to the first byte, and advance the index by 10. |
| Receiver.Jkbms.DecodeCells | main/hello_world_main.c:186-189 | The `for` loop sets every cell k to the first byte of pair 12+k and advances the index by 48. |
| Receiver.Jkbms.DecodeAlarms | main/hello_world_main.c:191-216 | Pairs 36 to 44 set the nine alarms to the second byte of their pairs and advance the index by 18. |
| Receiver.Jkbms.Decode | main/hello_world_main.c:150-216 | The walk over the 45 pairs leaves the record equal to the frame's decode and the index 90 past the header. The cell array is updated in place, not replaced. |
| Receiver.Jkbms.ProbeHeader | main/hello_world_main.c:145-148 | One evaluation of the `&&` chain reads only received bytes, each read checked to lie below `len`. It accepts exactly when a header is at the probed index, and it moves the index by the number of comparisons evaluated. |
| Receiver.Jkbms.ScanAndDecode | main/hello_world_main.c:141-224 | One receive step gives the outcome `Cycle` prescribes for the received bytes. When it decodes, the record is that frame's decode and the index ends 96 past the frame start. Otherwise every field keeps its previous value. |

## Left out

- UART configuration, pin and mode setup, `uart_read_bytes`, the `malloc` and the FreeRTOS task (main/hello_world_main.c:90-132, 226-231) are platform I/O. A read is a parameter: the buffer and the length it returned.
- The outer `while (1)` repeats the receive step forever. The model is one pass of its body; the record carries over between passes as the object's state.
- The logging and `printf` hex dump (main/hello_world_main.c:133-140, 219-220) are output only.
- The float divisions by 100 and 10 for voltage and current are not modelled. The fields hold the integer numerators.
- The source verifies no checksum of received frames, combines no 16-bit fields and gives current no sign. The model claims none of these.
- The command templates are never sent by the source. They appear only as constants for the checksum lemmas.
- `data_len` is assigned in the header condition and never read. `ProbeHeader` keeps it as a local.
- Receiver.Jkbms.ScanAndDecode: when an accepted header is not followed by a whole frame, the source decodes anyway, reading stale or out-of-allocation bytes. The model reports `Truncated` and leaves the record unchanged; see the second finding.
- Receiver.Jkbms.Decode: the walk reads the buffer as a value; it does not change during the decode. Its index is an unbounded natural, which is exact because it stays within the 1024-byte buffer.

## Findings

| source | as written | input that shows it | evidently intended | confidence | as-written member | corrected member |
|---|---|---|---|---|---|---|
| main/hello_world_main.c:144-148 | A failed probe advances `index` by the number of comparisons it evaluated, 1 to 6, so up to 5 candidate offsets are never probed | the read `00 00 5A 5D 82 10 00`, or one noise byte before a frame: the header at offset 1 is skipped | resynchronise one byte after a mismatch and accept the first header in the read | not executed | Findings.SkipMissesFrame | Telemetry.ScanResync |
| main/hello_world_main.c:144-216 | After an accepted header the decode reads 90 more bytes without checking `len`, so it reads bytes never received, or beyond the 1024-byte buffer | a read of just `00 5A 5D 82 10 00`; a 1024-byte read whose last six bytes are that header | decode only a frame whose 96 bytes were all received | not executed | Findings.HeaderAtBufferEndOverruns | Telemetry.Cycle |

For the first row, `Telemetry.ResyncFindsFirstHeader` and
`FrameBuilder.ResyncFindsFrameAfterNoise` prove the intended property of the
corrected scan. The receiver keeps the as-written scan, because that is what the
firmware does. For the second row, the receiver uses the corrected cycle, with
its `Truncated` outcome.
