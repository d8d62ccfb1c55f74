# SENT reader: edge decoder, nibble conversion and CRC check

This project models the core of `read_SENT.py`, a Raspberry Pi reader for
SAE J2716 SENT frames. The reader receives every edge of the SENT line from
the pigpio library as a callback `(gpio, level, tick)`.

- The callback `_cbf` first searches for a sync pulse: a falling edge whose
  period is more than 87 % high. It then stores the periods of the next
  eight falling edges as status, data1..data6 and crc. The eighth one
  publishes a ten-element frame `[syncPeriod, syncTick, status, d1..d6, crc]`.
- `tick()` calibrates the tick as `syncTick / 56`, rounded to two decimals.
- `ConvertData` turns a period into a nibble: the nearest whole number of
  ticks, less 12.
- `SENTData` joins the data nibbles as hexadecimal strings into two 12-bit
  values. In mode 0 it faults when the two differ. It also faults when
  `crcCheck` rejects the data bits padded with the CRC nibble.

The model is written in five modules:

- `EdgeDecoder` (`edge_decoder.dfy`) is the callback as a pure step
  function `Step` over a `Decoder` record, and `Run` over a sequence of
  edges. pigpio's wrap-around-safe `tickDiff` is a function parameter
  `diff`.
- `FrameValidator` (`frame_validator.dfy`) covers `tick`, `ConvertData` and
  `SENTData`. The floating-point arithmetic is replaced by exact rationals:
  - `tick()` is kept in hundredths (`TickCenti`);
  - `round` is Python 3's round-half-to-even on the exact quotient
    (`RoundHalfEven`).
- `Numerals` (`numerals.dfy`) covers the digit strings that `hex`,
  `int(_, 16)`, `bin` and `format(_, '04b')` produce and read. These are
  modelled as strings, because `SENTData` compares and concatenates strings.
- `Crc` (`crc.dfy`) contains `crcCheck` as a loop method (`CrcCheck`), a
  recursive reference (`Reduce`), and a corrected check (`CrcCheckFixed`).
  For the source's divisor "101" it also shows that the as-written verdict
  is a parity test on the message bits (`ParityDivisorVerdict`).
- `SentWaveform` (`waveform.dfy`) is the sensor side, used as an
  independent reference for the reader. It builds the edge train an ideal
  SENT transmitter drives for one frame: every pulse is low for 5 ticks and
  then high until the next falling edge. The sync pulse lasts 56 ticks and
  a nibble of value v lasts v + 12 ticks. The end-to-end lemma shows that
  the reader recovers the transmitted nibbles from that edge train.

## Model

| member | source | states |
|---|---|---|
| EdgeDecoder.Initial | read_SENT.py:42-82 | The constructor leaves the decoder searching, with nibble count 0, tick calibration `syncTick` 100 and an all-zero ten-element frame; the decoder invariant holds. |
| EdgeDecoder.SyncTestMatchesDivision | read_SENT.py:103 | For a positive period, the integer test `100*high > 87*period` is equivalent to the source's true-division test `100*high/period > 87`, strictly. |
| EdgeDecoder.OnRising | read_SENT.py:93-95 | A rising edge records its timestamp as the high tick and the low time since the last falling edge; nothing else changes. |
| EdgeDecoder.OnFallingSearching | read_SENT.py:96-110 | While searching, a falling edge updates period, low tick and high time. The decoder syncs exactly when the high share exceeds 87 %. On sync it records sync width, sync period and tick calibration (all equal to that pulse's values) and resets the nibble count. Otherwise only the timings change. In neither case are the rising timestamp, the low time, the slots or the frame touched. |
| EdgeDecoder.OnFallingInFrame | read_SENT.py:116-143 | While synced, a falling edge stores its period in the next nibble slot without looking at the duty ratio. Before the eighth nibble the frame is untouched. The eighth nibble publishes `[syncPeriod, syncTick]` plus the eight periods and returns the decoder to searching. The rising timestamp, the low time and the sync fields are never touched. |
| EdgeDecoder.Step | read_SENT.py:88-143 | One callback keeps the invariant: nibble count below 8, zero while searching, positive calibration. The frame changes only on the falling edge that completes the eighth nibble. A rising edge changes only the high tick and low time. Any other level leaves the decoder unchanged. |
| EdgeDecoder.Run | read_SENT.py:88-143 | The callback applied edge by edge in arrival order. A run without a falling edge changes nothing but the last rising timestamp and the low time. |
| EdgeDecoder.RunPreservesInv | read_SENT.py:88-143 | After any sequence of edges the invariant still holds. |
| EdgeDecoder.RunAppend | read_SENT.py:88-143 | Running a sequence and then one more edge is the same as running the extended sequence. |
| EdgeDecoder.RunConcat | read_SENT.py:88-143 | Running one sequence of edges and then another is the same as running their concatenation. |
| EdgeDecoder.InFrameRun | read_SENT.py:116-137 | While synced and short of eight nibbles, the periods of a run's falling edges go, in order, into the next slots. Earlier slots, the frame and the calibration are kept. A sync-shaped pulse inside the frame is not re-detected. |
| EdgeDecoder.FrameAssembly | read_SENT.py:138-143 | From the edge after a sync pulse, a run whose eighth falling edge comes last publishes `[syncPeriod, syncTick]` followed by the eight falling-to-falling periods, keeps the calibration, and leaves the decoder searching. |
| SentWaveform.PulsesPeriods | read_SENT.py:116-137 | Measured with a non-wrapping tick difference, the falling-to-falling periods of a transmitted nibble train are the nibble lengths `(v+12)*u`, in order. |
| SentWaveform.SyncPulseFound | read_SENT.py:96-110 | From the searching state, a transmitted 56-tick sync pulse (5 ticks low) is recognised. The decoder is then synced, calibrated to `56*u`, and waiting for the first nibble. |
| SentWaveform.PulsesFrame | read_SENT.py:116-143 | After a sync pulse, eight transmitted nibble pulses make the decoder publish `[syncPeriod, syncTick]` followed by the eight nibble lengths, and search again. |
| SentWaveform.TransmittedFrameRun | read_SENT.py:88-143 | From the searching state, the edge train of a whole frame publishes `[56*u, 56*u]` followed by the eight nibble lengths, with the calibration at `56*u`. |
| SentWaveform.PublishedFrameDecodes | read_SENT.py:152-191 | A published frame of exact nibble lengths under a `56*u` sync period reads back as those nibbles, so `SENTData` equals its value on the nibbles themselves. |
| SentWaveform.TransmittedFrameDecodes | read_SENT.py:88-191 | End to end: for every 8 in-range nibbles, tick length and mode, the reader's decoded status, data, CRC and fault after the transmitted frame are those of the transmitted nibbles. |
| FrameValidator.RoundHalfEven | read_SENT.py:149 | `round(num/den)`: the result is within half a denominator of the quotient, and on an exact tie it is even. |
| FrameValidator.TickCenti | read_SENT.py:193-194 | `tick()` in hundredths is within half a hundredth of `syncTick/56` and is positive for a positive sync period. |
| FrameValidator.TickOfWholeSync | read_SENT.py:193-194 | A sync period of `56*u` calibrates the tick to exactly `u`. |
| FrameValidator.ConvertData | read_SENT.py:145-150 | A zero period gives nibble 0. Any other period gives the nearest whole number of ticks less 12, so the result is at least -12. |
| FrameValidator.NibbleRoundTrip | read_SENT.py:145-150 | With a tick of `u`, a period of `(v+12)*u` decodes back to `v` for every nibble `v` below 16. |
| FrameValidator.NibbleJitterTolerance | read_SENT.py:149 | A period less than half a tick away from `(v+12)` ticks still decodes to `v`. |
| FrameValidator.Nibbles | read_SENT.py:159-160 | The conversion loop: the eight nibbles are `ConvertData` of frame positions 2 to 9, in order, under one calibration. |
| FrameValidator.CrcPad | read_SENT.py:182 | The CRC nibble in binary, zero-padded to four digits, has the nibble's value. It is exactly four digits for a 4-bit nibble and is long enough for the CRC division. |
| FrameValidator.CrcInput | read_SENT.py:179 | `InputBitString` has the value of the joined data hex string. For in-range nibbles that value is `4096*data1 + data2`. |
| FrameValidator.Assemble | read_SENT.py:156-185 | The fault flag starts clear and is set by the mode-0 string mismatch or by a failed CRC verdict. Status and CRC pass through. For in-range nibbles the data values are the 12-bit compositions, and the string mismatch is exactly a value mismatch. |
| FrameValidator.FieldsOfNibbles | read_SENT.py:164-169 | Joining three in-range nibbles' hex digits gives the string whose value is `256*a + 16*b + c`. Two such strings are equal exactly when their values are. |
| FrameValidator.SentDataAsWrittenOf | read_SENT.py:152-191 | `SENTData` with `crcCheck` as written: status and CRC pass through; in-range data are the two 12-bit values; the fault is the mode-0 mismatch or the as-written CRC rejection. |
| FrameValidator.SentDataOf | read_SENT.py:152-191 | `SENTData` with the corrected CRC check: for in-range nibbles, the fault is set exactly when mode 0 sees different data values or the CRC nibble is not the remainder of the data bits. |
| FrameValidator.SentData | read_SENT.py:157-161 | `SENTData()` on the decoder with the corrected CRC check, not the source's: status and CRC are `ConvertData` of frame positions 2 and 9, under the decoder's current calibration. |
| FrameValidator.SentDataAsWritten | read_SENT.py:152-191 | `SENTData()` on the decoder as the program runs it, with `crcCheck` as written: status and CRC are `ConvertData` of frame positions 2 and 9, under the decoder's current calibration. |
| FrameValidator.AsWrittenIgnoresCrcNibble | read_SENT.py:176-185 | As written, two frames that differ only in their CRC nibble get the same fault flag, so the CRC nibble is never checked. |
| FrameValidator.ZeroDataFrame | read_SENT.py:176-185 | All-zero data: as written, no fault for any CRC nibble 0..15; with the corrected check, a fault exactly when the CRC nibble is not 0. |
| FrameValidator.FixedCheckPassesOnlyMultiplesOfFour | read_SENT.py:182-185 | With the corrected check and the source's polynomial, a frame in range passes only if its CRC nibble is 0, 4, 8 or 12. |
| FrameValidator.AsWrittenCrcIsParity | read_SENT.py:179-185 | As written, the CRC verdict on in-range nibbles is a parity test on the 24-bit data word `4096*data1 + data2`: it passes exactly when the word has an even number of one bits at even positions and at odd positions, whatever the CRC nibble. |
| FrameValidator.AsWrittenModeZeroFaultIsMismatch | read_SENT.py:171-185 | As written, in mode 0 the fault flag is set exactly when the two data values differ: equal fields make a word that the as-written CRC check always passes. |
| FrameValidator.OnlyOneCrcNibbleAccepted | read_SENT.py:176-185 | With the corrected check, once a frame passes, changing only its CRC nibble to any other 4-bit value raises the fault. |
| FrameValidator.FrameOfNibbles | read_SENT.py:152-160 | A frame whose periods are exact `(v+12)`-tick lengths under a `56*u` sync period decodes to exactly those nibbles, for either mode. |
| FrameValidator.InitialDecodesClean | read_SENT.py:79 | Before any frame, the all-zero frame decodes to status 0, data 0 and 0, CRC 0 and no fault, both as written and corrected. |
| Numerals.ParseHex | read_SENT.py:179 | `int(s, 16)` on a hex digit string: a string of k digits has a value below 16^k. |
| Numerals.HexDigits | read_SENT.py:149 | `hex(n)` without its prefix: lower-case digits with no leading zero, one digit exactly for values below 16, and "0" only for 0. |
| Numerals.ParseHexOfHexDigits | read_SENT.py:188-189 | `int(hex(n), 16) == n`. |
| Numerals.ParseHexAppend | read_SENT.py:179 | Parsing a concatenation of hex strings shifts the left part by one hex digit per right-hand character. |
| Numerals.ThreeNibbleDigits | read_SENT.py:166-169 | Three one-digit strings joined give the three-character string of the nibbles, with value `256*a + 16*b + c`. |
| Numerals.Bin | read_SENT.py:179 | `bin(n)` without its prefix starts with '1' exactly when `n > 0`, and is "0" for 0. |
| Numerals.ParseBinOfBin | read_SENT.py:179 | `int(bin(n), 2) == n`. |
| Numerals.ParseBinLowBits | read_SENT.py:182 | The value of a binary string modulo 4 is given by its last two digits. |
| Numerals.Format04b | read_SENT.py:182 | `format(n, '04b')` is four digits for a nibble, never shorter than `bin(n)`, and keeps the value. |
| Crc.StripLeadingZeros | read_SENT.py:224 | `lstrip('0')` returns a suffix preceded only by zeros; it starts with '1' and is non-empty exactly when the input contains a '1'. |
| Crc.FirstOne | read_SENT.py:229 | `InputPaddedArray.index('1')`: every earlier position holds '0', and the position holds '1' unless it is the length (no 1 at all). |
| Crc.CrcAccepts | read_SENT.py:233-234 | The as-written verdict: the tail of the reduced array equals the pad. `CrcCheck` computes exactly this verdict, and `CrcCheckIgnoresPad` proves it does not depend on the pad. |
| Crc.Reduce | read_SENT.py:228-231 | Repeated XOR of the divisor at the leftmost 1 keeps the length and clears every message position. |
| Crc.XorDivisorAt | read_SENT.py:230-231 | The inner loop XORs the divisor in at the shift position and leaves all other positions unchanged. |
| Crc.CrcCheck | read_SENT.py:214-237 | The loop terminates, and `crcCheck` returns true exactly when the reduced tail reproduces the pad. |
| Crc.ReduceFlipsDependOnlyOnMessage | read_SENT.py:227-231 | For two arrays that share their message part, whether a tail position is flipped by the division is the same in both. |
| Crc.CrcCheckIgnoresPad | read_SENT.py:233-234 | As written, the verdict is the same for every pad of a given width. |
| Crc.ZeroMessageAcceptsAnyPad | read_SENT.py:228-234 | A message without a 1 skips the division loop, so the tail equals the pad and the check passes. |
| Crc.ReduceKeepsParity | read_SENT.py:228-231 | With the divisor "101", each XOR step flips two bits two positions apart, so the division keeps the parity of the ones in each position class. |
| Crc.ParityDivisorVerdict | read_SENT.py:224-234 | With the divisor "101" (x^2+1), `crcCheck` as written accepts a message exactly when it has an even number of ones in each position class, for every pad of width at least 2. |
| Crc.CrcCheckFixed | read_SENT.py:233-234 | Corrected verdict: the reduced tail is all zeros, which holds exactly when the pad equals the message's remainder. |
| Crc.ReduceKeepsFarTail | read_SENT.py:228-231 | The division XORs the divisor in only at message positions, so the last `len(divisor) - 1` pad positions come out unchanged. |
| Crc.CrcCheckFixedFarBitsZero | read_SENT.py:224-234 | A pad accepted by the corrected check is zero in every position the divisor cannot reach. |
| Crc.CrcCheckFixedDetectsBitFlip | read_SENT.py:233-234 | Under the corrected verdict, flipping any single bit of an accepted pad is rejected. |

## Left out

- The pigpio connection, GPIO mode setup, the callback registration and `cancel` (read_SENT.py:84-86, 211-212) are I/O. The `__main__` sampling loop (239-269) is a demo driver. The `print` calls in `crcCheck` (221-223) are diagnostics.
- `pigpio.tickDiff` is foreign code. It is the parameter `diff`, so its 32-bit wrap-around is whatever the caller supplies.
- The `SentFrame` dictionary and `frameComplete` flag (56-64, 81) are never read. The accessors `crcNibble`, `statusNibble`, `syncPulse`, `syncNibble` and `syncFrame` (196-209) return decoder fields that the model exposes directly.
- SentWaveform.TransmittedFrameDecodes: covers only an ideal transmitter, with exact whole-tick timing, no 32-bit timestamp wrap-around (`Subtracts`) and a low time of 5 ticks. Jitter of a single nibble is covered separately by `NibbleJitterTolerance`.
- FrameValidator.SentData: is evaluated on one snapshot of the decoder. In the source, `_cbf` runs on pigpio's callback thread while the main loop calls `SENTData()` (read_SENT.py:263). `SENTData` copies the frame once (157), but every `ConvertData` call re-reads `syncTick` through `tick()` (149, 159-160, 194). A sync pulse arriving during one call can therefore decode one frame's nibbles under two calibrations. These concurrent reads are not modelled.
- Crc.CrcCheckFixed: corrects only the compare target of `crcCheck`, and keeps the source's polynomial "0101", which strips to the 3-digit divisor "101". That divisor never reaches the last two bits of the 4-bit pad (`ReduceKeepsFarTail`), so the corrected check accepts only CRC nibbles 0, 4, 8 and 12 (`CrcCheckFixedFarBitsZero`, `FixedCheckPassesOnlyMultiplesOfFour`). `SentDataOf`, `SentData` and the end-to-end lemma therefore fault on every other CRC nibble. The CRC-4 of SAE J2716 (generator x^4+x^3+x^2+1, seed 0101) is not modelled.
- Level 2 (a pigpio watchdog timeout) is ignored by the callback. `Step` leaves the decoder unchanged for it and for any other level.
- EdgeDecoder.Step: requires a positive period for a falling edge seen while searching (`StepDefined`). The source divides by that period and raises `ZeroDivisionError` when it is 0.
- EdgeDecoder.Initial: `syncPeriod` does not exist in the source until the first sync pulse. It is 0 here. Calling `SENTData` before any frame does not read it, because the initial frame is the literal all-zero list.
- FrameValidator.ConvertData: exact rational arithmetic replaces the double-precision `tickdata / tick()` quotient and `round(_, 2)`. The results can differ only where the double rounding of the two-decimal tick moves a quotient across a half-tick tie.
- FrameValidator.SentDataOf and FrameValidator.SentDataAsWrittenOf: both require the data and CRC nibbles to be non-negative (`Formattable`). A negative data nibble makes `hex` write "-0x…", and the source then fails to parse the joined string. A negative CRC nibble would still be formatted by the source as "-1100"-style text and run through `crcCheck`; neither model covers it.
- FrameValidator.SentDataOf, FrameValidator.SentDataAsWrittenOf, FrameValidator.SentData and FrameValidator.SentDataAsWritten: all return the `Decoded` record, whose status and crc are integers, not the hexadecimal strings the source returns.
- Crc.CrcCheck: requires the stripped polynomial to start with a 1 and to fit within pad length + 1 (`Checkable`). For the polynomial "0101" and a four-digit pad this always holds. The source would not need it for a message without any 1.
- The sync test and `round` follow Python 3. Under Python 2 the test `100*high/period > 87` would floor the quotient, becoming `100*high >= 88*period`, and `round` would round halves away from zero.

Where the code and the SENT description disagree, the model follows the code:

- the sync threshold is a strict 87 %;
- while synced there is no sync re-detection, so a sync-shaped pulse in the middle of a frame is stored as a nibble, and the frame is only ever published whole;
- `SENTData` converts nibbles with the current calibration, not with the `syncTick` stored in the frame;
- a zero period while searching raises `ZeroDivisionError`; inside a frame it is stored and decoded as nibble 0; neither is reported as a timing fault;
- nibble values outside 0..15 are not flagged.

The CRC polynomial "0101" in the source is the SAE J2716 seed value, not its generator x^4+x^3+x^2+1. The model keeps the source's "0101" as the divisor in both the as-written and the corrected check.

## Findings

| source | as written | input that shows it | evidently intended | confidence | as-written member | corrected member |
|---|---|---|---|---|---|---|
| read_SENT.py:233-234 | `crcCheck` accepts when the reduced tail equals `PadValue`. The tail is always `PadValue` XOR a value fixed by the message bits, so the verdict never depends on the CRC nibble. | All six data nibbles 0: the message is "0", the division loop never runs, and every CRC nibble 0..15 is accepted. More generally the as-written verdict is a parity test on the data word (`AsWrittenCrcIsParity`), which every mode-0 frame with equal data fields passes (`AsWrittenModeZeroFaultIsMismatch`). | Accept only the CRC nibble that equals the division remainder of the data bits (the reduced tail is all zeros), so a corrupted CRC nibble raises the fault. The correction changes only the compare target. With the source's divisor "101" it accepts only the nibbles 0, 4, 8 and 12, because the division never reaches the last two pad bits. The SAE J2716 CRC-4 is not modelled. | high for the defect; not executed | Crc.CrcCheckIgnoresPad | Crc.CrcCheckFixed |
