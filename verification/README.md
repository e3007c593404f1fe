# Multiplexed 4-digit 7-segment display: a Dafny model

This project models the firmware in `main.cpp` that drives a 4-digit
7-segment display through two cascaded shift registers. The display shows
either the elapsed time as MM.SS or a potentiometer voltage as V.CC. Button
S3 selects the mode while held. Button S1 resets the timer on a press.

The model is a set of pure functions over one immutable state record:

- `SegmentTables`: the two constant tables `SEGMENT_MAP` and `SEGMENT_SELECT`.
  It also reads a segment byte back as the glyph a viewer sees (`ReadGlyph`).
  Segment bytes are active-low; bit 7 is the decimal point.
- `TimeSource`: the `total_seconds` counter, its `tick()` and wrap at 6000,
  and the minutes/seconds split.
- `VoltageSource`: the saturation of a centivolt reading at 999, and its
  split into volts and hundredths.
- `DisplayRenderer`: the `if (updateDisplay)` block. It maps mode, cursor,
  counter and reading to the pair (segment byte, select byte). `Expected`
  states independently what each position should read, using the decimal
  digits of the displayed quantity.
- `Bytes` and `ShiftRegister`: `outputToDisplay` as a trace of latch and
  data-bit events, plus a decoder that reassembles the two bytes.
- `InputHandler`: falling-edge detection on S1 and level sampling of S3.
- `Multiplexer`: the state record, the two ticker callbacks (`SecondTick`,
  `RefreshTick`) and one pass of the main loop (`LoopPass`). It also defines
  runs of arbitrary interleavings of these events between loop passes.

Bytes are `bv8`, so `& 0x7F` and `(b >> i) & 0x1` are written as in the
source. The source's integer division and remainder are applied only to
non-negative values, where C and Dafny agree. The one place a negative
operand is conceivable is the cursor advance `(currDigit + 1) % 4`, and there
C's truncating remainder is modelled explicitly (`CRem`).

Points where the model pins down what the code actually does:

- The comment at main.cpp:16 calls the select bytes active-low. The bytes
  `0xF1, 0xF2, 0xF4, 0xF8` mark position p with a single SET bit p in the
  low nibble, and their high nibble is all ones (`SelectOneHot`). The model
  follows the bytes.
- No digit is leading-zero suppressed. The minutes' tens digit always shows
  `SEGMENT_MAP[minutes / 10]`, and only voltage position 3 is blank.
- The wrap at 6000 seconds is exactly 100 minutes, as the comment at
  main.cpp:27 says. The largest counter value 5999 reads 99:59, and minutes
  never exceed 99 (`TimeSource.Minutes`, `TimeSource.LastSecond`).

## Model

| member | source | states |
|---|---|---|
| SegmentTables.WithPoint | main.cpp:97 | `& 0x7F` clears bit 7 (the decimal point) and leaves bits 0-6 unchanged |
| SegmentTables.SegmentMapDistinct | main.cpp:12-15 | the ten digit patterns are pairwise distinct, none is blank, and each has bit 7 set (point off) |
| SegmentTables.ReadDigit | main.cpp:12-15 | each digit pattern reads back as its own numeral, with the point off, and with the point on once bit 7 is cleared |
| SegmentTables.ReadBlank | main.cpp:113 | 0xFF reads back as a dark digit |
| SegmentTables.SelectOneHot | main.cpp:17 | select byte p has exactly bit p set among bits 0-3, and its high nibble is all ones |
| SegmentTables.DigitOf | main.cpp:12-15 | inverse lookup in the digit table: a found index is below 10 and maps to the shape; no result means the shape is not in the table |
| TimeSource.Tick | main.cpp:25-30 | the result is 0 or s+1 and below 6000; from 0 <= s < 6000 it is (s+1) mod 6000, so the range invariant is kept |
| TimeSource.TicksModular | main.cpp:25-30 | n ticks from a valid counter give (s+n) mod 6000 |
| TimeSource.TicksFromZero | main.cpp:25-30 | n < 6000 ticks from 0 read n/60 minutes and n%60 seconds; 3661 ticks read 61:01, with no wrap of minutes at 60 |
| TimeSource.LastSecond | main.cpp:27-28 | 5999 reads 99:59 and the next tick wraps it to 0 |
| TimeSource.Minutes | main.cpp:93 | for a valid counter, minutes lie in 0..99 and m*60 <= s < m*60+60, so both minute digits index inside SEGMENT_MAP |
| TimeSource.Seconds | main.cpp:92 | seconds lie in 0..59 and minutes*60 + seconds equals the counter |
| VoltageSource.Clamp | main.cpp:105 | for c >= 0 the result is the smaller of c and 999: at most both, and equal to one of them |
| VoltageSource.Split | main.cpp:106-107 | intPart in 0..9, fracPart in 0..99, and intPart*100 + fracPart equals the clamped reading |
| VoltageSource.SplitInjective | main.cpp:106-107 | two readings with the same parts are equal |
| VoltageSource.Saturation | main.cpp:105-107 | a reading of 1200 shows as intPart 9, fracPart 99 |
| DisplayRenderer.Render | main.cpp:88-115 | the select byte is SEGMENT_SELECT[cursor] for every cursor 0..3 in both modes; a cursor outside 0..3 leaves both bytes at 0xFF; every table index is in bounds under the stated ranges; the digits are taken from TimeSource.Minutes/Seconds and VoltageSource.Split, so their contracts apply to the renderer |
| DisplayRenderer.RenderReadsBack | main.cpp:90-115 | each position reads back as the expected glyph: in time mode the four decimal digits of minutes*100+seconds with the point only at position 1; in voltage mode the three digits of min(c, 999) with the point only at position 0 and position 3 dark whatever the reading |
| DisplayRenderer.TimeReadsBack | main.cpp:91-100 | the time-mode half of RenderReadsBack: positions 0-3 show minutes/10, minutes%10 (point lit), seconds/10, seconds%10 |
| DisplayRenderer.VoltageReadsBack | main.cpp:102-114 | the voltage-mode half of RenderReadsBack: positions 0-2 show intPart (point lit), fracPart/10, fracPart%10; position 3 is dark |
| DisplayRenderer.PlaceDigits | main.cpp:96-99 | the four decimal digits of minutes*100+seconds are minutes/10, minutes%10, seconds/10, seconds%10 |
| DisplayRenderer.HundredsDigits | main.cpp:110-112 | the three decimal digits of a reading c <= 999 are c/100, (c%100)/10 and (c%100)%10 |
| Bytes.ShiftedBit | main.cpp:37 | `(b >> i) & 0x1` is bit i of b |
| Bytes.PackPrefix | main.cpp:36-40 | reassembling the first k bits sent MSB-first gives the top k bits of the byte |
| Bytes.PackMsbFirst | main.cpp:36-40 | reassembling the eight bits sent MSB-first gives the byte back |
| ShiftRegister.FrameTraceRoundTrip | main.cpp:33-48 | a frame's trace has 18 events: latch low, 16 data bits, latch high; the latch is never driven high before the last bit; it decodes back to (segments, digitSelect) |
| ShiftRegister.OutputToDisplay | main.cpp:33-48 | the two loops emit latch low, bits 7..0 of the segment byte, bits 7..0 of the select byte, then latch high; the trace decodes back to both bytes |
| InputHandler.ResetFires | main.cpp:73 | a reset fires only on a change of level to pressed (0), and always on the change from released (1) to pressed |
| InputHandler.ModeFor | main.cpp:81 | voltage mode exactly when S3 reads 0, time mode for any other level |
| InputHandler.ResetPolls | main.cpp:72-76 | one reset decision per S1 sample; the first compares against the remembered previous level |
| InputHandler.ResetPollsAreEdges | main.cpp:72-76 | after the first sample, a pass resets exactly when its sample is 0 and the previous sample is 1 |
| InputHandler.HeldPressFiresOnce | main.cpp:72-76 | a press held over many passes resets once, at its first pass, and only if S1 was released before |
| Multiplexer.CRem | main.cpp:118 | C's truncating remainder: magnitude below n; on a >= 0 the Euclidean remainder; on a < 0 non-positive with a == -((-a) / n) * n + r, the remainder of division truncated toward zero (so -5 gives -1, not 3) |
| Multiplexer.RefreshTick | main.cpp:53-55 | the refresh callback raises the display flag and changes nothing else in the state |
| Multiplexer.SecondTick | main.cpp:25-30 | the 1 Hz callback changes only the counter, keeps the invariant, and advances it modulo 6000 |
| Multiplexer.LoopPass | main.cpp:70-119 | prev_b1/prev_b3 become the samples; the mode is voltage iff b3 == 0; on a falling edge (b1 == 0 and prev_b1 == 1) the counter becomes 0, otherwise it is unchanged; the flag is cleared; without the flag no frame, no pin events and the cursor unchanged; with it one frame for SEGMENT_SELECT[cursor] and the cursor advanced mod 4; the invariant is kept |
| Multiplexer.PassTraceDecodes | main.cpp:117 | a refreshing pass's pin trace decodes to exactly the rendered frame's two bytes |
| Multiplexer.PassShows | main.cpp:85-117 | a refreshing pass lights the cursor's digit with the expected glyph for the S3-selected mode, using the counter after any reset in the same pass |
| Multiplexer.Apply | main.cpp:70-119 | each event (second tick, refresh tick, loop pass) keeps 0 <= total_seconds < 6000 and 0 <= currDigit < 4 |
| Multiplexer.Run | main.cpp:57-121 | any interleaving of events from a valid state ends in a valid state, so every SEGMENT_MAP and SEGMENT_SELECT index stays in bounds |
| Multiplexer.PowerOn | main.cpp:20-21 | the power-on values (with currDigit 0 from main.cpp:52 and the loop locals of main.cpp:67-68) satisfy the invariant, start in time mode with the counter at 0, make the first pass render position 0 without a refresh tick, and treat S1 as released |
| Multiplexer.PassesResetAtPolls | main.cpp:72-76 | in a run of loop passes from any valid state, pass k sets the counter to 0 exactly when ResetPolls fires for the k-th S1 sample, and otherwise leaves it as it was before that pass |
| Multiplexer.ReachableStatesValid | main.cpp:20-21 | the power-on state and every state reachable from it satisfy the invariant |
| Multiplexer.RefreshedPass | main.cpp:85-119 | a pass after a refresh tick always emits a frame for SEGMENT_SELECT[cursor] and moves the cursor to (cursor+1) mod 4 |
| Multiplexer.RefreshRun | main.cpp:85-119 | runs the loop with the flag raised before each pass; states[k+1] and frames[k] are the state and frame of the refreshed pass from states[k] |
| Multiplexer.CursorCycle | main.cpp:118 | along any chain of refreshed passes the k-th frame selects position (start+k) mod 4 and the cursor ends at (start+n) mod 4 |
| Multiplexer.Refreshes | main.cpp:85-119 | over n refreshes, each frame and state comes from the refreshed pass from the state before it; the k-th frame selects position (start+k) mod 4, and the cursor ends at (start+n) mod 4 |
| Multiplexer.FourRefreshes | main.cpp:85-119 | four refreshed passes, each frame and state coming from the refreshed pass from the state before it, light each of the four positions and return the cursor to where it started |
| Multiplexer.ModeIsLevelTriggered | main.cpp:79-81 | the mode after a pass depends only on that pass's S3 sample, not on any earlier state |

## Left out

- Peripheral objects and pin configuration (`DigitalOut`, `DigitalIn`, `AnalogIn`, `PullUp`; main.cpp:4-9, 59-60) are hardware I/O. Button levels enter as integer parameters of `LoopPass`.
- The clock pulses `clk = 0; clk = 1` have no effect beyond delimiting one data bit each, so one `Data` event stands for "data pin set, then clock pulsed".
- `Ticker::attach` and the sharing of `volatile` globals between interrupts and the loop (main.cpp:24, 51-55, 61-62) are timing and concurrency. The two callbacks are ordinary state transitions, and runs interleave them with loop passes as a sequence of `Event`s. Interrupts are taken to fire only between loop passes; one firing inside a pass (for example a tick between main.cpp:74 and main.cpp:92-93, which would show a counter of 1 in a pass that reset it) is not modelled, nor are torn reads.
- The float computation `pot.read() * 3.3f` and the `(int)` cast (main.cpp:103-104) are floating point. The model takes an integer centivolt value, required to be >= 0 as the cast of a non-negative product is.
- Multiplexer.LoopPass: requires 0 <= total_seconds < 6000 on every pass. This is stronger than the source needs. Outside that range only a refreshing time-mode pass indexes past `SEGMENT_MAP`: at cursor 0 for a counter of 6000 or more, and at some cursors for a negative counter. Voltage-mode passes and passes without a refresh are well defined for any counter. `Run` and `ReachableStatesValid` show that every reachable state meets the requirement.
- TimeSource.Tick: does not model 32-bit overflow of `total_seconds++`, because the counter never exceeds 5999 from power-on.
- The `while (true)` loop is one `LoopPass` per iteration; `Run` and `Refreshes` compose passes.
- `prev_b3` is written on every pass and never read. It is kept in the state only to mirror the source.
- Rendering is a pure function. That two calls with the same inputs give the same frame is therefore not stated separately.
