# FSCC serial driver: rings, clock synthesiser and interrupt scan

The FSCC driver moves HDLC frames between user programs and a serial card. This project models three
parts of it in Dafny and proves what they keep.

**The transmit and receive rings in FIFO mode** (`Words`, `Card`, `Descriptors`, `TxQueue`, `TxRing`,
`RxQueue`, `RxFrames`, `RxReading`, `RxRing`, `RxStream`, `Transmitter`, `Receiver`, `Loopback`, `Progress`).
`TxRing.TxRing` and `RxRing.RxRing` are the rings as the driver keeps them: an array of descriptors with a
control word, a byte count, a buffer and a time stamp each, two positions, and the two counters of the
frame being received. Their methods are the driver's functions; each is proved against a function on plain
values (`TxQueue`, `RxQueue`, `RxReading`), and the properties are proved about those functions. The class
invariant `Valid` says which descriptors are occupied, and by what, as circular runs between the two
positions. `RxFrames` shows that descriptors are invisible to the reader, and `Loopback` puts everything
together: every interleaving of space checks, writes, FIFO passes, words sent, words and status bytes
received, loop iterations, user reads and purges of either or both directions delivers a prefix of the
accepted frames that no purge dropped, and all of them once nothing is waiting. `Progress` adds when that
point can still be reached: from any reachable state, if and only if every accepted frame is one that both
rings can carry, which a writer can check beforehand. All of this is about frames that control words can count;
for others it is false, as told below. `RxStream` is the same for streaming mode, where there are no frames, with what
it takes for everything to get through.

**The clock synthesiser** (`ClockFormulas`, `ClockSearch`, `ClockCodec`, `Clock`, `ClockSerial`, `NearestClock`). The search
for the five ICS307-03 dividers returns the first solution of a fixed order, or nothing exactly when there
is none. What counts as a solution is stated in the driver's own
formulas, in Hz, ohms and amperes. The 20-byte encoding reads back, and the bytes documented for 10 MHz decode to
a solution. The bit-banged waveform, sampled on the chip's pins, puts exactly those bits into the chip.
`ClockSerial.Program` is the composition: the dividers in the chip are the first solution. `NearestClock`
is the other chip's search, which closes a bracket around the requested rate.

**The interrupt scan** (`InterruptScan`). The worker that answers tracked interrupts starts over from the
head after every answer, while requests join the queue and are cancelled under it. It ends, and answers what it should.

## What the proofs brought to light

- A transmit buffer size is accepted at creation if it is any multiple of four, and docs/memory.md says
  that any size works. A descriptor is charged its length rounded up to whole words, and four bytes more if it
  was whole words already, so one that holds 4092 bytes or more never fits the 4096-byte FIFO and is never
  sent. `TxQueue.DrainsIffSendable` gives the condition for a frame, less than 4092 bytes or buffers of less
  than 4092, and `TxQueue.DrainsIffSizeFits` the one for a buffer size.
- A received frame that needs more than the whole receive ring, status bytes included, is never delivered and
  blocks what comes after it until a purge. `Progress.CanFinishIff` has both conditions, `Progress.Blocked` an
  example: seven bytes, for two receive buffers of four.
- `fscc_user_write_frame` reports success, with a short count, for a frame larger than the whole ring when
  the ring is empty (`TxQueue.ShortSuccessIff`; nine bytes for two buffers of four, `TxQueue.ShortSuccess`).
  Its callers check the length first.
- The callers' capacity check multiplies in 32 bits and refuses frames that would fit once the capacity needs
  more (`TxQueue.CapacityRefusesIff`; 65536 buffers of 65536 bytes refuse every frame,
  `TxQueue.CapacityRefusesAll`).
- No check compares a length with what a control word can count. A write of more than `DMA_MAX_LENGTH` bytes,
  for which the buffers together have to be that large, sets flags instead (`Descriptors.LengthFits`): 1 GiB
  stops the descriptor that should start the frame (`Descriptors.LengthStops`), and 512 MiB count as nothing,
  so that the words are sent without a length. A received frame is two bytes longer, and one of 512 MiB is
  counted as nothing too (`Descriptors.LengthsLost`); the reader then wraps below zero and finds no buffer
  large enough. Both control words count right if and only if the frame has at most `DMA_MAX_LENGTH` - 2
  bytes (`Descriptors.CountableIff`). Only longer writes can break the transmit ring's invariant
  (`TxRing.TxRing.EvtIoWrite`), and `Loopback` and `Progress` are false of them.
- docs/rx-multiple.md says that the frames returned are together smaller than the buffer. They may also
  fill it exactly (`RxReading.LongestBatch`).
- The jump ahead in the ICS307-03 search goes to the largest VCO divider when the allowed error exceeds the
  frequency. That skips nothing, because no VCO frequency is so low (`ClockSearch.JumpSkipsNothing`). This
  holds for every frequency and every tolerance, also where the 32-bit product of the two wraps.
- The ICS307-02 search lets a setting exactly one tenth below the rate claim its lower bound. It never ends
  there: the next VCO divider word is then admissible too, and strictly within the tenth
  (`NearestClock.TenthHasBetter`).
- The clock bits that a port starts with are annotated as 18.432 MHz (src/config.h). They decode to 18.43 MHz
  (`ClockCodec.DefaultBytes`).
- The encoder accepts more output dividers than it can encode. The value reads back if and only if the
  divider is on the search's ladder (`ClockCodec.Pack`; 1031 is accepted and does not,
  `ClockCodec.AcceptsTooMuch`).
- With a requested tolerance of 2^32 - 1 ppm the search does not end unless there is a solution
  (`ClockSearch.EndsIff`), as for a frequency of zero (`ClockSearch.EndlessAtZero`).

## What is assumed of the environment

- One loop iteration sees a consistent snapshot of RFCNT, RXCNT and BC_FIFO_L. Before a frame's length is
  posted, the byte count register shows no more bytes than have arrived of it; its two status bytes and its
  padded last word arrive together with the length.
- The transmitter waits when its FIFO runs empty, and the receive FIFO does not overflow.
- Writes come from one producer; transmit modifiers are plain frames (XF).
- In `Transmitter`, `Receiver`, `Loopback` and `Progress`, frames written have at most `DMA_MAX_LENGTH` - 2
  bytes, posted lengths are at most `DMA_MAX_LENGTH`, and so is the receive buffer size. `RxQueue` and `RxRing`
  take posted lengths up to 2^31 - 1, the width of the driver's field, and keep 29 bits of them as it does.
- Purging both directions is two requests to the driver; `Loopback` has them as one step, with nothing
  between, and each of them on its own between frames.
- Requests in the interrupt queue have distinct identities.
- The spinlocks make each function, or for the receive loop each iteration, one step.
- Framed and streaming modes are separated by a purge (docs/purge.md).

## Model

| member | source | states |
|---|---|---|
| Loopback.LoopbackTheorem | tools/loop_test.c:40-91 | in every state of every run, the frames delivered are a prefix of the frames accepted and not dropped by a purge, byte for byte and in order; all of them when nothing is waiting |
| Loopback.StepInv | src/io.c:634-906 | every step keeps the whole-port invariant: transmit side, line and receive side |
| Loopback.RunLimits | src/io.c:642-683 | in every run the hardware transmit FIFO stays below 4096 bytes and 256 lengths, and a frame whose space was checked keeps its room |
| Transmitter.PassOk | src/io.c:635-687 | a FIFO pass moves words and lengths so that ring, FIFO and words being sent still are the accepted frames in order |
| Transmitter.WriteOk | src/io.c:764-810 | a write after its space check queues the whole frame behind the others |
| Transmitter.PurgeTxOk | src/io.c:337-356 | purging the transmit side drops exactly what has not been sent and keeps the invariant |
| Receiver.PurgeRxOk | src/io.c:316-335 | purging the receive side drops exactly what has not been delivered and keeps the invariant |
| Transmitter.SendOkStep | src/io.c:653-683 | what the transmitter completes from words and lengths is the next accepted frame without its padding |
| Receiver.HearOk | src/io.c:689-762 | whatever arrives, delivered, waiting and unread bytes remain the frames that arrived |
| Receiver.ReceiveOk | src/io.c:689-762 | a receive iteration loses, repeats and reorders nothing |
| Receiver.ReadOk | src/io.c:812-906 | a user read moves exactly the oldest complete frames to the user |
| Receiver.BatchIsStripped | src/io.c:836-903 | with status and time stamps off, the bytes of a read are the frames one after the other, each without its two status bytes |
| Receiver.PassIsRun | src/io.c:689-762 | the whole read loop is an interleaving of arrivals and single iterations, given as a function of what arrives, each allowed where it stands, and keeps the receive invariant |
| Loopback.PassKeepsInv | src/io.c:689-762 | a whole pass of the read loop, with arrivals from the line, keeps the port's invariant and leaves ring and hardware as the port's state says |
| Progress.CanFinishIff | src/io.c:634-906 | from a reachable state, everything accepted can still be delivered without a purge if and only if every accepted frame is less than 4092 bytes or in smaller buffers, and with its status bytes no longer than the receive ring; wherever that is reached, everything accepted was delivered |
| Progress.CanFinish | src/io.c:634-906 | under that condition some continuation delivers everything and leaves nothing waiting |
| Progress.Blocked | src/io.c:689-762 | a run that accepts seven bytes for a receive ring of eight, after which no continuation without a purge delivers everything |
| Progress.SendAll | src/io.c:635-687 | with no oversize descriptor accepted, passes and sends empty the transmit side |
| Progress.ReadEverything | src/io.c:689-906 | with no oversize frame accepted, receive iterations and user reads empty the receive side |
| Progress.StepFitting | src/io.c:689-762 | the receive ring never holds, and the user is never given, a frame longer than all its buffers |
| TxQueue.SplitCarries | src/io.c:774-801 | words carry a frame's descriptors, each padded on its own, if and only if they carry the frame padded once at its end |
| TxQueue.SplitLengths | src/io.c:667-684 | a frame's descriptors announce its length, once |
| TxQueue.SplitCount | src/io.c:774-801 | a frame needs at most k descriptors if and only if it has at most k times the buffer size bytes |
| TxQueue.QueuedWhole | src/io.c:764-801 | a write takes the frame whole if and only if the free descriptors have room for its bytes |
| TxQueue.CheckedWriteIsWhole | src/io.c:1102-1123 | after a space check that succeeded, any number of FIFO passes and purges leaves the frame room to be queued whole |
| TxQueue.FillBound | src/io.c:642-683 | whatever numbers the registers hold, no pass overfills the data FIFO, and it announces at most one length, never a 257th |
| TxQueue.FillCountIs | src/io.c:642-683 | a pass moves m descriptors or more if and only if their charges fit, at most one starts a frame and a length has a place: it takes all it can |
| TxQueue.TfcntReads | src/io.c:503-512 | the frame count read is the number in bits 16 to 24 of the register |
| TxQueue.TxcntReads | src/io.c:529-538 | the byte count read is the number in bits 16 to 28 of the register |
| TxQueue.SpaceWithinFifo | src/io.c:646-650 | the unsigned free-space computation is rejected exactly when the count register is out of range |
| TxQueue.PassMoves | src/io.c:642-667 | the exact condition under which a pass moves anything |
| TxQueue.DrainsWithin | src/io.c:647-681 | with less than 4092 bytes in each descriptor, as many passes over an idle FIFO as there are descriptors empty the ring |
| TxQueue.StuckAt | src/io.c:658-661 | a descriptor of 4092 bytes or more is never moved, whatever the registers say |
| TxQueue.DrainsIffSendable | src/io.c:647-681 | a frame drains if and only if it or the buffer size is less than 4092 bytes |
| TxQueue.DrainsIffSizeFits | src/io.c:647-681 | every frame drains if and only if the buffer size is less than 4092 |
| TxQueue.ShortSuccessIff | src/io.c:764-810 | a write reports success with a short count if and only if the ring was empty and the frame is larger than all of it |
| TxQueue.CapacityRefusesIff | src/io.c:1085-1088 | the 32-bit capacity is below the true one if and only if the product needs more than 32 bits |
| TxRing.TxRing.constructor | src/io.c:214-254 | creation rounds any request, in 32 bits, and gives all descriptors their buffers |
| TxRing.TxRing.Reset | src/io.c:337-356 | from any state since creation, reset empties the queue and establishes the ring invariant, unless the buffers are empty |
| TxRing.TxRing.GetTxSpace | src/io.c:614-632 | the space reported is the number of free descriptors times the buffer size |
| TxRing.TxRing.UserWriteFrame | src/io.c:764-810 | for every length says what is reported, how many bytes were taken and what the first control word becomes; for lengths a control word can count, appends the frame's descriptors as far as there is room and keeps the invariant |
| TxRing.TxRing.EvtIoWrite | src/io.c:1071-1136 | a write is queued whole, waits whole or is refused; each exactly when capacity, free space, blocking mode and clock say so |
| TxRing.TxRing.RequestWorker | src/isr.c:259-299 | the oldest blocked write, which EvtIoWrite let in, is queued whole as soon as it fits; the others keep their places |
| TxRing.TxRing.FifoWriteData | src/io.c:635-687 | removes exactly the descriptors it should, pushes words that carry them, and posts the lengths of the frames begun |
| Card.HardwareFifo.SetRep | src/card.c:245-287 | pushes the buffer's bytes as words, the last one loaded whole, and never reads past the rounded length |
| Card.HardwareFifo.GetRep | src/card.c:189-221 | takes just enough words and returns their first bytes |
| Card.TransferRoundTrip | src/card.c:189-287 | what one transfer pushes, the other gives back, leaving what is behind it |
| Card.CharsToWord | src/utils.c:32-35 | the word loaded is those four bytes |
| Words.WordsRoundTrip | src/card.c:261-287 | bytes cut into words and joined again are the same bytes |
| Descriptors.ControlRoundTrip | src/io.h:30-33 | the flag bits and the count field do not overlap |
| Descriptors.WordRoundTrip | src/defines.h:148-164 | every control word is determined by its fields |
| Descriptors.FieldsAre | src/io.h:30-33 | frame end, stop and interrupt are bits 31, 30 and 29, and the count is below them |
| Descriptors.LengthFits | src/io.c:783-790 | or-ing a length into a control word means the length and nothing else if and only if it is at most DMA_MAX_LENGTH |
| Descriptors.CountableIff | src/io.c:735-741 | both control words of a frame, written and received, count right if and only if it has at most DMA_MAX_LENGTH - 2 bytes |
| Descriptors.AddCount | src/io.c:722-723 | adding a byte count to the whole control word changes the count field only |
| RxFrames.StepKeepsFrames | src/io.c:689-762 | one iteration on descriptors is one iteration on frames, wherever descriptor boundaries fall |
| RxFrames.StepKeepsFeeding | src/io.c:699-747 | the frame an iteration completes is the next one that came over the line, and the rest stays in order |
| RxFrames.HearKeepsFeeding | src/io.c:702-716 | arrivals keep the hardware FIFO and the unfinished frame together equal to what came over the line |
| RxFrames.PassReassembles | src/io.c:689-762 | however a pass is cut by arrivals, descriptors and a full ring, afterwards it holds complete frames in order and the hardware holds exactly the rest |
| RxFrames.CounterIs | src/io.c:722-742 | the driver's byte counter is the filled descriptors since the last frame end plus the partial one, in whole words, and below the frame's length |
| RxFrames.UnknownTakes | src/io.c:713-730 | while no length is posted, an iteration appends exactly the whole words the register shows, as far as the descriptor has room |
| RxFrames.PassCompletes | src/io.c:689-762 | a whole pass takes every complete frame out of the hardware, or fills the ring |
| RxQueue.RxcntReads | src/io.c:514-527 | the byte count read is the number in the low 14 bits of the register, or 0 above 8192 |
| RxReading.PayloadIs | src/io.c:828-883 | a frame is handed out with all its bytes, or all but the last two, and its time stamp behind |
| RxReading.LongestBatch | src/io.c:835-903 | with rx_multiple, a read returns m frames or more if and only if the first m fit the buffer |
| RxReading.SingleBatch | src/io.c:835-891 | without it, a read returns the first frame if that fits, and nothing otherwise |
| RxReading.MoveCounts | src/io.c:848-869 | the planned and clipped move sizes hand out a frame's valid bytes once, also when its status bytes straddle two descriptors |
| RxReading.NextSizeOfFrames | src/io.c:560-589 | the next read size is the first complete frame's length, or the bytes in full descriptors when there is none |
| RxRing.RxRing.constructor | src/io.c:173-212 | creation rounds any request and gives a valid empty ring, if the buffers hold something and a control word can count it |
| RxRing.RxRing.Reset | src/io.c:316-335 | purging re-establishes the invariant, for the same buffers, with nothing ready, nothing partial and both counters zero |
| RxRing.RxRing.FifoReadData | src/io.c:689-762 | the loop over descriptors is the loop on values, which keeps 29 bits of a frame's length, and it keeps the ring invariant |
| RxRing.RxRing.NextReadSize | src/io.c:560-589 | finds what the value function finds |
| RxRing.RxRing.UserReadFrame | src/io.c:812-906 | returns exactly the batch of oldest frames in the user's buffer, consumes exactly their descriptors, touches nothing beyond, or changes nothing |
| RxRing.RxRing.UserReadStream | src/io.c:908-953 | returns the oldest bytes that fit and keeps the others, a shifted descriptor included |
| RxStream.StreamTheorem | src/io.c:908-953 | in every run, bytes delivered, in finished descriptors, in the partial one and in the hardware are the bytes received, in order |
| RxStream.IterateConserves | src/io.c:713-730 | a receive iteration without lengths keeps conservation |
| RxStream.IterateTakes | src/io.c:713-730 | it takes exactly the whole words that the register shows, oldest first, as far as the descriptor has room |
| RxStream.PassEmpties | src/io.c:689-762 | a whole pass with nothing arriving empties the hardware FIFO or fills the ring |
| RxStream.Drains | src/io.c:689-953 | from any state, with nothing more arriving, all whole words can be handed out but for less than one descriptor's worth |
| RxStream.DeliversAll | src/io.c:689-953 | from any state, some continuation hands out every whole word that has come |
| ClockFormulas.PfdIff | lib/raw/calculate-clock-bits.c:173-178 | the bounds on the PFD frequency, cross-multiplied |
| ClockFormulas.VcoIff | lib/raw/calculate-clock-bits.c:198-227 | the bounds on the VCO frequency, cross-multiplied |
| ClockFormulas.ErrorIff | lib/raw/calculate-clock-bits.c:229-232 | the bound on the frequency error, cross-multiplied |
| ClockFormulas.RatioIff | lib/raw/calculate-clock-bits.c:352-373 | the bounds on the ratio of PFD frequency to loop bandwidth, rounded to tenths, as one integer division |
| ClockFormulas.DampingIff | lib/raw/calculate-clock-bits.c:369-373 | the bounds on the damping factor, squared and cross-multiplied |
| ClockSearch.SolutionIff | lib/raw/calculate-clock-bits.c:173-373 | the integer comparisons of the search accept a setting if and only if the driver's formulas do |
| ClockSearch.TenMegahertz | docs/clock-frequency.md:24-31 | the documented 10 MHz setting is a solution with no error |
| ClockSearch.OnLadderIff | lib/raw/calculate-clock-bits.c:180-181 | the ladder is exactly the output dividers that the chip's ratio and small codes can give |
| ClockSearch.FindDividers | lib/raw/calculate-clock-bits.c:166-413 | whenever the search ends, it fails exactly when no ppm up to the requested one has a solution; otherwise gives, of the settings within the driver's formulas, the first in the order least ppm, least r, greatest od, least v, resistor, current |
| ClockSearch.EndsIff | lib/raw/calculate-clock-bits.c:166-413 | round by round, the outer loop comes to an end if and only if the ppm requested is not the largest word or some ppm has a solution |
| ClockSearch.FirstExists | lib/raw/calculate-clock-bits.c:166-413 | whenever some ppm has a solution there is a first one at or below it |
| ClockSearch.FirstIsUnique | lib/raw/calculate-clock-bits.c:166-413 | that order determines one solution |
| ClockSearch.JumpSkipsNothing | lib/raw/calculate-clock-bits.c:183-196 | no VCO divider below the computed start is acceptable, negative starts and wrapped products included |
| ClockSearch.LadderStep | lib/raw/calculate-clock-bits.c:393-399 | stepping down from a rung reaches the next lower rung of the ladder and misses none |
| ClockCodec.Pack | lib/raw/calculate-clock-bits.c:493-942 | the error code is the first table that refuses; accepted dividers read back if and only if the output divider is on the ladder; constant bits survive |
| ClockCodec.PackInput | lib/raw/calculate-clock-bits.c:536-576 | the input divider reads back and no other bit changes |
| ClockCodec.PackVco | lib/raw/calculate-clock-bits.c:580-588 | the VCO divider reads back and no other bit changes |
| ClockCodec.PackResistor | lib/raw/calculate-clock-bits.c:592-610 | the resistor reads back and no other bit changes |
| ClockCodec.PackCurrent | lib/raw/calculate-clock-bits.c:615-752 | the charge pump current reads back and no other bit changes |
| ClockCodec.PackOutput | lib/raw/calculate-clock-bits.c:757-932 | the output divider reads back if and only if it is on the ladder, and no other bit changes |
| ClockCodec.InputIs | lib/raw/calculate-clock-bits.c:536-576 | the input divider's bits, by arithmetic on the bytes |
| ClockCodec.VcoIs | lib/raw/calculate-clock-bits.c:580-588 | the VCO divider's bits, by arithmetic on the bytes |
| ClockCodec.CurrentIs | lib/raw/calculate-clock-bits.c:615-752 | the charge pump current is 1.25 uA times what three bits lack of 8 times one to four |
| ClockCodec.OutputIs | lib/raw/calculate-clock-bits.c:815-929 | the output divider's ratio and inverted codes, by arithmetic on the bytes |
| ClockCodec.DocumentedBytes | docs/clock-frequency.md:28-31 | the documented bytes decode to dividers 2, 45 and 54, 16 kOhm and 25 uA |
| ClockCodec.DefaultBytes | src/config.h:73-75 | the bytes a port starts with decode to dividers 75, 1843 and 32, 64 kOhm and 6.25 uA |
| ClockCodec.FindIndex | lib/raw/calculate-clock-bits.c:830-925 | the scan for the 9-bit index finds the first that fits, if there is one |
| ClockCodec.LadderHasIndex | lib/raw/calculate-clock-bits.c:828-925 | every rung above the special cases has an index below 512 |
| ClockCodec.IndexNeedsLadder | lib/raw/calculate-clock-bits.c:830-925 | a divider with an index is on the ladder |
| Clock.GetICS30703Data | lib/raw/calculate-clock-bits.c:113-944 | the only outcomes are 0, with bits that read back as the first solution and a frequency that is the one requested to within its error, and 2, when there is none: no table error is reachable |
| Clock.OutputClose | lib/raw/calculate-clock-bits.c:229-935 | the frequency reported is the one requested to within the error allowed and the fraction of a Hz cut off |
| Clock.Encodable | lib/raw/calculate-clock-bits.c:393-932 | every setting the search can return is accepted and reads back |
| ClockSerial.SetClockBits | src/port.c:1461-1501 | exactly 323 words: base, two per bit, strobe, restored register |
| ClockSerial.LinesArePins | src/port.c:1426-1476 | the masks the driver uses are the chip's pins: data on bit 0, clock on bit 1, strobe on bit 3, eight higher on channel 1 |
| ClockSerial.SampleGivesBits | src/port.c:1479-1491 | the data pin at rising edges of the clock pin is byte 19 down to byte 0, most significant bit first |
| ClockSerial.StrobeClocksNothing | src/port.c:1494-1500 | with the strobe word included, still exactly those 160 bits are sampled |
| ClockSerial.RegisterHolds | src/port.c:1479-1491 | 160 bits shifted in that order leave the chip with the 20 bytes |
| ClockSerial.WaveformContained | src/port.c:1461-1501 | the strobe is up only after all 160 bits; no bit outside the two low nibbles changes and the other channel's nibble stays 0 until the register is restored |
| ClockSerial.ContainedIs | src/port.c:1479-1501 | what the waveform leaves alone, bit by bit: all but the two low nibbles, with the other channel's nibble at 0 |
| ClockSerial.AdjustedIs | src/port.c:1444-1458 | bit 2 of byte 15 is clear exactly on the cards without a crystal, and nothing else changes |
| ClockSerial.AdjustKeepsDividers | src/port.c:1444-1458 | forcing the XTAL bit changes no divider |
| ClockSerial.ChipDecodes | src/port.c:1461-1501 | what the chip has shifted in at the strobe reads as the dividers packed |
| ClockSerial.Program | lib/raw/calculate-clock-bits.c:113-944 | search, encoding and waveform composed: the chip ends up with the first solution's dividers and the card's crystal setting |
| NearestClock.GetICS30702Data | lib/raw/calculate-clock-bits.c:946-1179 | succeeds exactly when some admissible setting is strictly within a tenth of the rate; then the control word reads back as an admissible setting at least as close as every admissible one, its frequency strictly within the tenth |
| NearestClock.TenthHasBetter | lib/raw/calculate-clock-bits.c:1041-1058 | a setting that claims the lower bound itself has an admissible neighbour strictly within the tenth |
| NearestClock.ClockIs | lib/raw/calculate-clock-bits.c:1034-1034 | the clock is the rounded-down step times the VCO word plus 8 |
| NearestClock.OperatingRangeIs | lib/raw/calculate-clock-bits.c:1035-1039 | without wrap, the operating range is 60 to 360 MHz at the VCO and above 200 kHz at the reference |
| NearestClock.RateLimitIs | lib/raw/calculate-clock-bits.c:987-1026 | a divider is tried if the rate times the divider is at most 360 MHz, 350 MHz for 7 |
| NearestClock.PackIs | lib/raw/calculate-clock-bits.c:1124-1163 | the control word is 16 plus the divider's three-bit code, nine bits of VCO word and seven of reference word |
| NearestClock.CloseBracket | lib/raw/calculate-clock-bits.c:984-1108 | no admissible setting, 32-bit wrap included, has its clock strictly inside the final bracket |
| NearestClock.VisitGood | lib/raw/calculate-clock-bits.c:1034-1096 | one comparison keeps the bracket around the rate, its ends real, and only narrows it |
| NearestClock.FoundIsHit | lib/raw/calculate-clock-bits.c:1039-1096 | the bracket has moved or its lower end been claimed if and only if some admissible setting is strictly within a tenth |
| NearestClock.BestIsNearest | lib/raw/calculate-clock-bits.c:1110-1123 | the end of the bracket that is chosen is nearest among all admissible settings |
| NearestClock.ClosedBracket | lib/raw/calculate-clock-bits.c:981-1108 | every rate has a bracket with real ends and no admissible clock inside |
| NearestClock.PackRoundTrip | lib/raw/calculate-clock-bits.c:1124-1163 | the control word determines the setting |
| InterruptScan.IsrQueue.IsrAlertWorker | src/isr.c:90-197 | ends, answers exactly the requests the interrupt concerns, those that join meanwhile included and those cancelled by then excluded, once each, in order and with their bits, and leaves the others in order; interrupts raised meanwhile are kept for the next run |
| InterruptScan.AnsweredIff | src/isr.c:56-188 | after any sequence of interrupts, the worker's run answers a request that waits or joins if and only if one of them concerns it and it is not cancelled first, and leaves it waiting if and only if none does |
| InterruptScan.MeetsMeans | src/isr.c:157-157 | an interrupt concerns a request if their bits meet |
| InterruptScan.JoinStep | src/isr.c:114-120 | a request that joins the queue during the scan joins what is owed an answer |
| InterruptScan.AnswersAre | src/isr.c:152-188 | a request is answered with the bits it shares with the interrupt or left waiting, never both |
| InterruptScan.AnswerProgress | src/isr.c:152-182 | answering the first request concerned and starting over keeps the final outcome |
| InterruptScan.CancelProgress | src/isr.c:124-132 | a cancellation takes a request out of the final outcome and changes nothing else |

## Left out

- The DMA engine, `fscc_dma_*` and DMA-mode reads and writes: the hardware side is not visible. Descriptor
  fields that only DMA uses (link, physical addresses) are not modelled, and the array holds descriptor
  records, not pointers to them.
- Device setup, PnP, the registry, buffer allocation failure, IOCTL dispatch and the option getters and
  setters: one-branch facts.
- The other workers of src/isr.c (time stamps, end of transmission, DPC scheduling). In the scan, reading and clearing the interrupt value is one step and the
  framework's buffer retrievals succeed.
- The `__BIG_ENDIAN` branches of src/card.c, and the `DISABLE_XTAL` build of src/port.c.
- XREP, TXT and TXEXT: repetition is the hardware's.
- The clock's values: time stamps are arbitrary eight-byte values, of which only presence and place matter.
- The final byte-by-byte transfer of the 323 words to the card, and setting the purge's command registers.
- Loopback.LoopbackTheorem: purging one direction alone is a step only between two frames on the line; what
  the card makes of a frame that is cut in the middle depends on the hardware.
- RxRing.RxRing.ReadIteration: the counter of bytes in the frame is unbounded here; in streaming mode the
  driver's 32-bit counter is only reset by a purge and overflows after 2 GiB. It is not consulted while no
  length is posted.
- ClockSearch.FindDividers: comparisons are exact fractions, where the driver uses doubles, and the
  damping factor is compared squared. Its precondition is that the driver's search ends, which excludes
  exactly a requested tolerance of 2^32 - 1 ppm without a solution.
- TxRing.TxRing.EvtIoWrite: after accepting more than `DMA_MAX_LENGTH` bytes only the ring's shape and the
  first control word are described.
- Progress.CanFinishIff: some continuation, not every one; fairness of the DPCs is not modelled.
- NearestClock.GetICS30702Data: the unused recomputation of the ranges at its end is not modelled.
