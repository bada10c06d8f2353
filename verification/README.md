# Verified models of five firmware drivers

The firmware's drivers are mostly register plumbing, but five of them contain algorithms over
inputs of any size. This project models those five in Dafny, imperatively where the drivers are
imperative, and proves what they promise: for every input, every run and every reachable state.
The hardware behind a register is a field, a FIFO or a log; whatever it may answer is open.

Run `dafny verify dfyconfig.toml` to verify everything.

## What is modelled

**I2C QUP transfer engine** (`Qup*.dfy`). The driver sends 16-bit tagged entries, two in a 32-bit
word, in fills of limited size. It holds a half-word back between messages, pads with NOPs, merges
messages for one slave and reads in chunks of 256 bytes.
`QupDevice` is the driver with its fields and FIFO; its methods refine `QupSchedule`, which says
slot by slot, without words or held halves, what a transfer emits. `QupTheorems.Intended` says what
the messages ask for, and `TransferIff` when the two agree: exactly for *faithful* message lists.
`QupBus` reads the entries as the controller does, with tags and fields of its own: START with an
address and a direction, a byte with or without STOP, a number of bytes to take. On the bus a transfer
is what the messages ask for exactly if it is faithful and all slaves have 7-bit addresses
(`TransferOnBusIff`). `QupInput` does the same for what comes back: if the input words pack the bytes
that the slave sends, the buffers hold those bytes (`DeliveredFilled`).
`QupLayout` puts that, for every message list, in terms of the lengths, directions and addresses
alone: where each message and each pass ends (`PassEndsAt`), which lists are sent as asked
(`AlignedTransferIff`) and which fills are overfull (`TransferOverrunsIff`). `QupCases` has closed
forms and inputs. The driver fails its intention in these ways and no others:
- a message that is not the last one and starts in the last slot of a fill loses a half-word
  (`HalfWordLost`); the last message loses nothing there but writes one word too many
  (`TwoWritesOverrunIff`); with the smallest sizes, writes of 6, 1 and 20 bytes and of 6 and 20
  bytes to one slave do so (`LastSlotOccurs`);
- a message before one for another slave gets its STOP tag only if its last byte falls into an even
  slot (`CutIff`, `TwoSlaves`; a single byte is never stopped, `OneByteNotStopped`);
- a merged write of more than 256 bytes is cut there. If the fill has room left, its rest is lost,
  or, before a message for another slave, possibly a half-word (`CutAt256`, `MergedWriteLost`).
In FIFO mode only the last of these remains for one slave (`FifoTransfer`).

**Clock tree** (`Clock*.dfy`). Clocks are shared objects with a count; enabling and disabling recurse
along parents that a rate change moves. `ClockTree` describes the counts as values, `ClockDriver`
proves that the recursive methods compute them, and `ClockClients.Run` that in every reachable state
a count covers the references of clients and the running children; what a client holds runs, and so do
the fixed parent or the selected source it hangs on (`Fed`). A rate change enables the new
source but never releases the old one, and a dependency that was enabled is never given back
(`RateMoves`, `DownUpIff`). A failing enable leaves the counts that follow from where it failed. Every
failure leaves those from before exactly if, wherever an operation may fail, no dependency was newly
taken on the way there (`AlwaysCleanIff`); three clocks are enough for a failure that does not
(`DirtyFailureOccurs`). The operations of both clock libraries are modelled. The clocks of the second
one report no parent: enabling a gate does not reach its root, setting its rate goes to the root
(`Target`), and a root that changes its rate takes a reference on the new source even if it is not
enabled, and reports a success even if that source cannot be enabled (`SwitchRate2`).

**PWM divider search** (`Pwm*.dfy`). `PwmSearch` says which of the 96 candidates is the best one and
how near it comes; `PwmDriver` proves that the loops with their early break find it, and how the
32-bit target relates to the period, to the nanosecond; `PwmDevice` covers the duty cycle and the
registers, and what period the hardware makes of the settings then in force, with clocks and dividers
of its own (`HardwareMet`). From 274,877,952 microseconds on the target wraps and the period is less
than half of the requested one (`ProgrammedIff`, `Configure`).

**SD/MMC block path** (`Sdhci*.dfy`, `Mmc*.dfy`), after the SD Host Controller Simplified
Specification 3.00, sections 1.13, 2.2.7 and 2.2.14: ADMA2 tables, the clock divider, long
responses, and the cutting of block requests into commands. What a command does is read off its index,
its argument and the block count register, as the card and the controller do (`CommandMeans`). Two findings: a request is reported as a
success exactly if every standing answer is good, and after a failed command for several blocks that
is the answer to the stop command (`ReportedIff`), so a request can be a success without having moved
its blocks (`HiddenFailureIff`), and every accepted request has such a run (`HiddenFailureOccurs`). And
an empty request succeeds except at block 0, where the
number of its last block wraps around (`Check`).

**BAM descriptor ring** (`Bam*.dfy`). `BamRing` has the descriptors and the ring as values,
`BamPipe.Pipe` the driver and the hardware that walks the ring. A request that fills the whole ring,
or whose flags are refused, is reported as a success although the hardware does not get what was asked
(`ServedIff`); so is one on a pipe that was not initialised (`AddDesc`). `BamSteps` takes the steps
of driver and hardware in any order: requests are read exactly if and only if each that is accepted
leaves a slot free and comes after the hardware has read the one before and the driver has then read
the offset back (`StepsIff`, `OrderlyMeans`). In the largest ring, of 0x4000 descriptors, the driver
loses track from slot 0x1FFF on, where 16 bits of the offset wrap around, so there each request must
also start below that slot; one that starts at the very last slot makes the hardware read what the
ring held before (`LastSlotStale`).

`Bits` holds masks, powers of two and division facts, `Seqs` facts on concatenation, that the others
share.

## Assumptions

- I2C messages have 1 to 65535 bytes, as the 16-bit length field allows a non-empty one. The reset
  before a transfer empties the input FIFO. The
  controller answers a read command with as many bytes as it asks for, in bursts of any size.
- Clocks have a rank: parents, sources and dependencies of a clock rank below it, so the tree has no
  cycles. A client that holds no reference does not disable a clock. A table of frequencies ends
  with its end marker.
- A gate of the second clock library that has no sibling has a parent, which the driver uses unchecked.
- The BAM ring has a power of two of descriptors, as the driver asserts.
- The blocks of a card are at least 512 bytes and divide the largest command; its capacity is one
  that its addressing mode can reach. The driver itself always uses blocks of 512 bytes.
- Reading and writing commands of the SD path differ only in their index, so they share one method.

## Model

| member | source | states |
|---|---|---|
| QupWords.HeaderDecodes | Driver/I2cQupDxe/i2c_qup.c:367-426 | a write or read header carries START and the address exactly for 7-bit addresses |
| QupWords.HeadersDecode | Driver/I2cQupDxe/i2c_qup.c:367-426 | the controller takes either header for the slave and the direction that were meant exactly for 7-bit addresses |
| QupWords.BytesDecode | Driver/I2cQupDxe/i2c_qup.c:441-522 | the controller sends each tagged byte whole, with a STOP exactly if tagged so |
| QupWords.ReceiveDecodes | Driver/I2cQupDxe/i2c_qup.c:371-374 | the controller takes as many bytes as are asked for, 256 included |
| QupWords.OpInjective | Driver/I2cQupDxe/i2c_qup.c:367-525 | different entries that are no NOPs mean different things to the controller |
| QupWords.DropNopsConcat | Driver/I2cQupDxe/i2c_qup.c:404-525 | dropping NOPs works piece by piece |
| QupSchedule.SizesOf | Driver/I2cQupDxe/i2c_qup.c:699-719 | every mode register gives an even block of at least 4 entries and a FIFO of at least two blocks |
| QupSchedule.SizesAre | Driver/I2cQupDxe/i2c_qup.c:699-719 | the sizes for each value of the two fields |
| QupSchedule.BurstAt | Driver/I2cQupDxe/i2c_qup.c:404-525 | a call sends at least one byte and no more than fit in the slots left |
| QupSchedule.Pass | Driver/I2cQupDxe/i2c_qup.c:766-864 | a pass always moves on, to a later message or further into one |
| QupSchedule.PassAt | Driver/I2cQupDxe/i2c_qup.c:726-870 | a pass ends where the next one may start, so the transfer loop ends |
| QupDevice.Device.Write | Driver/I2cQupDxe/i2c_qup.c:404-525 | a word adds its two tagged halves, low half first, and no filler |
| QupDevice.Device.IssueHeader | Driver/I2cQupDxe/i2c_qup.c:415-440 | a call starts with the header, or with a NOP when it goes on with a message, next to a half-word held back |
| QupDevice.Device.IssueBytes | Driver/I2cQupDxe/i2c_qup.c:441-458 | the loop sends each byte but the last once, in order, across words and held halves |
| QupDevice.Device.IssueOpen | Driver/I2cQupDxe/i2c_qup.c:408-458 | a call up to its last byte sends the header and the bytes that fit the empty slots |
| QupDevice.Device.IssueLast | Driver/I2cQupDxe/i2c_qup.c:459-522 | the last byte with its tag, padding or a held half, in each of its six cases |
| QupDevice.Device.IssueWrite | Driver/I2cQupDxe/i2c_qup.c:404-525 | a whole call at register level adds exactly the entries of the schedule and the words they take |
| QupDevice.Device.IssueRead | Driver/I2cQupDxe/i2c_qup.c:367-402 | START and REC follow the held half, for 256 bytes or what is left; every call finds room for both in its fill |
| QupDevice.Device.FillRound | Driver/I2cQupDxe/i2c_qup.c:781-812 | one round of the fill loop keeps sent plus outstanding entries constant |
| QupDevice.Device.Fill | Driver/I2cQupDxe/i2c_qup.c:766-812 | a fill adds what the schedule says, and exceeds its words exactly when a last message starts in its last slot; the overruns of the pass are those of this fill and of the later ones |
| QupDevice.Device.Drain | Driver/I2cQupDxe/i2c_qup.c:845-862 | the receive loop stores two bytes a word until the FIFO is empty or the buffer full |
| QupDevice.Device.ReceiveBurst | Driver/I2cQupDxe/i2c_qup.c:845-863 | a burst puts the next bytes of the answer behind those that came before |
| QupDevice.Device.ScanChain | Driver/I2cQupDxe/i2c_qup.c:550-558 | the look-ahead over merged writes gives their length and their end |
| QupDevice.Device.SetWrMode | Driver/I2cQupDxe/i2c_qup.c:546-584 | the mode is block mode exactly if the chain does not fit the FIFO, with the write count of the schedule |
| QupDevice.Device.SetMode | Driver/I2cQupDxe/i2c_qup.c:726-753 | a read is cut to 256 bytes; the first fill of a block-mode write waits for the controller |
| QupDevice.Device.RunPass | Driver/I2cQupDxe/i2c_qup.c:766-864 | a pass refines the schedule; a read gets its chunk and no other buffer changes |
| QupDevice.Device.TransferRound | Driver/I2cQupDxe/i2c_qup.c:726-890 | a round of the transfer loop keeps the promise for the whole transfer |
| QupDevice.Device.Xfer | Driver/I2cQupDxe/i2c_qup.c:668-901 | a transfer that succeeds emits exactly the schedule, one that fails a prefix; the controller then does on the bus what the messages ask for exactly if the transfer is aligned and all slaves have 7-bit addresses; too many words go into some fill exactly if the schedule says so; distinct read buffers hold all bytes the slaves sent, in order, however they came in, and nothing is left unread |
| QupDevice.Device.Transfers | Driver/I2cQupDxe/i2c_qup.c:668-901 | a run of transfers emits one schedule after the other |
| QupInput.ReceiveStep | Driver/I2cQupDxe/i2c_qup.c:845-862 | the bytes of one burst are the next ones of the whole answer, whatever the bursts |
| QupInput.DeliveredChunk | Driver/I2cQupDxe/i2c_qup.c:743-747 | a chunk of at most 256 bytes extends what a buffer has received |
| QupInput.WordUnpacks | Driver/I2cQupDxe/i2c_qup.c:852-858 | the driver takes out of an input word the two bytes that were packed into bits 0-7 and 16-23, whatever the other bits |
| QupInput.ReceivedBytes | Driver/I2cQupDxe/i2c_qup.c:743-862 | what a read receives are the bytes the slave sent for its commands |
| QupInput.DeliveredFilled | Driver/I2cQupDxe/i2c_qup.c:668-901 | after a transfer every read buffer holds the bytes that the slave sent for it |
| QupTheorems.PassIff | Driver/I2cQupDxe/i2c_qup.c:766-864 | a pass emits what its messages ask for exactly if it is faithful |
| QupTheorems.TransferIff | Driver/I2cQupDxe/i2c_qup.c:668-901 | NOPs dropped, a transfer is START and address, every byte once in order, STOP where due, and a command for each read chunk, exactly for faithful message lists |
| QupBus.IntendedOnBus | Driver/I2cQupDxe/i2c_qup.c:367-525 | the controller takes the intended entries for the addresses, bytes, STOPs and lengths the messages ask for |
| QupBus.TransferOnBusIff | Driver/I2cQupDxe/i2c_qup.c:668-901 | on the bus, a transfer of any messages, reads included, is what they ask for exactly if it is aligned and all slaves have 7-bit addresses |
| QupCases.LastFaithful | Driver/I2cQupDxe/i2c_qup.c:404-525 | the last message is sent right wherever it starts |
| QupCases.SingleWrite | Driver/I2cQupDxe/i2c_qup.c:404-525 | a single write of any length, over any number of refills, is sent as START, address and its bytes with STOP on the last, and on the bus as these bytes to that slave |
| QupLayout.AlignedIff | Driver/I2cQupDxe/i2c_qup.c:404-525 | a pass is right exactly if no message but the last starts in the last slot of a fill or is cut with a loss, and one before another slave ends in an even slot |
| QupLayout.BurstOutcome | Driver/I2cQupDxe/i2c_qup.c:404-525 | exactly when one call loses nothing and tags its last byte right |
| QupLayout.PassEndsAt | Driver/I2cQupDxe/i2c_qup.c:766-864 | a pass ends where the lengths, directions and addresses say, faithful or not |
| QupLayout.AlignedTransferIff | Driver/I2cQupDxe/i2c_qup.c:726-864 | whole transfers of any messages are right exactly under that condition on each pass, with the passes found by arithmetic |
| QupLayout.OverfillsIff | Driver/I2cQupDxe/i2c_qup.c:781-812 | a fill of a pass writes a word too many exactly if the last message of the transfer comes to its last slot |
| QupLayout.TransferOverrunsIff | Driver/I2cQupDxe/i2c_qup.c:726-864 | the same for whole transfers |
| QupCases.FifoTransfer | Driver/I2cQupDxe/i2c_qup.c:552-568 | in FIFO mode, chains for one slave, each optionally ended by a read, are sent as asked exactly if no write inside a chain exceeds 256 bytes; no fill of the transfer writes more than it has room for |
| QupCases.ChainAlignedIff | Driver/I2cQupDxe/i2c_qup.c:792-807 | a chain that fits the FIFO is right exactly if no merged message inside it exceeds 256 bytes |
| QupCases.FifoNeverOverruns | Driver/I2cQupDxe/i2c_qup.c:559-568 | no fill of a FIFO-mode transfer, for any slaves, writes more words than it has room for |
| QupCases.CutIff | Driver/I2cQupDxe/i2c_qup.c:486-498 | a write before one for another slave is stopped exactly by the parity of its last slot |
| QupCases.TwoSlaves | Driver/I2cQupDxe/i2c_qup.c:486-515 | two writes for two slaves are sent as asked exactly under that parity |
| QupCases.OneByteNotStopped | Driver/I2cQupDxe/i2c_qup.c:486-515 | a one-byte write before another slave never gets its STOP |
| QupCases.CutAt256 | Driver/I2cQupDxe/i2c_qup.c:792-807 | a merged write cut at 256 bytes loses nothing exactly if the fill has no room left, or just that for the NOP before a read, or, before another slave, if the cut falls on an odd slot |
| QupCases.MergedWriteLost | Driver/I2cQupDxe/i2c_qup.c:792-807 | writes of 1, 300 and 1 bytes to one slave with a FIFO of 512 entries are not sent as asked |
| QupCases.TwoWritesOverrunIff | Driver/I2cQupDxe/i2c_qup.c:404-525 | two writes for one slave write a word too many exactly if they do not fit the FIFO and the bytes of the first leave one slot of a block |
| QupCases.HalfWordLost | Driver/I2cQupDxe/i2c_qup.c:404-525 | in block mode a write that comes to the one slot left of a block, with another behind it, is not sent as asked |
| QupCases.LastSlotOccurs | Driver/I2cQupDxe/i2c_qup.c:699-719 | with the smallest sizes, writes of 6 and 20 bytes overfill a block, and writes of 6, 1 and 20 bytes are not sent as asked |
| QupCases.LastEntries | Driver/I2cQupDxe/i2c_qup.c:404-525 | a last message takes a slot for each byte and one for each fill |
| QupCases.WriteCountOf | Driver/I2cQupDxe/i2c_qup.c:559-582 | the programmed count is the number of entries sent, plus one exactly if the bytes fill their blocks |
| QupCases.ChainEntries | Driver/I2cQupDxe/i2c_qup.c:404-525 | a pass over a whole chain takes a slot for each byte and later header, one to open each fill, and the read command or NOP behind it |
| QupCases.WriteCountOfChain | Driver/I2cQupDxe/i2c_qup.c:546-584 | for a chain one pass takes whole, the programmed count is the entries of the pass, plus one exactly if they fill their blocks, plus two exactly if the read that follows does not fit |
| ClockTree.SlackUp | Driver/ClockDxe/clock.c:67-91 | enabling adds one reference to the clock beyond its children's, plus the dependencies it takes |
| ClockTree.SlackDown | Driver/ClockDxe/clock.c:93-111 | disabling takes one reference from the clock and from no other, though the parent is released first |
| ClockTree.CoveredUp | Driver/ClockDxe/clock.c:67-91 | enabling keeps every count at least the number of running children |
| ClockTree.CoveredDownIff | Driver/ClockDxe/clock.c:93-111 | disabling keeps it exactly if the clock has a reference that is not a child's |
| ClockTree.RunningChain | Driver/ClockDxe/clock.c:67-91 | a running clock has a running chain of parents |
| ClockTree.DownUpBack | Driver/ClockDxe/clock.c:67-111 | enable then disable restores every count if no dependency was taken |
| ClockTree.DownUpIff | Driver/ClockDxe/clock.c:67-111 | and only then |
| ClockTree.NoDependsLeakFree | Driver/ClockDxe/clock-local.c:120-132 | without dependencies nothing is left behind |
| ClockTree.RollbackKept | Driver/ClockDxe/clock.c:81-86 | releasing the parent of a clock that failed loses nobody's reference |
| ClockTree.FailureKept | Driver/ClockDxe/clock.c:75-91 | a failure at any depth, nested dependencies included, loses nobody's reference |
| ClockTree.CleanFailureIff | Driver/ClockDxe/clock.c:75-91 | a failure leaves every count as it was exactly if no dependency was newly taken on the way to it |
| ClockTree.AlwaysCleanIff | Driver/ClockDxe/clock.c:75-91 | every failure of an enable leaves the counts as they were exactly if, before the call, no dependency is still to be taken above any operation that may fail |
| ClockTree.DirtyFailureOccurs | Driver/ClockDxe/clock.c:75-91 | a clock whose operation fails below a parent with a dependency leaves that dependency enabled |
| ClockTree.LeakFreeClean | Driver/ClockDxe/clock.c:75-91 | so does every failure below a clock whose own path takes none |
| ClockTree.SlackReparent | Driver/ClockDxe/clock-local.c:161-169 | moving the parent edge moves one child of a running clock and nothing else |
| ClockTree.RateMoves | Driver/ClockDxe/clock-local.c:154-169 | a rate change of an enabled clock keeps the tree covered; the old source keeps its reference |
| ClockTree.RateMovesIdle | Driver/ClockDxe/clock-local.c:154-169 | one of a clock never enabled changes no balance |
| ClockTree.LedgerRuns | Driver/ClockDxe/clock.c:67-111 | a count covers its clients and running children; what is counted runs with all its parents |
| ClockDriver.Disable | Driver/ClockDxe/clock.c:93-111 | the recursive method leaves exactly the counts of the specification |
| ClockDriver.HoldsFed | Driver/ClockDxe/clock-local.c:219-245 | a running gate has a running fixed parent, a running root a running source, and both are marked as enabled |
| ClockDriver.LocalClkEnable | Driver/ClockDxe/clock-local.c:120-132 | a root clock enables its dependency first, gives up if that fails, with the counts that failure leaves, and is marked enabled otherwise |
| ClockDriver.Enable | Driver/ClockDxe/clock.c:67-91 | a success leaves the specified counts, with all that running clocks hang on running; a failure those that follow from where it happened, the ones from before exactly if no dependency was newly taken on the way there, as on a path without any |
| ClockDriver.SwitchRate | Driver/ClockDxe/clock-local.c:144-179 | a failure keeps line and edge and leaves the counts of a failed enable of the source; a success selects the line and enables its source exactly for an enabled clock |
| ClockDriver.SwitchRate2 | Driver/ClockDxe/clock_lib2.c:113-143 | a root of the second library selects the line whatever happens, with a new reference on its source, or with the counts a failed enable of it leaves |
| ClockClients.SetRate | Driver/ClockDxe/clock-local.c:182-194 | the first line with the rate is selected, for a gate of the second library on the root it hangs on; a rate the table does not offer changes nothing |
| ClockClients.TargetInAll | Driver/ClockDxe/clock_lib2.c:86-94 | a rate set on a gate ends at a clock of the tree that is no such gate |
| ClockClients.Get | Driver/ClockDxe/clock.c:137-155 | the first entry with the name, or none exactly if there is none |
| ClockClients.GetSetEnable | Driver/ClockDxe/clock.c:157-189 | a success tuned the clock, or the root its gate hangs on, if asked and leaves its client one reference if asked |
| ClockClients.RunStarts | Driver/ClockDxe/clock.c:129-135 | a tree of new clocks is a state that runs may start from, with no references held |
| ClockClients.Run | Driver/ClockDxe/clock.c:67-189 | after any run of enable, owned disable, rate change and set-up calls every count covers clients and running children, what a client holds runs, and running clocks have running parents, fixed ones and selected sources |
| PwmSearch.BestUnique | Driver/Pm8x41Dxe/pm_pwm.c:134-164 | the first candidate with the smallest error is one |
| PwmSearch.ErrorGrows | Driver/Pm8x41Dxe/pm_pwm.c:156-158 | the error is V-shaped in the exponent |
| PwmSearch.SkipRest | Driver/Pm8x41Dxe/pm_pwm.c:156-158 | so the break skips no better candidate |
| PwmSearch.ProductFits | Driver/Pm8x41Dxe/pm_pwm.c:113-161 | no product, even doubled once more, leaves 32 bits |
| PwmSearch.Covers | Driver/Pm8x41Dxe/pm_pwm.c:52-73 | between 12/5 and 1024 clock periods some candidate is within a quarter |
| PwmSearch.BestNearIff | Driver/Pm8x41Dxe/pm_pwm.c:52-170 | the best candidate is within a quarter exactly for 42 to 69 and 84 to 999,999,488 |
| PwmSearch.QuarterIsTight | Driver/Pm8x41Dxe/pm_pwm.c:52-170 | the quarter is reached |
| PwmDriver.ScanExponents | Driver/Pm8x41Dxe/pm_pwm.c:142-162 | a pass with its early break ends in the state of an exhaustive one |
| PwmDriver.CalcPeriod | Driver/Pm8x41Dxe/pm_pwm.c:114-170 | the search returns what an exhaustive first-minimum search over all 96 candidates does |
| PwmDriver.TargetTrueIff | Driver/Pm8x41Dxe/pm_pwm.c:124-132 | the target is the period less what rounding takes, exactly, if and only if the period is below 274,877,952 us |
| PwmDriver.TargetReachable | Driver/Pm8x41Dxe/pm_pwm.c:124-132 | every accepted period has a target that some candidate is near to |
| PwmDriver.ProgrammedIff | Driver/Pm8x41Dxe/pm_pwm.c:114-256 | accepted periods are met to a quarter and the rounding, under 64 ns up to 4,294,966 us and at most 63 us above, below that limit, and to less than half, even two fifths, from it on |
| PwmDriver.QuotientNear | Driver/Pm8x41Dxe/pm_pwm.c:179-188 | the division that avoids overflow gives the exact number of steps or one more |
| PwmDevice.CalcPwmValue | Driver/Pm8x41Dxe/pm_pwm.c:172-192 | the value is the exact one or one more, limited to the size |
| PwmDevice.OneMoreOccurs | Driver/Pm8x41Dxe/pm_pwm.c:185-188 | one more does occur |
| PwmDevice.PackedReads | Driver/Pm8x41Dxe/pm_pwm.c:196-223 | the packed registers read back as the configuration |
| PwmDevice.HardwareMet | Driver/Pm8x41Dxe/pm_pwm.c:52-256 | the period the hardware makes of the chosen clock, pre-divide and exponent fields, with its own tables, meets the requested one to a quarter, the rounding and a 625th below the limit, and misses it by half from it on |
| PwmDevice.ControlsInForce | Driver/Pm8x41Dxe/pm_pwm.c:196-230 | after the writes the settings packed in them are in force |
| PwmDevice.Pwm.ConfigRegs | Driver/Pm8x41Dxe/pm_pwm.c:196-230 | the control registers are written in order, then the one that makes them take effect |
| PwmDevice.Pwm.Configure | Driver/Pm8x41Dxe/pm_pwm.c:236-256 | a request from 7 us to 384 s is accepted and programs the best divider and the nearest duty value; with the settings then in force the hardware meets the period exactly below the limit; a refused one writes nothing |
| SdhciHost.PrepDescTable | Driver/SdhciMMCHSDxe/sdhci.c:550-641 | the table describes the buffer in lines of 65536 bytes; a length of 0 is described like 65536 |
| SdhciHost.WalkTiles | Driver/SdhciMMCHSDxe/sdhci.c:597-629 | the controller, stopping at the line marked END, covers exactly the buffer |
| SdhciHost.DividerRoundTrip | Driver/SdhciMMCHSDxe/sdhci.c:163-174 | the split field decodes back to the divider |
| SdhciHost.FindDivider | Driver/SdhciMMCHSDxe/sdhci.c:150-160 | the least even divider that brings the clock down to the wanted rate, or the largest |
| SdhciHost.ClkSupply | Driver/SdhciMMCHSDxe/sdhci.c:144-190 | both register writes hold that divider, the first with the clock off, the second with it on |
| SdhciHost.RateBound | Driver/SdhciMMCHSDxe/sdhci.c:154-158 | unless saturated the true rate is below the wanted one plus 1 |
| SdhciHost.HalfIs | Driver/SdhciMMCHSDxe/sdhci.c:150-160 | the search ends with half the divider at base / (2 * (clk + 1)) + 1, limited to 1023, or 0 |
| SdhciHost.RateAboveIff | Driver/SdhciMMCHSDxe/sdhci.c:154-158 | the true rate lies above the wanted one exactly if the base clock exceeds that multiple of it |
| SdhciHost.RateAbove | Driver/SdhciMMCHSDxe/sdhci.c:154-158 | it does for a base of 101 and a wanted 50 |
| SdhciHost.ReadLongResponse | Driver/SdhciMMCHSDxe/sdhci.c:440-450 | an R2 response is the 16 register bytes moved up by one, across words |
| MmcChunks.TileIff | Driver/SdhciMMCHSDxe/MMCHS.c:185-203 | the commands tile the requested blocks exactly if the largest one is a whole number of blocks or one is enough |
| MmcChunks.ChunksWithin | Driver/SdhciMMCHSDxe/MMCHS.c:125-143 | whatever the block size, no command leaves the requested blocks |
| MmcChunks.MemoryIff | Driver/SdhciMMCHSDxe/sdhci.c:651-693 | the commands move exactly the caller's buffer if and only if blocks have 512 bytes |
| MmcCommands.ParseResponse | Driver/SdhciMMCHSDxe/mmc_sdhci.c:1717-1768 | a status is good exactly if no error bit is set and the card is in transfer state |
| MmcCommands.IndexMeans | Driver/SdhciMMCHSDxe/mmc_sdhci.c:1812-1888 | the index writes exactly for writes, reads for reads, and moves several blocks exactly for more than one |
| MmcCommands.MovedIff | Driver/SdhciMMCHSDxe/mmc_sdhci.c:1847-1860 | the commands that did not fail tile the requested blocks exactly if none failed |
| MmcCommands.ReportedIff | Driver/SdhciMMCHSDxe/mmc_sdhci.c:1847-1860 | a request is reported as a success exactly if every standing answer is good: that of the stop command after a failed command for several blocks, else the command's own |
| MmcCommands.HiddenFailureIff | Driver/SdhciMMCHSDxe/mmc_sdhci.c:1847-1860 | a request is a success without having moved its blocks exactly if every standing answer is good and some command failed |
| MmcBlockIo.Card.HiddenFailureOccurs | Driver/SdhciMMCHSDxe/mmc_sdhci.c:1850-1853 | every accepted request has a run in which a data command fails and success is reported |
| MmcCommands.PerformedCommands | Driver/SdhciMMCHSDxe/MMCHS.c:125-150 | the commands issued are all of the request's, or a non-empty prefix if it fails |
| MmcCommands.PerformedMemory | Driver/SdhciMMCHSDxe/sdhci.c:651-693 | the walked tables of a request tile the caller's buffer |
| MmcBlockIo.Card.Argument | Driver/SdhciMMCHSDxe/mmc_sdhci.c:1817-1825 | the card takes the argument for exactly the block that was meant, in both address modes |
| MmcBlockIo.Card.AdmaTransfer | Driver/SdhciMMCHSDxe/sdhci.c:651-693 | the table covers the command's memory; the registers hold 512 bytes a block and the number of blocks |
| MmcBlockIo.Card.Issue | Driver/SdhciMMCHSDxe/mmc_sdhci.c:1800-1928 | one command that reads or writes as asked, counts the blocks of its chunk and names the first, a stop command if it fails for several blocks, and what is reported |
| MmcBlockIo.Card.Transfer | Driver/SdhciMMCHSDxe/MMCHS.c:99-211 | the loop issues the request's commands in order up to the first that is reported as failed |
| MmcBlockIo.Card.Check | Driver/SdhciMMCHSDxe/MMCHS.c:236-258 | exactly which requests are accepted and what the others are told, with 64-bit wrap-around |
| MmcBlockIo.Card.ReadBlocks | Driver/SdhciMMCHSDxe/MMCHS.c:222-268 | a success issues commands that tile the blocks and the buffer, and has moved them all exactly if no command failed; a device error leaves a prefix of the commands; a refusal issues none |
| MmcBlockIo.Card.WriteBlocks | Driver/SdhciMMCHSDxe/MMCHS.c:272-326 | the same, and writes from block 253951 or below on slots up to 1 are refused |
| MmcBlockIo.Card.CommandMeans | Driver/SdhciMMCHSDxe/mmc_sdhci.c:1800-1928 | read off index, argument and block count alone, a command stays on the card, and one that writes on slots up to 1 starts above block 253951 |
| MmcBlockIo.Card.Run | Driver/SdhciMMCHSDxe/MMCHS.c:222-326 | over any run every command stays on the card, and every one whose index writes on slots up to 1 starts above block 253951, whatever was asked for |
| Bits.MaskIsMod | Driver/BamDxe/bam.c:253-256 | a mask one below a power of two is the remainder |
| BamRing.SplitTiles | Driver/BamDxe/bam.c:334-357 | the descriptors of a buffer are contiguous pieces of 65535 bytes, end with it, and only the last has the flags |
| BamRing.FlagsMean | Driver/BamDxe/bam.c:393-412 | flags are refused exactly for lock with unlock or end of transfer with command, by their bits |
| BamRing.PlacedOne | Driver/BamDxe/bam.c:422-429 | a descriptor written at the current slot extends what was placed |
| BamPipe.Pipe.FifoInit | Driver/BamDxe/bam.c:170-209 | a ring of at most 0x7FFF descriptors is initialised in step with a reset pipe |
| BamPipe.Pipe.AddOneDesc | Driver/BamDxe/bam.c:375-433 | exactly which descriptors are written, and where the next one goes |
| BamPipe.Pipe.SysGenEvent | Driver/BamDxe/bam.c:243-259 | the masked 32-bit offset is the ring offset behind the descriptors; a full ring is not announced |
| BamPipe.Pipe.ReadOffsetUpdate | Driver/BamDxe/bam.c:268-282 | the driver is back in step exactly below slot 0x2000 |
| BamPipe.Pipe.AddDesc | Driver/BamDxe/bam.c:309-365 | exactly which requests are refused; otherwise the ring, the current slot and the event afterwards |
| BamPipe.EventOffset | Driver/BamDxe/bam.c:253-256 | 32-bit arithmetic under the mask is arithmetic modulo the ring |
| BamPipe.Pipe.Transfer | Driver/BamDxe/bam.c:243-365 | add, consume and read back: what the hardware reads, with the invariant restored |
| BamPipe.ServedIff | Driver/BamDxe/bam.c:309-365 | an accepted request reaches the hardware as it is exactly if it leaves a slot free and its flags are valid, or the slot held the same before |
| BamPipe.Pipe.Run | Driver/BamDxe/bam.c:243-433 | over any run of rounds the hardware reads exactly the descriptors of the requests, in order |
| BamPipe.Pipe.AddTwice | Driver/BamDxe/bam.c:253-281 | two requests without reading the offset back: the hardware reads only as many descriptors as the second one has, never both |
| BamPipe.Open | Driver/BamDxe/bam.c:170-233 | a pipe that is reset and set up is in step, for rings of up to 0x4000 descriptors |
| BamSteps.StepsIff | Driver/BamDxe/bam.c:243-433 | over any sequence of add, consume and read-back steps, refused and ring-filling requests included, accepted requests are read exactly, whenever the hardware reads, if and only if the run is orderly |
| BamSteps.OrderlyMeans | Driver/BamDxe/bam.c:243-299 | orderly means that each accepted request leaves a slot free and starts where 16 bits of offset suffice, and that between two of them the hardware reads and then the driver reads the offset back |
| BamSteps.OutOfTurn | Driver/BamDxe/bam.c:253-281 | the first accepted request that breaks this is not read exactly |
| BamSteps.TrackedIff | Driver/BamDxe/bam.c:268-282 | read-back keeps the slot and the next event right below 0x2000 slots, and in a larger ring exactly below slot 0x1FFF but for the last slot |
| BamSteps.LastSlotStale | Driver/BamDxe/bam.c:268-282 | for a request of up to 0x2000 descriptors at the last slot of the largest ring the hardware reads what the ring held there before |
| BamSteps.Do | Driver/BamDxe/bam.c:243-433 | each step of the pipe is that of the slot-level machine |
| BamSteps.RunSteps | Driver/BamDxe/bam.c:243-433 | a pipe in step runs any sequence of steps as the machine does; in an orderly run all requests are read, in order |

## Left out

- I2C: bus recovery, busy-wait polls, the interrupt handler and the suspended state; a poll that fails is an open choice of the model.
- I2C: the I/O mode and read count registers, and messages of length 0.
- I2C: a write whose data lie in a buffer that an earlier message reads into; data to write are values.
- `QupDevice.Device.Xfer`: what the buffers of a transfer hold is stated for distinct read buffers only, since a shared one is overwritten.
- I2C: a reset before a transfer that fails, after which the driver only warns and goes on.
- `QupCases.WriteCountOfChain`: is about chains that one pass takes as a whole; another pass takes a part of its chain, which the programmed count does not follow.
- Clocks: registers, halt checks, resets, round_rate and rate read-back, which have no state of their own.
- Clocks: the wrap-around of a 32-bit count, which takes 2^32 references.
- Clocks: the operations of PLLs, votes and the crystal, which touch registers only; they may fail at any time.
- PWM: the upper value register in 6-bit mode, which is written without having been set.
- SD/MMC: command set-up, polling, tuning, power, erase and card identification; whether a command fails and what the card answers is open.
- SD/MMC: cache maintenance, task priority levels and the rounding of writes to whole blocks, which no caller reaches.
- `SdhciHost.PrepDescTable`: takes buffers inside the 32-bit address space.
- `BamSteps.StepsIff`: takes accepted requests with valid flags, since what a slot held before may happen to be what was asked for; for the same reason no request at the last slot of the largest ring.
- BAM: other pipes of an instance, interrupts, and command elements.
- The other drivers of the firmware: register sequences and user interface, which would add only easy members.
