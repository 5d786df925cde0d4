# Verified models of the soft-modem datapump and its tools

This project models the parts of the modem sources and of their measuring and splitting
tools that carry the hardest arguments, and proves what those parts promise. It is one
Dafny project: `dafny verify dfyconfig.toml` checks all of it.

| file | what it models |
|---|---|
| `Numbers.dfy`, `Seqs.dfy`, `Wrappers.dfy` | powers of two, division, sequences, and the optional value |
| `Bits.dfy` | machine words as bit strings, most significant bit first |
| `Fcs.dfy`, `FcsDetection.dfy`, `FcsLiterals.dfy` | the nibble-at-a-time frame check sequence of the Class 1 fax framer, and its value on a few frames |
| `JdCrc.dfy`, `OctetReverse.dfy` | the bit-serial CRC of the V.92 Jd sequence, and the octet bit reverser |
| `HdlcLine.dfy`, `HdlcTransmitter.dfy`, `HdlcReceiver.dfy`, `HdlcLink.dfy` | HDLC framing as step machines, and the two ends joined by a line |
| `HdlcReadings.dfy`, `HdlcRepair.dfy`, `HdlcResync.dfy` | which reading the repair pass takes and what it restores, what it does to burst detection, and recovery after noise |
| `FaxFramer.dfy`, `FaxTransfer.dfy` | the same framing as the objects that run it: ring, packer, unpacker, frame repair; and a transfer between two of them |
| `ShellMapper.dfy` | the V.34 shell mapper, demapper and their count tables |
| `Radix.dfy`, `ModulusCoder.dfy`, `ConstellationPower.dfy` | mixed-radix digits, the V.90 modulus encoder and decoder, the mean power of a mapped frame |
| `History.dfy` | the recursive filter over descending-cursor histories |
| `StartStop.dfy`, `FasterSender.dfy` | the V.21 start-stop character decoder, for senders slower and faster than it |
| `CfgSplit.dfy`, `CfgReach.dfy`, `SetSum.dfy` | basic blocks, reachability and byte accounting of one function |
| `CallOrder.dfy` | the callees-first reconstruction order |
| `G711.dfy` | the two companding laws |
| `TheilSen.dfy` | the median-of-slopes estimator |
| `Comments.dfy` | the comment and literal stripper |
| `SnrBlocks.dfy`, `SnrSpans.dfy`, `SnrParts.dfy` | the rate-decision log reader, how it cuts a log into decisions, and whose handshake their parts are of |

## How to read it

The main theorems, hardest first.

* **The HDLC link, over every run.** A run is any interleaving of writing frames into the
  transmit ring and asking for line bits. At every moment of every run what the far end has
  been handed is a prefix of what was written, in order and unaltered
  (`HdlcLink.NothingInvented`); and after any run finitely many more line bits hand over all
  of it (`HdlcLink.EventuallyDelivered`). Whatever bits arrive, an accepted frame has a good
  check sequence (`HdlcReceiver.OnlyCheckedFrames`), and a repaired frame is the received bits
  re-read at a shift with at most its first two octets forced (`HdlcReceiver.RepairReads`).
  `FaxFramer.dfy` proves that the loops over rings, masks and buffers perform those steps, and
  `FaxTransfer.Transfer` that the frames unpacked from packed elements are those written.
* **Repair and recovery.** The repair hands on the first good one of 24 readings of the buffer and
  gives up exactly when there is none (`HdlcReadings.RepairTakesFirst`); damage to a standard
  header alone is always undone (`HdlcReadings.HeaderRestored`). The register catches any burst of
  up to sixteen bits, but the forced header octets and the bit-by-bit walks undo that: for every
  good frame of four octets or more some such burst is handed on as another frame
  (`HdlcRepair.NoFrameIsSafe`). The forced readings alone would be harmless on exactly the frames
  with the header they force (`HdlcRepair.BurstHandledExactly`); there the first walk does it.
  After any noise, for every frame size and report limit, what follows the first frame's closing
  flag is handed on exactly when that flag releases the buffer (`HdlcResync.RecoversExactly`). A
  receiver that may report as much as it can hold fails to recover exactly when it was deaf
  already or one of two flags deafens it. The fax class's receiver, whose limit equals its size,
  is deafened by one error-free frame that fills it (`HdlcResync.ClassReceiverDeafens`).
* **The check sequence.** The nibble loop is polynomial division, for every buffer; a frame
  passes exactly when its last two octets are its own check sequence; two messages of any one
  length that differ in one window of sixteen bits, or in an odd number of bits, never leave the
  same register; and the bit-serial Jd register is its mirror image at every step.
* **The shell mapper.** Every index the tables reach is mapped to a point that demaps to it; a
  point comes back from its index exactly when it is on a filled shell; the index order is the
  shell order, refined inside a shell to a written-out order of points (`ShellMapper.IndexOrder`);
  and the two-ended table build counts what the tables are for.
* **The mean power of a frame.** Six digits and place values give five positions their exact mean
  over every codeword. The sixth is what its cut digit makes of it, for every number of codewords;
  the exact condition for its shares to add up to one is stated.
* **The character decoder.** Any transmission, at any real samples-per-bit from two up and with
  a sender slower by a stated margin, decodes to its octets without drift. On any line whatever the
  list decoded is the one the samples frame (`StartStop.ReadsExactly`). A faster sender is
  found later in each start bit; how many characters are still read, as a function of the two bit
  lengths and of the rests between them, is stated (`FasterSender.FasterSenderDecodes`).
* **The block graph.** Reachability over blocks is reachability over instructions, where control
  can go being told per kind of instruction; block sizes sum to the range; exclusive, shared and
  unreached bytes sum to the total.
* **The call order.** Callees first, smallest first, unique, and exactly the list that is so said
  of calls and sizes alone (`CallOrder.PlannedExactly`); a function is left out exactly when
  a cycle of two or more functions is reachable from it; restricting the graph to what one
  function reaches restricts the order.
* **The filter.** Buffered histories of any block size compute the plain difference equation.
* **The log reader.** Every log is cut into decisions at its own lines, each with its parts from
  known lines of its span (`SnrSpans.DecisionsAreCut`); which handshake they are of is exact too.

### Choices

* Words are bit strings (`Bits.dfy`) or naturals with the wrap-around written out; samples, filter
  states, powers and levels are exact reals, so rounding is not modelled.
* The listing, the line samples, the parsed log lines and the tone energies are inputs: parsing,
  files, clocks and signal measurement are outside.
* A function of the call graph is named by its rank in alphabetical order, so that comparing
  ranks is comparing names.
* The tool's report says that what is left over is "in cycles"; the code leaves out more than
  that. The model follows the code: `CallOrder.LeftOutExactly` gives the exact set and
  `CallOrder.LeftOutButOnNoCycle` an example.
* The sixth digit of the power computation is a truncation and not a remainder. The model
  follows the code: `ConstellationPower.TopSharesExactly` says exactly when its shares add up to
  one, and `OneFrameTooFew` and `WrappedToOne` show both sides of it.
* Past the filled shells the demapper adds a signed -1. The model follows the code:
  `ShellMapper.PastShellsCollide` gives two points that share an index.
* The log reader keeps the decision in progress across a gain set-up, so its thresholds, first
  reading and signal power may be of an earlier handshake than its figures, as in
  `SnrBlocks.MixedHandshakes`. `SnrParts.DecisionParts` says from which lines they come in every
  log, and that they are of the figures' handshake exactly when none starts between those lines.
* The report limit of the fax class's receiver equals its frame size, so a frame that fills the
  buffer is refused and never leaves it. The model follows the code.

## Model

| member | source | states |
|---|---|---|
| Fcs.NarrowingCommutes | tools/batch50_fax_fcs_fifo.py:11-12 | cutting to sixteen bits before or after the last OR of a nibble step gives the same register |
| Fcs.NibbleRuns | src/fax/faxvmi_utls.c:33-39 | one nibble step is four bits of long division, taking the word's top four bits |
| Fcs.OctetIsEightSteps | src/fax/faxvmi_utls.c:47-52 | the loop body over one element is eight bit steps over its low octet, whatever the bits above it |
| Fcs.TripsExactly | src/fax/faxvmi_utls.c:45-47 | counting a 16-bit word down from any count, negative ones included, reaches zero after exactly the trips modelled |
| Fcs.GenFcs16 | src/fax/faxvmi_utls.c:41-54 | the nibble loop returns the complemented bit-at-a-time register over the first `count` elements, with the loop's 16-bit count |
| Fcs.RunIsRemainder | src/fax/faxvmi_utls.c:41-54 | the register is the remainder of x^16 times the message, started by adding the initial value at the top |
| Fcs.FcsIsPolynomialDivision | src/fax/faxvmi_utls.c:41-54 | the check sequence is the complemented remainder for the all-ones start and x^16+x^12+x^5+1, section 5.3.7 of ITU-T T.30 |
| FcsDetection.RunLinear | src/fax/faxvmi_utls.c:33-39 | the register update is linear in register and message together |
| FcsDetection.RunInjective | src/fax/faxvmi_utls.c:33-39 | two registers fed the same bits agree afterwards only if they agreed before |
| FcsDetection.WindowDetermined | src/fax/faxvmi_utls.c:33-39 | up to sixteen consecutive bits are determined by the registers before and after them |
| FcsDetection.BurstDetected | src/fax/faxvmi_utls.c:41-54 | two messages of one length that differ only inside a window of at most sixteen bits never leave the same register |
| FcsDetection.OddErrorsDetected | src/fax/faxvmi_utls.c:41-54 | an odd number of wrong bits anywhere changes the register |
| FcsDetection.ResidueExactly | include/dsplib/faxvmi.h:1004-1008 | the register is the residue 0x1D0F after sixteen more bits exactly when those are the complement of the register before |
| FcsDetection.GoodExactlyWhenClosed | src/fax/faxvmi_hdlc.c:271-274 | a frame passes the receiver's constant exactly when its last two octets are the check sequence of the rest |
| FcsDetection.ClosedIsGood | src/fax/faxvmififo.c:131-165 | a payload followed by its check octets, high then low, always passes |
| JdCrc.ShiftRolled | tools/batch_cpp_v92jd_crc_reproduce.py:5-6 | the rolled shift moves cells 1 to 15 down one place |
| JdCrc.ShiftExpanded | src/pump/v90/V92Jd.cpp:366-380 | the fifteen written-out moves do the same as the rolled loop |
| JdCrc.StepMirrors | src/pump/v90/V92Jd.cpp:363-383 | one step keeps every cell 0 or 1 and keeps the cells the mirror image of the most-significant-first register |
| JdCrc.FeedOne | src/pump/v90/V92Jd.cpp:363-383 | one pass of the loop, with taps read before and stored after the shift, steps the mirrored register |
| JdCrc.Feed | src/pump/v90/V92Jd.cpp:357-385 | after any input the cells mirror the register fed the same bits |
| JdCrc.CheckBitsCancel | src/pump/v90/V92Jd.cpp:387-388 | a register fed sixteen more bits ends at zero exactly when they are its own, in the order the cells are sent |
| OctetReverse.ReverseTwice | src/fax/faxvmi_utls.c:62-70 | reversing an octet twice gives its low eight bits |
| OctetReverse.ReverseOctet | src/fax/faxvmi_utls.c:62-70 | the eight-step loop reverses the low octet |
| OctetReverse.ByteReverse | src/fax/faxvmi_utls.c:56-73 | the buffer is rewritten in place, element by element, and nothing past the count changes |
| OctetReverse.ReversedFrameBits | src/fax/faxvmi_utls.c:56-73 | a reversed buffer read most significant bit first is the original read least significant bit first |
| OctetReverse.SerialCrcIsFaxFcs | src/pump/v90/V92Jd.cpp:357-385 | the serial CRC over octets sent least significant bit first mirrors the fax register over reversed octets |
| HdlcReceiver.Attempt | src/fax/faxvmi_hdlc.c:271-307 | the three readings of a frame: what is accepted is good and differs only in the forced octets, what is not is put back; which one is taken is RepairTakesFirst |
| HdlcReceiver.OnlyCheckedFrames | src/fax/faxvmi_hdlc.c:228-410 | whatever bits arrive, what was handed on stays and every newly handed frame is good or of length zero |
| HdlcReceiver.WalkedBits | src/fax/faxvmi_hdlc.c:311-326 | after some one-bit walks the buffer reads the received bits from that many bits on |
| HdlcReceiver.RepairReads | src/fax/faxvmi_hdlc.c:271-378 | a repaired frame is the received bits read from a later bit, with at most address and control octets forced |
| HdlcReceiver.Destuffs | src/fax/faxvmi_hdlc.c:242-260 | destuffing undoes zero insertion for every bit string |
| HdlcReceiver.PushFrame | src/fax/faxvmi_hdlc.c:246-260 | the data bits of a frame land in the buffer octet by octet |
| HdlcReceiver.FlagCloses | src/fax/faxvmi_hdlc.c:262-409 | a flag over a held good frame hands it on unaltered and leaves the receiver between segments |
| HdlcReceiver.FrameHeld | src/fax/faxvmi_hdlc.c:242-409 | after flags and a stuffed frame the receiver holds exactly that frame |
| HdlcReadings.RepairTakesFirst | src/fax/faxvmi_hdlc.c:271-378 | for every buffer: the repair leaves the first good one of 24 readings (shifts 0 to 7, each as it is, with FF forced, with FF C8 forced), and a length of zero exactly when none is good |
| HdlcReadings.AddressRestored | src/fax/faxvmi_hdlc.c:271-291 | for every good frame that begins FF, whatever comes instead of that octet is restored |
| HdlcReadings.HeaderRestored | src/fax/faxvmi_hdlc.c:271-298 | for every good frame that begins FF C8, whatever comes instead of those two octets is restored |
| HdlcReadings.AddressRestoredOnLine | src/fax/faxvmi_hdlc.c:202-420 | on the line, stuffed and between flags, such a frame is handed on as it was sent |
| HdlcReadings.OneFlagIsNotEnough | src/fax/faxvmi_hdlc.c:250-268 | a new receiver hands on nothing of a frame behind one flag |
| HdlcReadings.TwoFlagsAreEnough | src/fax/faxvmi_hdlc.c:202-420 | behind two flags it hands on the frame |
| HdlcReadings.OnesCounted | src/fax/faxvmi_hdlc.c:405-409 | the count of ones is the number of them as a signed sixteen-bit word |
| HdlcReadings.LongMarkIsFlag | src/fax/faxvmi_hdlc.c:242-268 | a zero is taken for the end of a flag after six ones, after 65542, and after no number that is not six past a multiple of 65536 |
| HdlcRepair.BurstBetweenGood | src/fax/faxvmi_hdlc.c:271-274 | two good frames one burst apart are the same frame |
| HdlcRepair.HeaderProtects | src/fax/faxvmi_hdlc.c:271-307 | one burst on a good frame with the forced header is refused or undone by the three readings of the unshifted buffer |
| HdlcRepair.HeaderExposes | src/fax/faxvmi_hdlc.c:286-298 | on a good frame with any other header some burst is accepted as another frame |
| HdlcRepair.BurstHandledExactly | src/fax/faxvmi_hdlc.c:271-307 | of the three unshifted readings: every burst on a good frame is refused or undone exactly when its header is the one they force |
| HdlcRepair.WalkAccepts | src/fax/faxvmi_hdlc.c:308-326 | with the right sixteen bits in place of the last ones the frame read one bit later is good |
| HdlcRepair.ForcedWalkAccepts | src/fax/faxvmi_hdlc.c:311-365 | with another sixteen it is good with both header octets forced |
| HdlcRepair.WalkExposes | src/fax/faxvmi_hdlc.c:271-378 | for every good frame with the forced header and five octets or more some burst is refused as it is and handed on as another frame after the first walk |
| HdlcRepair.NoFrameIsSafe | src/fax/faxvmi_hdlc.c:271-378 | for every good frame of four octets or more some burst of at most sixteen bits is handed on by the whole repair as another frame |
| HdlcRepair.MisreadFrame | src/fax/faxvmi_hdlc.c:308-326 | FF C8 01 73 DC received as FF C8 31 5B 5C is handed on as FF 90 62 B6 |
| HdlcRepair.MisrepairedFrame | src/fax/faxvmi_hdlc.c:286-298 | FF C0 38 43 received as FF C0 B9 4B is handed on as FF C8 B9 4B |
| HdlcResync.AbortDeafens | src/fax/faxvmi_hdlc.c:268-269 | a seventh one over a full buffer leaves it full and unclosed |
| HdlcResync.DeafForever | src/fax/faxvmi_hdlc.c:246-269 | from such a state nothing is ever handed on, whatever arrives |
| HdlcResync.AlwaysConsistent | src/fax/faxvmi_hdlc.c:228-410 | in every state reached octets are kept only once both opening flags were seen |
| HdlcResync.FlagAnywhere | src/fax/faxvmi_hdlc.c:262-409 | one flag from any consistent state leaves the receiver between octets, and deaf exactly when it was or the flag closes a full buffer with a good reading that is too long to report |
| HdlcResync.ClosingFlag | src/fax/faxvmi_hdlc.c:262-409 | a closing flag hands the repaired frame on and empties the buffer, or, when it reaches the report limit, keeps it |
| HdlcResync.NoMoreThanSent | src/fax/faxvmi_hdlc.c:202-420 | from between frames no more frames are handed on than the line carries |
| HdlcResync.CloggedDiffers | src/fax/faxvmi_hdlc.c:381-403 | octets left in the buffer keep a clean line from being handed on as sent |
| HdlcResync.RecoversExactly | src/fax/faxvmi_hdlc.c:202-420 | for every frame size and report limit, from any consistent state, exactly the frames after the first closing flag are handed on if and only if that flag finds octets and does not refuse them |
| HdlcResync.RecoversUnlessDeafened | src/fax/faxvmi_hdlc.c:202-420 | with a report limit of the frame size or more that is so exactly when the receiver was not deaf and neither flag around the first frame deafens it |
| HdlcResync.RecoversWithRoom | src/fax/faxvmi_hdlc.c:202-420 | with a report limit above the frame size only deafness stands in the way |
| HdlcResync.FullFrameDeafens | src/fax/faxvmi_hdlc.c:381-403 | an error-free frame that fills a buffer of the report limit or more is refused and leaves the receiver deaf |
| HdlcResync.ClassReceiverDeafens | src/fax/class1.c:594-595 | the 0x60 and 0x60 of the fax class: a first frame of 0x5E octets, and nothing is ever handed on |
| HdlcLine.NoFlagInside | src/fax/faxvmi_hdlc.c:151-158 | stuffed bits never hold six ones in a row |
| HdlcLine.FiveOnesFirst | src/fax/faxvmi_hdlc.c:151-158 | bits without five ones in a row are sent as they are |
| HdlcLine.ZeroAfterFive | src/fax/faxvmi_hdlc.c:151-158 | after the fifth one in a row a zero is sent |
| HdlcTransmitter.FramesInAppend | src/fax/faxvmififo.c:124-165 | a written frame is one more whole frame at the end of the ring |
| HdlcTransmitter.OwedAppend | src/fax/faxvmififo.c:124-165 | writing never changes the bits already owed to the line |
| HdlcTransmitter.UnderrunExactly | src/fax/faxvmi_hdlc.c:144-150 | over any run of line bits the underrun mark is up exactly when it was before or a word was wanted of an empty ring |
| HdlcTransmitter.TickPays | src/fax/faxvmi_hdlc.c:122-159 | while bits are owed, each step sends exactly the next one, stuffed zeros included |
| HdlcTransmitter.TickStarts | src/fax/faxvmi_hdlc.c:125-159 | with nothing owed a step starts the next frame behind three flags, or an idle flag |
| HdlcLink.LineDecodes | src/fax/faxvmi_hdlc.c:202-420 | any line of idle flags and deliverable frames decodes to exactly those frames |
| HdlcLink.RunExplained | src/fax/faxvmi_hdlc.c:58-177 | in every run what was sent, completed by what is owed, is a line whose frames with those waiting are the frames written |
| HdlcLink.NothingInvented | src/fax/faxvmi_hdlc.c:58-420 | at every moment of every run the far end has been handed a prefix of the written frames |
| HdlcLink.EverythingArrives | src/fax/faxvmi_hdlc.c:58-420 | with the ring empty and the transmitter between words, one more flag hands on every frame |
| HdlcLink.Drains | src/fax/faxvmi_hdlc.c:122-165 | left to send, the transmitter always empties its ring and comes to rest between words |
| HdlcLink.IdleSendsFlag | src/fax/faxvmi_hdlc.c:144-158 | at rest, eight steps send one flag |
| HdlcLink.EventuallyDelivered | src/fax/faxvmi_hdlc.c:58-420 | after any run, finitely many more line bits hand the far end every frame written |
| FaxFramer.Ring.Put | src/fax/faxvmififo.c:124-127 | a store at the write index with its wrap appends one element |
| FaxFramer.Ring.Take | src/fax/faxvmi_hdlc.c:127-143 | a read at the read index with its wrap removes the oldest element |
| FaxFramer.TxFramer.constructor | src/fax/faxvmi.c:223-262 | a created transmitter is in the step machine's start state |
| FaxFramer.TxFramer.CopyPayload | src/fax/faxvmififo.c:147-157 | the copy loop appends the payload |
| FaxFramer.TxFramer.WriteFrame | src/fax/faxvmififo.c:107-170 | a frame that fits is appended as length, payload, high and low check octet; one that does not leaves the ring as it was |
| FaxFramer.TxFramer.Refill | src/fax/faxvmi_hdlc.c:125-150 | the refill over ring and mask is the step machine's |
| FaxFramer.TxFramer.Tick | src/fax/faxvmi_hdlc.c:122-158 | one line bit of the loop is one step of the step machine |
| FaxFramer.TxFramer.PackElement | src/fax/faxvmi_hdlc.c:122-164 | an output element holds exactly the next `width` line bits |
| FaxFramer.TxFramer.Pack | src/fax/faxvmi_hdlc.c:122-172 | the packed elements, read in order, are exactly the line bits the steps send |
| FaxFramer.RxFramer.constructor | src/fax/faxvmi.c:243-264 | a created receiver is in the step machine's start state |
| FaxFramer.RxFramer.Attempt | src/fax/faxvmi_hdlc.c:271-307 | the in-place readings and restorations are the step machine's |
| FaxFramer.RxFramer.ShiftLeft | src/fax/faxvmi_hdlc.c:320-326 | the in-place one-bit walk never reads an octet it has already moved |
| FaxFramer.RxFramer.Walk | src/fax/faxvmi_hdlc.c:311-371 | one walk and its three readings |
| FaxFramer.RxFramer.Realign | src/fax/faxvmi_hdlc.c:308-378 | up to seven walks, stopping at the first reading that is good |
| FaxFramer.RxFramer.Repair | src/fax/faxvmi_hdlc.c:271-378 | the whole repair leaves the buffer and the length of the step machine's repair |
| FaxFramer.RxFramer.Assemble | src/fax/faxvmi_hdlc.c:246-260 | a data bit goes into the accumulator and every eighth makes an octet of the frame, as the step machine says |
| FaxFramer.RxFramer.EndRun | src/fax/faxvmi_hdlc.c:262-403 | the bit after six ones counts a flag, closes a frame or aborts, as the step machine says |
| FaxFramer.RxFramer.TakeBit | src/fax/faxvmi_hdlc.c:242-409 | one line bit changes the object as the step machine says and hands on at most one frame |
| FaxFramer.RxFramer.NextBit | src/fax/faxvmi_hdlc.c:234-240 | the moving mask yields the line bits in order, across elements |
| FaxFramer.RxFramer.Unframe | src/fax/faxvmi_hdlc.c:202-420 | the frames handed on are those the step machine gives for the bits taken, and the bits not yet taken are kept |
| FaxTransfer.SendsAreTicks | src/fax/faxvmi_hdlc.c:122-165 | the transmitter ticked a number of times is the run that asks for so many line bits |
| FaxTransfer.HandedPrefix | src/fax/faxvmi_hdlc.c:58-420 | what the far end was handed after any number of line bits is a prefix of what was written |
| FaxTransfer.SomeIsEnough | src/fax/faxvmi_hdlc.c:58-420 | from some number of line bits on it is all of it |
| FaxTransfer.Dispatch | src/fax/faxvmififo.c:107-170 | the elements of a new transmitter carry the line bits of the frames its ring took, all up to the first without room |
| FaxTransfer.Collect | src/fax/faxvmi_hdlc.c:202-420 | a new receiver hands on what the line bits say, up to the first bit of the last element |
| FaxTransfer.Transfer | src/fax/faxvmi_hdlc.c:58-420 | frames written, packed and unpacked by the objects are a prefix of those the ring took, and all of them once the elements carry enough bits |
| FaxFramer.LineOfSnoc | src/fax/faxvmi_hdlc.c:159-164 | one more element adds its `width` bits to the line |
| ShellMapper.ShellCorrelate | src/pump/v34/v34shell.c:506-525 | two cursors walking towards each other sum the same products as the one-way sum |
| ShellMapper.Peel | src/pump/v34/v34shell.c:2365-2378 | the peeling loop finds the one term an index falls in and its place there |
| ShellMapper.PeelUnique | src/pump/v34/v34shell.c:2365-2378 | a position inside a correlation names its term and its place in it |
| ShellMapper.WaysMirror | src/pump/v34/v34shell.c:1556-1570 | the four-ring counts mirror about the middle total |
| ShellMapper.WaysAreShort | src/pump/v34/v34shell.c:1556-1570 | no count leaves sixteen bits for any ring count the modem uses |
| ShellMapper.InitG248 | src/pump/v34/v34shell.c:1543-1570 | the two loops that store from both ends fill the tables with the pair and four-ring counts |
| ShellMapper.FillPairs | src/pump/v34/v34shell.c:1551-1554 | the first loop leaves the tent of pair counts |
| ShellMapper.FillFours | src/pump/v34/v34shell.c:1556-1570 | the second loop leaves the four-ring counts, all within a short |
| ShellMapper.ShellGroup | src/pump/v34/v34shell.c:534-561 | the place of four rings among those of their total |
| ShellMapper.ShellDemapper | src/pump/v34/v34shell.c:563-587 | the demapper computes the place of eight rings in the index order, with the signed table entry of their shell |
| ShellMapper.OneRing | src/pump/v34/v34shell.c:571-573 | the early return for one ring agrees with the general path |
| ShellMapper.DemapInShell | src/pump/v34/v34shell.c:563-587 | each filled shell owns one block of indices, right after those of the smaller shells |
| ShellMapper.IndexOrdersShells | src/pump/v34/v34shell.c:318-346 | on the filled shells a smaller index is never on a larger shell |
| ShellMapper.DemapInjective | src/pump/v34/v34shell.c:563-587 | no two points on filled shells share an index |
| ShellMapper.PairPlace | src/pump/v34/v34shell.c:545-554 | a pair's place counts the pairs of its total with a smaller first ring |
| ShellMapper.IndexOrder | src/pump/v34/v34shell.c:534-587 | on the filled shells a point has the smaller index exactly when its totals and rings come first in the order: shell, first four, fifth and sixth, seventh, fifth, first and second, third, first |
| ShellMapper.FindShell | src/pump/v34/v34shell.c:2345-2357 | seven halvings find the last shell that starts at or below the index |
| ShellMapper.UnpackPair | src/pump/v34/v34shell.c:2441-2454 | the pair at a place of its total, its first ring counted up from the least there can be |
| ShellMapper.UnpackGroup | src/pump/v34/v34shell.c:2395-2463 | the four rings at a place of their total, in range |
| ShellMapper.Map | src/pump/v34/v34shell.c:2345-2480 | every index the tables reach is mapped to rings in range whose index it is |
| ShellMapper.MapInverts | src/pump/v34/v34shell.c:2345-2480 | a point comes back from its index exactly when it is on a filled shell; otherwise the index maps to another point that shares it |
| ShellMapper.PastShellsCollide | src/pump/v34/v34shell.c:584-586 | with eighteen rings a point of shell 56 has index zero, like the origin |
| Radix.RestIsQuotient | tools/batch_cpp_constellation_expand_reproduce.py:5-10 | what is left after some digits is the value divided by their place value |
| Radix.Rebuilds | tools/batch_cpp_constellation_expand_reproduce.py:5-14 | digits and last rest, weighted by place values, rebuild the value, and the digits are in range |
| Radix.Determined | tools/batch_cpp_constellation_expand_reproduce.py:5-14 | digits in range and the rest are the only ones with that value |
| ModulusCoder.Gather | src/pump/v90/V90ModulusEncoder.cpp:56-60 | the bits are gathered into their number, which fits the signed accumulator |
| ModulusCoder.Encode | src/pump/v90/V90ModulusEncoder.cpp:53-72 | five digits and the last rest cut to a word |
| ModulusCoder.Split | src/pump/v90/V90ModulusEncoder.cpp:61-62 | one written-out divide step is one digit and the rest |
| ModulusCoder.Decode | src/pump/v90/V90ModulusDecoder.cpp:41-57 | the bits of the value Horner's rule gives |
| ModulusCoder.NumberBitAt | src/pump/v90/V90ModulusEncoder.cpp:56-60 | octet `i` is bit `i` of the number encoded |
| ModulusCoder.BitStringAt | src/pump/v90/V90ModulusDecoder.cpp:41-57 | octet `i` of the decoder's output is bit `i` of its number |
| ModulusCoder.HornerIsWeighted | src/pump/v90/V90ModulusDecoder.cpp:46-52 | Horner's rule is the weighted sum of digits |
| ModulusCoder.RoundTripExactly | src/pump/v90/V90ModulusEncoder.cpp:53-72 | bits encoded and decoded come back exactly when the last rest fits a word |
| ModulusCoder.DigitsRoundTrip | src/pump/v90/V90ModulusDecoder.cpp:41-57 | symbol indices in range survive decoding and encoding |
| ConstellationPower.CountsUpTo | src/pump/v90/V90ConstellationPower.cpp:252-261 | how many codewords have a digit at a place, in closed form |
| ConstellationPower.WeightIsCount | src/pump/v90/V90ConstellationPower.cpp:252-261 | for a true digit the codewords an arm stands for are those with that digit |
| ConstellationPower.FractionScaled | src/pump/v90/V90ConstellationPower.cpp:289-299 | each arm times the number of codewords is a whole number of codewords, for any laid-out digit |
| ConstellationPower.FractionIsShare | src/pump/v90/V90ConstellationPower.cpp:289-299 | each of the three arms is the exact share of codewords with that digit |
| ConstellationPower.ColumnByPoint | src/pump/v90/V90ConstellationPower.cpp:282-324 | adding up codeword by codeword is adding up point by point |
| ConstellationPower.Power.CalcModulusLooped | tools/batch_cpp_constellation_expand_reproduce.py:5-14 | the rolled loops lay out rests, digits and place values |
| ConstellationPower.Power.CalcModulusParameters | src/pump/v90/V90ConstellationPower.cpp:117-191 | the written-out statements lay out the same |
| ConstellationPower.Power.AddPosition | src/pump/v90/V90ConstellationPower.cpp:287-323 | the inner loop adds the position's points, each as often as the laid-out digit weighs it |
| ConstellationPower.Power.TrueColumn | src/pump/v90/V90ConstellationPower.cpp:135-154 | for the first five positions that is the sum over every codeword |
| ConstellationPower.TopColumnTrue | src/pump/v90/V90ConstellationPower.cpp:156-168 | with no more codewords than frames it is so for the sixth position too |
| ConstellationPower.Power.GetPower | src/pump/v90/V90ConstellationPower.cpp:270-328 | for every number of codewords the result is the mean over five positions of all codewords and the sixth as its cut digit weighs it; with no more codewords than frames, the mean over all six |
| ConstellationPower.TopWeights | src/pump/v90/V90ConstellationPower.cpp:156-168 | what the sixth position's shares come to in codewords, for every rest and every truncation of it |
| ConstellationPower.TopSharesExactly | src/pump/v90/V90ConstellationPower.cpp:156-168 | they add up to one exactly when the cut digit is a point of the constellation and its size divides what was cut off |
| ConstellationPower.FramesSuffice | src/pump/v90/V90ConstellationPower.cpp:156-162 | that is so whenever the codewords number no more than the frames |
| ConstellationPower.OneFrameTooFew | src/pump/v90/V90ConstellationPower.cpp:156-168 | two codewords and one frame: the shares do not add up to one |
| ConstellationPower.WrappedToOne | src/pump/v90/V90ConstellationPower.cpp:156-168 | 2^62 codewords over sizes 63, 11, 31, 151, 331 and 8: the truncation wraps and they do, with far more codewords than frames |
| History.CompactWalking | src/dsp/FloatIIR.cpp:157-181 | two walking pointers repeat the newest entries at the top, none overwritten before it is read |
| History.CompactIndexed | tools/batch_cpp_iir_reproduce.py:16-20 | the index loop leaves the same buffer as the walking pointers |
| History.CursorFormsAgree | tools/batch_cpp_iir_reproduce.py:9 | decrement-then-test is test-then-decrement exactly for cursors in the lower half of the word |
| History.Advance | src/dsp/FloatIIR.cpp:210-215 | the cursor moves down or the history is compacted, and the window still holds the newest samples |
| History.DifferenceEquation | src/dsp/FloatIIR.cpp:183-218 | for every input: den[0] y[n] + den[1] y[n-1] + ... = num[0] x[n] + num[1] x[n-1] + ..., a leading zero counting as one |
| History.FilterIsCausal | src/dsp/FloatIIR.cpp:183-218 | later input changes no output already given |
| History.FilterSuperposes | src/dsp/FloatIIR.cpp:196-206 | the answer to a sum of inputs is the sum of the answers |
| History.Iir.constructor | src/dsp/FloatIIR.cpp:71-108 | a new filter holds silence in histories of the allocated lengths |
| History.Iir.Reset | src/dsp/FloatIIR.cpp:136-148 | both histories hold silence and the cursors are at the top of the slack |
| History.Iir.SumForward | src/dsp/FloatIIR.cpp:196-198 | the feedforward loop over the window is the sum over the newest inputs |
| History.Iir.SumFeedback | src/dsp/FloatIIR.cpp:200-202 | the feedback loop over the window is the sum over the newest outputs |
| History.Iir.Process | src/dsp/FloatIIR.cpp:183-218 | the output is the difference equation's over everything fed in, whatever the block size |
| History.Iir.ProcessBlock | src/dsp/FloatIIR.cpp:220-264 | a block, normalised by a reciprocal, gives the outputs of one sample at a time |
| StartStop.SamplesInside | testbench/v21decode.py:72-91 | no sample of a character begun inside the limit is outside the line |
| StartStop.Decode | testbench/v21decode.py:67-95 | the loop emits exactly what the line says from its first cursor on: each time the first character its samples frame |
| StartStop.ReadOctet | testbench/v21decode.py:81-89 | the eight sampled bits, least significant first, or rejection at an invalid sample |
| StartStop.ReadCharacter | testbench/v21decode.py:77-93 | a space at the first sample is a character exactly when the samples at the start bit's centre, the eight data bits and the stop bit frame one, and it is the octet they frame |
| StartStop.SampleFallsInBit | testbench/v21decode.py:77-90 | found where its first and last samples stay inside their bits, a character is sampled once inside each of its bits |
| StartStop.CharacterReads | testbench/v21decode.py:72-95 | such a character is accepted, read as its octet, and the resync lands past its stop edge, at most ten of the receiver's bits further on |
| StartStop.HuntFinds | testbench/v21decode.py:72-80 | hunting through mark reaches the first sample of the next character |
| StartStop.NoDrift | testbench/v21decode.py:67-95 | from any cursor between characters each following one is found at its own first sample |
| StartStop.TransmissionDecodes | testbench/v21decode.py:67-95 | a whole transmission decodes to its octets in order |
| FasterSender.ReadNext | testbench/v21decode.py:67-95 | from a cursor within its lag the next character is read, and the cursor left within the next one's |
| FasterSender.FasterSenderDecodes | testbench/v21decode.py:67-95 | a faster sender whose lag stays under half a bit, less one character's loss and a sample, is read whole and in order, each character found within its lag |
| FasterSender.LagGrows | testbench/v21decode.py:94-95 | the lag grows by at most ten times the difference of the bit lengths a character |
| FasterSender.SoManyAreRead | testbench/v21decode.py:67-95 | however close together, as many characters keep up as twenty times the difference fits in a bit less two samples |
| FasterSender.AnyNumberIsRead | testbench/v21decode.py:67-95 | with rests to ten of the receiver's bits a character any number does |
| StartStop.OctetBits | testbench/v21decode.py:83-89 | bit `k` of an emitted octet is the sample taken for it |
| StartStop.EmittedIsSampled | testbench/v21decode.py:72-95 | every emitted character was confirmed by a space, eight valid samples and a mark |
| StartStop.FramedExactly | testbench/v21decode.py:72-93 | inside the limit a character is accepted exactly when its samples, written out, frame one, and read as that |
| StartStop.ReadsExactly | testbench/v21decode.py:67-95 | a list is decoded from a cursor exactly when each entry is framed at its place, nothing is framed before it or past the last, and the hunt goes on half a bit past the stop sample |
| StartStop.EmittedIsFramed | testbench/v21decode.py:72-95 | an emitted character has its space, its space at the centre, its eight valid data samples and its mark at the stop |
| StartStop.NothingInSpace | testbench/v21decode.py:90-93 | no stop sample lies in a space that lasts to the end of the line |
| StartStop.SpaceIsSilent | testbench/v21decode.py:90-93 | mark and then space to the end decodes to nothing |
| StartStop.RunsPlainly | testbench/v21decode.py:104-108 | inside a run each character repeats the one before within 0.15 s, and at its start one does not |
| StartStop.GroupRuns | testbench/v21decode.py:102-108 | the runs are the stretches between breaks, a break being another value or 0.15 s or more, each with its value, count and the times of its ends |
| CfgSplit.SizePass | tools/cfgsplit.py:142-145 | sizes from address differences make the instructions tile the range exactly when addresses ascend from its start and the last printed size is right |
| CfgSplit.SuccessorsGo | tools/cfgsplit.py:196-213 | the successors of an instruction are where its kind lets control go: a jump or return to its operand, a branch there or past itself, any other past itself, never outside the range |
| CfgSplit.LeadersExactly | tools/cfgsplit.py:358-368 | an address is a leader exactly when it is the entry, a case in the range, or in the range and named by or just past a jump, return or branch |
| CfgSplit.TableLeaves | tools/cfgsplit.py:186-221 | every leader has a block that ends with the last instruction before the next leader and goes where control can go from that instruction |
| CfgSplit.FindLeaders | tools/cfgsplit.py:358-368 | the leaders are exactly the entry, the cases, and the targets and followers of branches |
| CfgSplit.EndsLast | tools/cfgsplit.py:198-211 | a branch is the last instruction of its block |
| CfgSplit.WalkBlock | tools/cfgsplit.py:196-220 | the walk gives the block's bytes and the successors of its last instruction |
| CfgSplit.NextStartIsEnd | tools/cfgsplit.py:191-192 | the next leader in order is where the block ends |
| CfgSplit.BuildBlocks | tools/cfgsplit.py:186-221 | the table has exactly one right block per leader |
| CfgReach.Reachable | tools/cfgsplit.py:224-233 | the worklist returns the least set closed under successors |
| CfgReach.SuccessorCases | tools/cfgsplit.py:196-221 | a successor of an instruction is the next of its block or a leader its block names |
| CfgReach.BlockGraphPreservesMeaning | tools/cfgsplit.py:186-233 | the instructions of the reachable blocks are exactly those control can come to one instruction at a time |
| CfgReach.BlocksCoverRange | tools/cfgsplit.py:186-221 | the block sizes sum to the whole range |
| CfgReach.CountReach | tools/cfgsplit.py:374-377 | the count of a block is the number of entries that reach it |
| CfgReach.TallyExactly | tools/cfgsplit.py:374-377 | the count is zero when no entry reaches the block and more than one when two do |
| CfgReach.PartsPlainly | tools/cfgsplit.py:379-386 | the three figures add up the blocks reached from one entry alone, from two or more, and from none |
| CfgReach.Exclusive | tools/cfgsplit.py:379-381 | each entry's figure is the bytes only it reaches, and they sum to the bytes reached once |
| CfgReach.Shared | tools/cfgsplit.py:382 | the bytes reached more than once |
| CfgReach.Covered | tools/cfgsplit.py:383-385 | the union of the reach sets is what is counted |
| CfgReach.Accounting | tools/cfgsplit.py:371-388 | exclusive, shared and unreached bytes sum to the total for every graph and every list of entries |
| CallOrder.Degrees | tools/callgraph.py:295-301 | the in-degree is the number of callees that count and the reverse table lists their callers |
| CallOrder.FirstReady | tools/callgraph.py:302 | the functions with no callees, sorted by size and name |
| CallOrder.Insert | tools/callgraph.py:310-311 | append and sort again keeps the list sorted and adds one entry |
| CallOrder.Release | tools/callgraph.py:307-311 | after one turn the degrees and the ready list are right for the longer order |
| CallOrder.Order | tools/callgraph.py:292-311 | the loop's list has every listed function's callees before it, of two functions the smaller or alphabetically first before the other unless it had to wait, and all that need not wait |
| CallOrder.PlannedExactly | tools/callgraph.py:292-311 | a list is the order exactly when it is so, said of the calls and sizes alone |
| CallOrder.ListedOnce | tools/callgraph.py:303-311 | nothing is listed twice |
| CallOrder.CalleesFirst | tools/callgraph.py:292-311 | every other kept callee of a listed function is listed, and before it |
| CallOrder.OrderUnique | tools/callgraph.py:292-311 | there is only one such order |
| CallOrder.LeftOutExactly | tools/callgraph.py:316-319 | a function is left out exactly when a cycle of two or more functions is reachable from it |
| CallOrder.LeftOutButOnNoCycle | tools/callgraph.py:316-319 | a function on no cycle can be left out |
| CallOrder.Closure | tools/callgraph.py:229-236 | `--of` keeps the least set closed under calls to known symbols |
| CallOrder.OrderRestricts | tools/callgraph.py:229-236 | the order of a closed part is the whole order with the other entries dropped |
| G711.Seg | testbench/g711level.py:63-67 | the first table entry not below the value |
| G711.MuCell | testbench/g711level.py:70-80 | a biased magnitude lies in the cell of its code |
| G711.MuDecodes | testbench/g711level.py:83-87 | a code decodes to four times the middle of its cell less the bias, with its sign |
| G711.MuMonotone | testbench/g711level.py:70-87 | encode and decode is monotone over all integers |
| G711.MuError | testbench/g711level.py:70-87 | the error is at most half a step, three more below zero, exactly for samples from -32636 to 32636; the step is at most a sixteenth of the biased magnitude |
| G711.MuIdempotent | testbench/g711level.py:70-87 | a second trip changes nothing, for every integer |
| G711.MuInverse | testbench/g711level.py:70-87 | encoding inverts decoding on every code except negative zero |
| G711.ACell | testbench/g711level.py:90-102 | a magnitude lies in the cell of its code |
| G711.ADecodes | testbench/g711level.py:105-115 | a code decodes to eight times the middle of its cell, with its sign |
| G711.AMonotone | testbench/g711level.py:90-115 | encode and decode is monotone over all integers |
| G711.AError | testbench/g711level.py:90-115 | the error is at most half a step exactly for samples from -32768 to 32768 |
| G711.AIdempotent | testbench/g711level.py:90-115 | a second trip changes nothing, for every integer |
| G711.AInverse | testbench/g711level.py:90-115 | encoding inverts decoding on every code |
| G711.AMirrors | testbench/g711level.py:90-102 | encode(-v-1) is encode(v) with the sign bit flipped, for every integer |
| TheilSen.MajorityIsMedian | testbench/linesim.py:160 | a value held by a strict majority is the median, for odd and even counts |
| TheilSen.MedianRanks | testbench/linesim.py:160 | the median is half way between the values of the two middle ranks, which are one for odd counts |
| TheilSen.CollectSlopes | testbench/linesim.py:158-159 | the nested loops collect the slope of every pair |
| TheilSen.CollectRow | testbench/linesim.py:158-159 | the inner loop adds the slopes from one point to all later ones |
| TheilSen.Estimate | testbench/linesim.py:154-160 | nothing below six points, otherwise the median slope scaled to the band and never negative |
| TheilSen.SlopesCount | testbench/linesim.py:158-159 | every pair of points on a line contributes the line's slope |
| TheilSen.RobustSlope | testbench/linesim.py:154-160 | with a strict majority of clean pairs the median is the true slope, whatever the other points |
| TheilSen.RobustTilt | testbench/linesim.py:154-160 | the estimate is then how far the line falls from tone bin 4 to the band edge, and never negative |
| TheilSen.OneDud | testbench/linesim.py:43-45 | one arbitrary point among five or more cannot move the estimate |
| TheilSen.FourAreTooFew | testbench/linesim.py:156-160 | among four points one can |
| Comments.StripComments | tools/apparatus.py:124-164 | the index-jumping scanner writes what the one-character lexer writes |
| Comments.LexIsClean | tools/apparatus.py:124-164 | the output has no quote and no comment opener, also where text is joined across a removed comment |
| Comments.CleanIsKept | tools/apparatus.py:162-163 | clean text passes through unchanged |
| Comments.StripIdempotent | tools/apparatus.py:124-164 | stripping twice is stripping once |
| Comments.KeepsCode | tools/apparatus.py:162-163 | clean text not ending in a slash is kept whole in front of anything |
| Comments.DropsBlock | tools/apparatus.py:156-161 | a block comment is removed and leaves nothing |
| Comments.DropsLine | tools/apparatus.py:152-155 | a line comment is removed up to its newline, which stays |
| Comments.DropsLiteral | tools/apparatus.py:137-151 | a literal, escaped quotes and all, becomes one space |
| Comments.DropsOpenLiteral | tools/apparatus.py:137-151 | one that is never closed too, with all that follows |
| Comments.DropsOpenComment | tools/apparatus.py:152-161 | a comment that is never closed is removed to the end |
| SnrBlocks.Blocks | testbench/snrblocks.py:132-240 | the reader's variables follow the step machine, line by line |
| SnrBlocks.TakeLine | testbench/snrblocks.py:196-237 | each decision line adds its part to the decision in progress |
| SnrBlocks.Collect | testbench/snrblocks.py:184-191 | a clean power line goes to phase 3 before its end and to phase 4 once its gain is set |
| SnrBlocks.TailMeans | testbench/snrblocks.py:164-175 | the phase 3 level is the mean of the last three values, or of the one or two there are |
| SnrBlocks.CleanMeans | testbench/snrblocks.py:178-187 | a clean line has a defined ratio, an error below saturation and a signal within half a percent of the settled one |
| SnrBlocks.PhaseExactly | testbench/snrblocks.py:149-175 | the phase flag says exactly that phase 3 ended since the gain was last set up |
| SnrBlocks.HandshakeLocal | testbench/snrblocks.py:152-161 | nothing before a handshake's first line has a part in what is known of it |
| SnrBlocks.HandshakeExplained | testbench/snrblocks.py:146-191 | the gains, the phase 3 level and the phase 4 run are what the handshake's own lines say, clean lines only |
| SnrBlocks.OpenExplained | testbench/snrblocks.py:146-191 | in a log that begins inside a handshake they are what its lines say, without a phase 3 gain |
| SnrBlocks.CollectedAreClean | testbench/snrblocks.py:184-191 | every sample collected came from a line that passed the filter |
| SnrBlocks.DecisionsSourced | testbench/snrblocks.py:203-225 | a decision's figures were taken at one line, and a signal power only on an equal error value |
| SnrBlocks.DecisionOfOneHandshake | testbench/snrblocks.py:132-240 | in every log a decision's gains, phase 3 level and phase 4 run are those of one and the same handshake, whether or not the log shows its start |
| SnrBlocks.MixedStarts | testbench/snrblocks.py:152-161 | a log with two handshakes |
| SnrBlocks.MixedHandshakes | testbench/snrblocks.py:192-226 | in it the decision has the second one's figures with the first one's thresholds, reading and signal power |
| SnrSpans.MadeNext | testbench/snrblocks.py:190-232 | each line changes just its own part of the decision in progress |
| SnrSpans.DecisionsAreCut | testbench/snrblocks.py:132-240 | every log is cut at the first threshold line and the first final line past it, again and again; each decision has the last levels, ladder, decide and choice lines of its span, its first power reading and its final rates; one begun and not over counts if it has a ladder line |
| SnrParts.DecisionLines | testbench/snrblocks.py:192-240 | every decision of every log is made of all threshold lines while it was in progress, the first power line past the first of them, and one line each for figures and verdict |
| SnrParts.ThresholdsTogether | testbench/snrblocks.py:192-203 | thresholds before the figures are of their handshake exactly when the first of them is at or after its start, and later ones when no handshake starts in between |
| SnrParts.LineTogether | testbench/snrblocks.py:178-226 | any other line is of the figures' handshake exactly when no handshake starts between the two |
| SnrParts.PowerOfVerdict | testbench/snrblocks.py:209-226 | a decision's signal power is the last power line's before its verdict |
| SnrParts.PartsTogetherExactly | testbench/snrblocks.py:146-240 | all parts of a decision are of its figures' handshake exactly when no handshake starts between any two lines they came from |
| SnrParts.DecisionParts | testbench/snrblocks.py:132-240 | both for every decision of every log |

## Left out

- FaxFramer.TxFramer.WriteFrame: one frame per call; the loop over several frames, and lengths that are negative as 16-bit words, are not modelled.
- FaxFramer.TxFramer.Pack: the debugging walk over the ring before the loop is not modelled, and the loop is split into one method per element.
- FaxFramer.RxFramer.Unframe: frames are handed on as a list of frames and not as a flat buffer of lengths and octets; debugging output is not modelled.
- FaxFramer.RxFramer.constructor: the frame buffer has one element more than the frame size, for the read one past the stored octets during a walk.
- ShellMapper.DemapInShell: past the filled shells it fails, as PastShellsCollide shows.
- ShellMapper.IndexOrdersShells: past the filled shells it fails, as PastShellsCollide shows.
- ShellMapper.DemapInjective: past the filled shells it fails, as PastShellsCollide shows; MapInverts gives the exact condition for a point to come back.
- ShellMapper.ShellDemapper: totals of 128 and more, for which the source reads past its tables, are not modelled.
- ShellMapper.InitG248: the third table is taken with the meaning the source documents for it; its literal numbers, the trellis and the precoder around the mapper are not modelled.
- HdlcRepair.HeaderProtects: speaks of the three readings of the unshifted buffer only; what the whole repair does is NoFrameIsSafe.
- HdlcRepair.BurstHandledExactly: speaks of the three readings of the unshifted buffer only; what the whole repair does is NoFrameIsSafe.
- HdlcRepair.NoFrameIsSafe: frames of two and three octets are outside; they carry an empty or one-octet payload.
- FaxTransfer.Transfer: one packing and one unpacking, all writes before it; interleaved writes are HdlcLink.NothingInvented.
- FasterSender.FasterSenderDecodes: sufficient for a faster sender; past that lag whether a character is read depends on its data bits.
- ModulusCoder.Encode: more than 63 bits overflow the signed accumulator and are not modelled.
- ModulusCoder.Decode: digits whose value overflows the signed accumulator are not modelled.
- ConstellationPower.Power.GetPower: levels enter as their squares, so the companding of each point is an input; the double arithmetic is exact.
- History.Iir.constructor: needs at least one tap on each side; with none the source stores past its history or reads a coefficient that is not there.
- History.Iir.Process: the result is not rounded to a float and the accumulator is exact; the loop counter kept as a member is not modelled.
- CfgSplit.BuildBlocks: leaders that are not instruction starts, which the source skips, are outside the setting of the comparison.
- CallOrder.Closure: the pending names are a set where the source keeps a list with repeats.
- TheilSen.Estimate: the points are given; the piecewise logarithm of the tone energies is an input.
- SnrBlocks.Blocks: lines arrive recognised, in the order the source tries its patterns, and the decibel value of a power line comes with it.
- The walk of the octet reverser over several framed buffers, and the rest of the Jd framing and unpacking.
- The least-squares and two-point estimators, the body extractor beside the comment stripper, and the report printing of every tool.
- Serial, socket and process plumbing, signal measurement, permutation tests and plots.
