# Data paths of the Tessel firmware

A Dafny model of the parts of the Tessel 1 firmware that cut bytes up, put them on a wire or into memory, and
put them together again, and proofs that what comes out is what went in. `dafny verify dfyconfig.toml` checks
the whole project.

Each component has two sides. A *specification module* describes one step of the component (an interrupt, a
callback, a completed USB buffer) as a function on its variables, and proves the properties over whole runs. A
*device module* has a class with the variables of the C or JavaScript source as fields; its methods follow the
source statement by statement, and their contracts say that they take exactly the specified step.

| files | source | what is proved |
|---|---|---|
| `SwUartFrame`, `SwUartTransmit` | `hw_swuart.c`, transmit | the edge list of every byte is its 8N1 waveform; the FIFO is a queue; everything accepted since the transmitter was at rest goes out in order, and the line comes to rest high with the match interrupt off |
| `SwUartReceive`, `SwUartReceiver` | `hw_swuart.c`, receive | what the receiver makes of any byte whose edges are less than half a bit off, for any interrupt latency below one bit, and exactly which bytes it recovers |
| `Nmea`, `GpsParser` | `gps-nmea.c` | the parser inverts the sentence printer from any state, rejects wrong checksums exactly when the true one is nonzero, detects single wrong characters, and never overruns its buffer; what it publishes for sentences of any other kind |
| `GpsEndToEnd` | both | from `swu_setup_tx` waveforms to `gps_data_hold` |
| `UsbFrame`, `UsbSend` | `msg_interface.c`, IN | for any interleaving, the blocks on the wire are those of the accepted messages, in order |
| `UsbReceive`, `UsbReceiver` | `msg_interface.c`, OUT | every message of a conforming host goes once and whole where its tag says, with the exact number of buffers; only echoes are sent back |
| `SpiArbiter`, `SpiQueue` | `tessel.js` | mutual exclusion, no lost wake-up, where every action leads, the order of transfers and of locks; when raw transfers would strand a lock |
| `SpiDma`, `SpiEngine`, `SpiAsync` | `hw_spi_async.c` | descriptor chains refine a copy; the chunk engine makes exactly the transfers asked for, with chip select low exactly during each and reception begun first, if and only if the job is a proper one |
| `UartQueue`, `UartRing` | `hw_uart.c` | the rings are bounded queues; the assertion in the receive callback cannot fail |
| `FlashImage`, `SpiFlash` | `spi_flash.c`, `boot/main.c` | what a buffer write and a firmware download leave in the flash |
| `Vs1053Plugin` | `audio-vs1053b.c` | the plugin loader inverts the plugin printer; what it makes of files that were not printed |

`Bytes` holds octets, little-endian words and the C operators `|`, `^`, `<<`, `>>` and `& mask`.

## Environment

Hardware is modelled as far as the code relies on it. The timer toggles its pin at a match if it is told to, and
its capture unit latches the time of an edge of the direction it is armed for; edges of the other direction are
lost. It raises the stop-bit match at the instant that the code has loaded, and every interrupt is served within
a latency below one bit time; which interrupts come, and in what order, follows from these times
(`SwUartReceive.Timely`). The USB endpoint completes a posted buffer when it is full or when a packet shorter
than 512 bytes ends the transfer (section 5.8.3 of the USB 2.0 specification). The flash chip programs by
bitwise AND, wraps inside a page, erases to 0xFF, and ignores commands while it is busy or write-protected. DFU
blocks arrive as in section 6.1.1 of the USB DFU 1.1 specification. The event loop, `setImmediate` callbacks,
interrupts and the order in which they come are actions of the environment, taken in any order that the state
allows.

The C library's `atof` and `atoi` are parameters. Interrupt routines and `swu_tx_chr` are atomic.

## Where the code does something else than one might expect

These are proved, with the exact condition under which the expected behaviour holds.

- The receiver of the software UART shifts data bits that are already in place when a character ends in ones
  (`hw_swuart.c` 308-312). A byte is recovered exactly when bit 7 is clear or it is a block of ones above zeros
  (`SwUartReceive.RecoveredExactly`).
- After a failed checksum the GPS parser still waits for a checksum, with an empty buffer, which converts to
  zero. A wrong checksum is rejected if the true one is nonzero (`Nmea.MismatchRejected`); if it is zero, LF
  publishes an empty record as valid (`Nmea.ZeroChecksumAccepted`), as for `$GPRMC,g*01`.
- The GPS parser takes the first field of five characters for the type, wherever it stands. A sentence with its own
  checksum publishes nothing up to its LF if and only if there is such a field and it is neither GPRMC nor GPGGA; a
  sentence without one, as `$PSRF150,1*3E`, replaces the record by an empty one marked valid
  (`Nmea.SentenceOfAnyKind`).
- A comma behind the checksum pair ends a sentence of the GPS parser too, with the comma in the checksum by then
  (`Nmea.CommaBehindPair`). From field 32 on, the position spills into the type of the switch: field 33 of an RMC
  sentence is stored as its time (`Nmea.Field33IsTime`).
- After a character whose stop bit is low, the receiver of the software UART is armed for a rising edge, and takes
  the end of a break for a start bit (`SwUartReceive.BreakReceived`).
- A DMA chain for a length that is a multiple of 4095 leaves the size of its last item at zero and covers 4095
  bytes too few (`SpiDma.WholeBufferCopied`).
- `hw_spi_transfer` does what was asked, and completes once and at the end, if and only if the chunk is not empty
  and fits the buffer and there is something to repeat (`SpiEngine.FulfilledExactly`). With nothing to repeat or a
  chunk beyond the buffer it completes first and begins a chunk all the same; an empty chunk, which sending an empty
  buffer asks for, is begun again and again and never completes. Zero repetitions come to 2^32 passes, with a second
  completion at the end (`SpiEngine.EveryJobRuns`).
- A lock is left waiting for ever if and only if a raw transfer completes as the last one while the lock waits
  (`SpiArbiter.StrandedExactly`); no caller makes raw transfers.
- `dfu_cb_dnload_block` takes block 496, one more than the firmware partition has; blocks below
  that, and only those, leave the rest of the flash alone whatever it holds (`FlashImage.ConfinedExactly`).
- A comment in `swu_isr_rx` says that it clears the flag of match 1, but the bit it writes is that of match 0
  (`hw_swuart.c` 273); a comment on `swu_rx_chr` says that it returns the last character again when there is no
  new one, but it always advances (`hw_swuart.c` 192-204). The model follows the code.

## Model

| member | source | states |
|---|---|---|
| SwUartFrame.EdgeListShape | src/hw/hw_swuart.c:89-115 | for every byte and bit length the edge list has 3 to 11 entries, is strictly increasing, spans exactly ten bit times, and has an even number of toggles |
| SwUartFrame.WaveformIsLine | src/hw/hw_swuart.c:89-115 | at every instant of bit time k the toggled line carries bit k of the character, and after the stop bit it stays high |
| SwUartFrame.ScheduleMatches | src/hw/hw_swuart.c:117-121 | the timer, counting modulo 2^30 from set-up, reads an entry of edge[] exactly as many ticks later as the entry was before masking, a bit time added, wrapped or not |
| SwUartTransmit.ExtDataIsFrame | src/hw/hw_swuart.c:90-90 | the pattern word has the bits of the 8N1 frame of the byte in places 1 to 9 |
| SwUartTransmit.Transmitter.EncodeEdges | src/hw/hw_swuart.c:91-113 | the bit loop leaves the offsets of all toggles and of the end of the stop bit in edge[] |
| SwUartTransmit.Transmitter.AddReference | src/hw/hw_swuart.c:118-121 | every entry is moved by the reference, in timer range |
| SwUartTransmit.Transmitter.SetupTx | src/hw/hw_swuart.c:80-127 | the oldest pending byte leaves the FIFO and starts on its own genuine schedule; the FIFO and sending invariants hold |
| SwUartTransmit.Transmitter.TxChr | src/hw/hw_swuart.c:164-177 | the byte joins the end of what was accepted, no pending slot is overwritten, and an idle transmitter starts; the count stays ((wr - rd) mod 256) + 1 while active and 0 with wr = rd when idle |
| SwUartTransmit.Transmitter.NextEdge | src/hw/hw_swuart.c:233-238 | a match before the end toggles the pin once and loads the next edge; toggling is off behind the last toggle |
| SwUartTransmit.Transmitter.EndOfChar | src/hw/hw_swuart.c:224-232 | the end of a character starts the next pending byte, or turns the transmitter and its match interrupt off with the line high |
| SwUartTransmit.Transmitter.MatchIsr | src/hw/hw_swuart.c:221-240 | every match keeps the invariant, brings the transmitter nearer to rest, and has the effect of NextEdge or EndOfChar |
| SwUartTransmit.DrainTransmitter | src/hw/hw_swuart.c:221-240 | left to its timer the transmitter sends every accepted byte in order, each set up as the one before ends, the pin having toggled exactly at the waveforms of those bytes, and rests with the line high and the match interrupt off |
| SwUartReceive.ReceiveFrame | src/hw/hw_swuart.c:255-328 | whenever the toggles of a character are each less than half a bit off, the stop sample is at nine bits and every interrupt is served within one bit, the character is received as exactly one word, StoredByte without framing flag, all shifts are defined, and the receiver is ready before the rest of the line |
| SwUartReceive.BeforeStop | src/hw/hw.h:286-286 | every edge of a character comes before the stop sample at nine bits, and all but one of the stop bit itself are served before it |
| SwUartReceive.BreakReceived | src/hw/hw_swuart.c:304-328 | a line that falls and stays low is received as zero with the framing flag, and leaves the receiver armed for a rising edge |
| SwUartReceive.StoredWordIsByte | src/hw/hw_swuart.c:308-315 | with the final run of ones from line bit j on, the word stored is ((low j-1 data bits << 9-j) + (0xFF << j-1)) & 0xFF |
| SwUartReceive.RecoveredExactly | src/hw/hw_swuart.c:308-313 | the stored byte is the byte sent if and only if bit 7 is clear or the byte is ones above zeros |
| SwUartReceive.SampleRun | src/hw/hw_swuart.c:286-297 | an edge between two sampling points makes the loop place exactly the data bits up to it |
| SwUartReceive.SenderClock | src/hw/hw_swuart.c:286-297 | a sender bit length within one part in 18 keeps every edge less than half a bit off |
| SwUartReceiver.ReceiverDevice.SampleBits | src/hw/hw_swuart.c:286-297 | the loop reaches the state of the sampling function |
| SwUartReceiver.ReceiverDevice.OnCapture | src/hw/hw_swuart.c:260-301 | a capture starts a character or samples up to the edge, and flips the armed direction |
| SwUartReceiver.ReceiverDevice.EndOfChar | src/hw/hw_swuart.c:306-317 | the word for the FIFO is the stored word of the state, and the receiver goes idle |
| SwUartReceiver.ReceiverDevice.RxChr | src/hw/hw_swuart.c:192-204 | the read index advances by one, modulo 256, the low byte there is returned and its bit 8 becomes the framing error indicator |
| SwUartReceiver.ReceiverDevice.Deliver | src/hw/hw_swuart.c:318-383 | the word just stored is the one read back, goes to the parser, and joins SW_UART_BUFF or, when that is full, empties it and sets SW_UART_RDY |
| SwUartReceiver.ReceiverDevice.Isr | src/hw/hw_swuart.c:255-328 | one interrupt takes the specified step; the character that ends in it, if any, reaches the parser and the buffer at once, and without one nothing else changes |
| GpsParser.Gps.Consume | src/module_shims/gps-nmea.c:96-137 | one character takes the specified step of the parser and every buffer byte at or past gps_buff_pos is NUL again |
| GpsParser.Gps.Parse | src/module_shims/gps-nmea.c:140-238 | publishing, discarding or storing the field, as specified |
| GpsParser.Gps.Cleanup | src/module_shims/gps-nmea.c:240-254 | the buffer is all NUL and the data are scrubbed |
| Nmea.CStrStopsAtPadding | src/module_shims/gps-nmea.c:234-235 | what strtol, atof and strcmp see is exactly the part of the buffer before gps_buff_pos |
| Nmea.StrtolHexPair | src/module_shims/gps-nmea.c:143-143 | a buffer of two hexadecimal digits converts to their value |
| Nmea.StrtolForm | src/module_shims/gps-nmea.c:143-143 | blanks, a sign, 0x and hexadecimal digits, whatever comes behind, convert to the saturated positional value of the digits |
| Nmea.StrtolNothing | src/module_shims/gps-nmea.c:143-143 | text without digits in their place converts to zero |
| Nmea.DollarResets | src/module_shims/gps-nmea.c:115-125 | `$` brings the parser from any state to one canonical state, publishing a sentence whose checksum matches once more |
| Nmea.AssignExtendsRecord | src/module_shims/gps-nmea.c:170-229 | parsing field i extends the record of the first i-1 fields to that of the first i, for RMC and GGA |
| Nmea.PrintThenConsume | src/module_shims/gps-nmea.c:96-238 | whatever was consumed before, consuming a printed RMC or GGA sentence publishes its record with the checksum passed, and the later LF and `$` publish the same record again |
| Nmea.PublishedRmc | src/module_shims/gps-nmea.c:170-210 | each member of the record published for an RMC sentence on the bytes of its fields: a fix if and only if the status begins with A, the latitude negated unless N follows, the longitude negated unless E follows |
| Nmea.PublishedGga | src/module_shims/gps-nmea.c:170-229 | the same for GGA: a fix if and only if the quality begins with a character above 0 |
| Nmea.FixWitness | src/module_shims/gps-nmea.c:96-238 | a printed fix with its letters: positive for N and E, negative otherwise |
| Nmea.SentenceOfAnyLength | src/module_shims/gps-nmea.c:115-169 | an RMC or GGA sentence of any number of fields stays one, and nothing is published before its `*`; the position counts modulo 2^32 |
| Nmea.Field33IsTime | src/module_shims/gps-nmea.c:139-174 | field 33 of an RMC sentence is stored as its time |
| Nmea.CommaBehindPair | src/module_shims/gps-nmea.c:101-113 | a comma behind the pair publishes if and only if the pair is the checksum with the comma in it |
| Nmea.HoldChangesWhenTrue | src/module_shims/gps-nmea.c:95-136 | gps_consume returns true only for a terminator behind a matching checksum, and what is held then is the data; otherwise only `$` changes what is held |
| Nmea.MismatchRejected | src/module_shims/gps-nmea.c:142-153 | with a wrong pair and a nonzero checksum nothing is published, through CR, LF and the next `$` |
| Nmea.SingleErrorRejected | src/module_shims/gps-nmea.c:126-153 | a sentence with any one character of a field changed and its pair kept publishes nothing, unless the changed text has checksum zero |
| Nmea.ZeroChecksumAccepted | src/module_shims/gps-nmea.c:142-153 | with a wrong pair and a zero checksum the scrubbed record is published as valid |
| Nmea.ZeroChecksumWitness | src/module_shims/gps-nmea.c:142-153 | `$GPRMC,g*01` is such a sentence |
| Nmea.OtherTypeIgnored | src/module_shims/gps-nmea.c:155-168 | a sentence whose address field has five characters and is neither GPRMC nor GPGGA changes nothing up to and including the next `$`, whatever follows its first comma |
| Nmea.SentenceOfAnyKind | src/module_shims/gps-nmea.c:96-238 | any sentence with its own checksum, from any state: CR publishes a record if and only if the first field of five characters is not another type; which record, the empty one included; and what the next `$` leaves |
| Nmea.AnyKindRejected | src/module_shims/gps-nmea.c:142-168 | any sentence with a wrong pair and a nonzero checksum publishes nothing, through CR, LF and the next `$` |
| Nmea.ProprietaryWitness | src/module_shims/gps-nmea.c:142-168 | `$PSRF150,1*3E` replaces any record by an empty one marked valid |
| Nmea.SentenceFits | src/module_shims/gps-nmea.c:126-132 | no character of a well-formed sentence overruns gps_buff, from any state |
| GpsEndToEnd.ReceiveText | src/hw/hw_swuart.c:255-328 | any text on the line, each character followed by a rest until its stop bit is served, is received as one word a character in order |
| GpsEndToEnd.TextCanBeServed | src/hw/hw_swuart.c:255-328 | every such line has a run of interrupts that are raised and served in time |
| GpsEndToEnd.SentenceReceived | src/module_shims/gps-nmea.c:96-238 | a seven-bit RMC or GGA sentence on the line leaves gps_data_hold equal to its fields with the checksum passed, from any parser state |
| GpsEndToEnd.SentIsFrame | src/hw/hw_swuart.c:80-127 | the toggles of swu_setup_tx, at whatever timer reading it was set up, are a frame of the byte to any receiver within one part in 18, at least a latency apart |
| GpsEndToEnd.SentCarries | src/hw/hw_swuart.c:80-127 | a text of which each character is set up at or after the end of the one before is on the line with the rests that the receiver needs |
| GpsEndToEnd.SentenceSentAndReceived | src/hw/hw_swuart.c:80-383 | the whole path from swu_setup_tx waveforms to gps_data_hold: the line is computed from the edge lists, the interrupts from the line, the stop sample and the latency |
| GpsEndToEnd.Replay | src/hw/hw_swuart.c:255-383 | serving a run of interrupts on the device feeds the parser exactly the characters of the run |
| GpsEndToEnd.ReceiveSentence | src/hw/hw_swuart.c:255-383 | on the device, the interrupts that a sentence on the line raises leave gps_data_hold equal to its record |
| UsbFrame.BlocksShape | src/usb/msg_interface.c:68-81 | a frame goes out in ceil(size/16384) blocks, exactly the last one flagged, which together are the frame |
| UsbFrame.FrameParts | src/usb/msg_interface.c:57-62 | length, tag and data are read back from the frame |
| UsbFrame.FrameBytes | src/usb/msg_interface.c:57-62 | the frame byte by byte: length and tag least significant byte first, then the data |
| UsbSend.MsgIn.StartEp | src/usb/msg_interface.c:68-81 | the next block is posted only when none is outstanding and moves from what is unsent to the wire, or completion is signalled |
| UsbSend.MsgIn.Send | src/usb/msg_interface.c:83-102 | a connected device appends the message to what it has accepted, an unconnected one returns -1 and changes nothing; blocks posted and unsent stay those of everything accepted |
| UsbSend.MsgIn.HandleCompletion | src/usb/msg_interface.c:127-131 | a completed block is followed by the next one or by the message event |
| UsbSend.MsgIn.InHandler | src/usb/msg_interface.c:212-224 | the message just sent leaves the list and the next one is started |
| UsbSend.MsgIn.NothingLost | src/usb/msg_interface.c:57-102 | whenever the list is empty the wire has carried the blocks of every accepted message in order |
| UsbSend.Flush | src/usb/msg_interface.c:212-224 | completions and events by themselves empty the list |
| UsbReceive.RoundToEndpointSize | src/usb/msg_interface.c:42-44 | the least multiple of the endpoint size that is greater than the size |
| UsbReceive.MessageReceived | src/usb/msg_interface.c:113-210 | for every message a conforming host's transfer is dispatched once: as a command with its low tag byte and all its data below tag 2^24, as an echo of itself from 0xAA000000 to 0xAAFFFFFF, as an invalid tag otherwise; it takes 1 buffer if length+8 < 512 and 2 + (length-504)/16384 otherwise |
| UsbReceive.TransferDeterministic | src/usb/msg_interface.c:133-153 | a transfer has one outcome |
| UsbReceive.BlocksReceived | src/usb/msg_interface.c:68-81 | feeding the blocks of a sent message to the receive path gives back the message, dispatched by its tag |
| UsbReceive.ShortPacketDropped | src/usb/msg_interface.c:137-144 | a packet too short for a header is dropped and the receiver rearmed |
| UsbReceive.ShortMessageRejected | src/usb/msg_interface.c:173-210 | a short packet with less data than announced is an invalid length, and the receiver is ready again |
| UsbReceive.ShortPacketOfLong | src/usb/msg_interface.c:173-184 | a short packet that announces a long message is kept, and buffers for the rest are posted |
| UsbReceive.TruncatedRejected | src/usb/msg_interface.c:145-210 | a long message that ends early is an invalid length, and the receiver is ready again |
| UsbReceiver.MsgOut.StartEp | src/usb/msg_interface.c:113-121 | posts a buffer that holds the rest and the short packet, or a full block, when none is outstanding |
| UsbReceiver.MsgOut.HandleCompletion | src/usb/msg_interface.c:133-153 | a completed buffer takes the specified step |
| UsbReceiver.MsgOut.Allocate | src/usb/msg_interface.c:175-178 | the buffer has the announced length and begins with the data of the first packet |
| UsbReceiver.MsgOut.Conclude | src/usb/msg_interface.c:186-209 | a message of the right length goes where its tag says, an echo and nothing else joins the outgoing messages, and the receiver is rearmed |
| UsbReceiver.MsgOut.OutHandler | src/usb/msg_interface.c:173-210 | the handler takes the specified step and sends back exactly the echoed messages |
| UsbReceiver.RunTransfer | src/usb/msg_interface.c:127-210 | a transfer on the device ends in the state of the specification, exactly its echoed messages having been sent back |
| UsbReceiver.ReceiveMessage | src/usb/msg_interface.c:113-210 | on the device, a host's message leads to exactly one outcome, by its tag as in MessageReceived with its own data; exactly an echo is sent back, if connected; with the stated number of buffers, the device is ready again |
| SpiArbiter.StepKeeps | builtin/tessel.js:1043-1164 | every push of a transfer that is not raw, lock request, release, completion and callback keeps the invariant |
| SpiArbiter.MutualExclusion | builtin/tessel.js:1043-1164 | in every reachable state exactly one of idle, in flight, execution scheduled, ready scheduled and lock held is true, it is idle iff both queues are empty, and the "something went wrong" return is unreachable: a completion or execution to come finds a transfer, a ready event to come a lock |
| SpiArbiter.CompletionOrder | builtin/tessel.js:1070-1147 | transfers complete in push order, each callback is that of the transfer shifted, and at most one transfer completes between a lock's registration and its ready event |
| SpiArbiter.LockOrder | builtin/tessel.js:1043-1094 | locks are given the bus, and give it back, in the order in which they were registered: a ready event goes to the oldest lock not released |
| SpiArbiter.BusFollowsTable | builtin/tessel.js:1043-1147 | where each action leads from each state of the bus: a waiting lock before a waiting transfer, the next transfer by a callback of its own behind a completion and at once behind a release |
| SpiArbiter.SomethingDue | builtin/tessel.js:1043-1147 | unless idle, a completion, a callback or a release is due |
| SpiArbiter.DueStepsDrain | builtin/tessel.js:1043-1147 | every such step lowers a measure, so a bus left alone becomes idle |
| SpiArbiter.StrandedExactly | builtin/tessel.js:1043-1164 | over all runs, raw transfers allowed, a lock ends up with nothing to give it the bus if and only if a raw transfer completed as the last one while a lock was waiting; the "something went wrong" return stays unreachable |
| SpiArbiter.RawTransferStrandsLock | builtin/tessel.js:1122-1135 | the shortest such run: a raw transfer, a lock request, the completion |
| SpiQueue.AsyncSPIQueue.ExecuteAsync | builtin/tessel.js:1110-1164 | the head of the queue is captured and started, or -1 is returned |
| SpiQueue.AsyncSPIQueue.PushTransfer | builtin/tessel.js:1096-1108 | the specified step, keeping the invariant |
| SpiQueue.AsyncSPIQueue.RegisterLock | builtin/tessel.js:1070-1094 | the specified step, keeping the invariant |
| SpiQueue.AsyncSPIQueue.DeregisterLock | builtin/tessel.js:1043-1068 | the specified step, keeping the invariant |
| SpiQueue.AsyncSPIQueue.ProcessTransfer | builtin/tessel.js:1117-1147 | the completed transfer is shifted and the lock or the next transfer scheduled |
| SpiQueue.AsyncSPIQueue.OnSpiComplete | builtin/tessel.js:1117-1159 | all registered listeners run once, keeping the invariant |
| SpiQueue.AsyncSPIQueue.OnTurn | builtin/tessel.js:1054-1056 | the oldest setImmediate callback runs, keeping the invariant |
| SpiDma.NumLinkedListsIsCeiling | src/hw/hw_spi_async.c:88-95 | the item count is ceil(n/4095) and grows with n, so chunks fit the lists allocated for the buffer |
| SpiDma.PacketizeStep | src/hw/hw_spi_async.c:105-163 | the list holds the chain for the chunk and is otherwise unchanged |
| SpiDma.ChainCopies | src/hw/hw_spi_async.c:105-163 | walking the chain moves the covered bytes in order, with the interrupt bit and the null link on the last item only, every item with the masters and increments of its direction |
| SpiDma.WholeBufferCopied | src/hw/hw_spi_async.c:131-142 | all n bytes are moved if and only if n is not a multiple of 4095 |
| SpiEngine.InterruptKeeps | src/hw/hw_spi_async.c:42-86 | every terminal-count interrupt leads from one chunk of the job to the same, the next or the end, and lowers the lexicographic measure |
| SpiEngine.JobRuns | src/hw/hw_spi_async.c:42-86 | under any order of interrupts nothing is completed while a channel is busy, and when none is, exactly the events of the whole job have happened, in order |
| SpiEngine.EveryJobRuns | src/hw/hw_spi_async.c:42-86 | what every job with a nonempty chunk comes to, proper or not: early completion if there is nothing to repeat or the chunk exceeds the buffer, then all chunks of all passes in order, 2^32 passes for zero repetitions and one chunk a pass for an oversized one, then completion |
| SpiEngine.ReceptionBegunFirst | src/hw/hw_spi_async.c:298-310 | in every run each transmission is begun right behind the reception at the same offset |
| SpiEngine.SelectedWhileBusy | src/hw/hw_spi_async.c:55-86 | at every moment of every run of any job the chip select level was last set low if and only if a channel is busy |
| SpiEngine.JobTerminates | src/hw/hw_spi_async.c:64-86 | every interrupt of a run of any job with a nonempty chunk lowers (passes left, bytes left, channels busy) |
| SpiEngine.PassOffsets | src/hw/hw_spi_async.c:64-86 | a pass begins transfers at offsets 0, c, 2c, ... on each channel in use |
| SpiEngine.JobOffsets | src/hw/hw_spi_async.c:64-86 | a whole job goes through these offsets once for each repetition, on each channel in use |
| SpiEngine.JobTransferCount | src/hw/hw_spi_async.c:64-86 | a whole job makes repeat * (buffer_length / chunk_size) transfers on each channel in use |
| SpiEngine.FulfilledExactly | src/hw/hw_spi_async.c:312-325 | a job that uses a channel has bounded runs only, completes nothing while busy and ends in exactly the events of the whole job, if and only if its chunk is nonempty and fits the buffer and there is something to repeat |
| SpiEngine.EmptyChunkNeverCompletes | src/hw/hw_spi_async.c:64-86 | under any interrupts an empty chunk leaves a channel busy again and nothing completed |
| SpiEngine.UnfulfilledJobs | src/hw/hw_spi_async.c:320-323 | a job with nothing to repeat, one with a chunk beyond its buffer and one with an empty chunk are not done as asked |
| SpiAsync.SpiStatus.TransferStep | src/hw/hw_spi_async.c:288-310 | the specified step, with the descriptor chains of this chunk in the lists of the busy channels |
| SpiAsync.SpiStatus.DefaultCompleteCb | src/hw/hw_spi_async.c:64-86 | the specified step, with the chains of the next chunk, if any, in the lists |
| SpiAsync.SpiStatus.DmaCounter | src/hw/hw_spi_async.c:42-53 | the specified step, staying inside the job, the list of every busy channel being the chain of the present chunk |
| SpiAsync.SpiTransfer | src/hw/hw_spi_async.c:312-325 | the engine is in its starting state, completion included when there is nothing to repeat or the chunk exceeds the buffer, with the chains of the first chunk in the lists |
| SpiAsync.PassMovesBuffer | src/hw/hw_spi_async.c:296-309 | the chains of a pass together move the buffer's bytes once each in order, sending or receiving, unless the chunk size is a multiple of 4095 |
| SpiAsync.JobMovesBuffer | src/hw/hw_spi_async.c:296-309 | the chains of the transfers that a whole job begins move the buffer once for each repetition on each channel in use, if and only if the chunk size is not a multiple of 4095 |
| UartQueue.ArriveIsAppend | src/hw/hw_uart.c:145-164 | arriving bytes are appended as far as there is room |
| UartQueue.CallbackDelivers | src/hw/hw_uart.c:167-183 | the callback delivers exactly what was queued when it looked, whatever arrives while it is at work |
| UartQueue.ReceiveConserves | src/hw/hw_uart.c:137-183 | for any interleaving of interrupts, look-ups and drains, delivered and queued bytes are those that did not arrive at a full ring, in order, and the callback's assertion holds |
| UartRing.HeldAppend | src/hw/hw_uart.c:153-156 | writing at the head of a ring that is not full appends to its contents |
| UartRing.Ring.IntReceive | src/hw/hw_uart.c:137-165 | the ring holds what the bounded queue holds after the same arrivals |
| UartRing.Ring.RxAvailable | src/hw/hw_uart.c:343-345 | the number of bytes held |
| UartRing.Ring.Receive | src/hw/hw_uart.c:307-341 | the oldest bytes, as many as asked for and held, leave the ring |
| UartRing.Ring.Fill | src/hw/hw_uart.c:263-277 | as many bytes as there is room for are appended and counted |
| UartRing.Ring.Empty | src/hw/hw_uart.c:204-213 | the oldest bytes go to the hardware until it is full or the ring empty |
| UartRing.Port.RxInterrupt | src/hw/hw_uart.c:137-165 | the receive interrupt takes the specified step |
| UartRing.Port.DrainAvailable | src/hw/hw_uart.c:174-182 | the callback reads exactly as many bytes as it found available, whatever interrupts came between |
| UartRing.Port.IntTransmit | src/hw/hw_uart.c:190-227 | bytes sent and still queued are those accepted, in order, the ring is touched only with the interrupt off, and the interrupt stays on iff some are queued |
| UartRing.Port.Send | src/hw/hw_uart.c:249-296 | the returned count is what was accepted, and none of it is lost; the transmit interrupt is left on if it was, and otherwise bytes go out at once and it is on iff some are queued |
| FlashImage.BufferWritten | src/sys/spi_flash.c:191-205 | from any prior contents a buffer written at a sector boundary leaves the data, 0xFF in the rest of its sectors and everything else unchanged |
| FlashImage.BlockWritten | boot/main.c:74-91 | what one DFU block does to each byte of the flash: its sector erased if it begins one, then every page in which it has a byte programmed whole, the transfer buffer's old bytes behind its end |
| FlashImage.AcceptsExactly | boot/main.c:52-62 | blocks of up to 4096 bytes with numbers up to 496 are taken |
| FlashImage.ImageDownloaded | boot/main.c:52-91 | in-order blocks of an image leave exactly the image in the firmware partition and nothing outside changed |
| FlashImage.BootloaderKept | boot/main.c:52-91 | no sequence of blocks in any order changes a byte below FLASH_FW_START |
| FlashImage.ConfinedExactly | boot/main.c:57-62 | an accepted nonempty block leaves everything outside the firmware partition alone, for all flash contents, if and only if its number is below 496 |
| SpiFlash.Wait | src/sys/spi_flash.c:130-132 | returns with the chip no longer busy |
| SpiFlash.EraseSectorAt | src/sys/spi_flash.c:145-150 | the sector is erased, since the chip is ready and write-enabled when the command comes |
| SpiFlash.WritePage | src/sys/spi_flash.c:134-139 | the page is programmed, likewise |
| SpiFlash.WriteBuffer | src/sys/spi_flash.c:193-205 | the flash holds the buffer at its address and is otherwise as specified |
| SpiFlash.DnloadBlock | boot/main.c:52-72 | which blocks are taken and where they go, or which error is reported |
| SpiFlash.Bootloader.BlockCompleted | boot/main.c:74-91 | the transfer buffer is programmed in whole pages, behind an erase where a sector begins |
| SpiFlash.Bootloader.Download | boot/main.c:52-91 | a taken block takes the specified step, a refused one changes nothing, and the boot partition is kept |
| Vs1053Plugin.WriteData | src/module_shims/audio-vs1053b.c:889-894 | the do-while loop writes exactly the words that the 16-bit length counts down |
| Vs1053Plugin.LoadRecord | src/module_shims/audio-vs1053b.c:864-895 | one record is loaded, or the loader returns |
| Vs1053Plugin.LoadPlugin | src/module_shims/audio-vs1053b.c:842-899 | the loader terminates with the writes and the result of the specification |
| Vs1053Plugin.PluginLoaded | src/module_shims/audio-vs1053b.c:842-895 | loading printed records and an execute record makes exactly their writes in order, the address 0x8000 on for type 0, as it is for type 1 and 0x4000 on for type 2, mod 2^16, then big-endian data words, and returns the execute address |
| Vs1053Plugin.PluginWithoutExecute | src/module_shims/audio-vs1053b.c:864-899 | without an execute record the same writes are made and 0xFFFF is returned |
| Vs1053Plugin.UnknownTypeEnds | src/module_shims/audio-vs1053b.c:867-874 | a record type of 4 or more ends the loading with 0xFFFF, the records before it having been written |
| Vs1053Plugin.NotAPlugin | src/module_shims/audio-vs1053b.c:842-855 | a file that does not begin with "P&H" returns 0xFFFF and writes nothing |
| Vs1053Plugin.TruncatedRecord | src/module_shims/audio-vs1053b.c:875-894 | a file that ends inside a record is read on behind its end, the words it holds having been written |
| Vs1053Plugin.DataWordAt | src/module_shims/audio-vs1053b.c:889-893 | word k is written from bytes 2k and 2k+1, most significant first |

## Left out

- SwUartReceiver.ReceiverDevice.Isr: instants are unbounded numbers, because the timer is taken not to wrap inside a received character; shift counts that C leaves undefined are a precondition.
- SwUartTransmit.Transmitter.TxChr: begins when the busy wait for room in the FIFO is over; interrupts between its statements are not modelled. Its caller `hw_swuart_transmit` first sets MCR to 2, which turns the match interrupt off, so the claims hold for calls of that function made while the transmitter is at rest.
- GpsParser.Gps.Consume: requires room for the NUL behind the character, because the source writes past its buffer otherwise.
- Nmea.PrintThenConsume: takes fewer than 32 fields of at most 29 characters, as GPS_UNIQUE_CASE and gps_buff do.
- Nmea.SentenceOfAnyKind: likewise, the fewer than 32 fields being those behind the type.
- SwUartReceiver.ReceiverDevice.RxChr: the overflow flag it clears is set nowhere and has no field.
- SwUartReceive.ReceiveFrame: takes toggles at least an interrupt latency apart; an edge that comes before the one before it is served is lost to the capture unit.
- GpsEndToEnd.ReceiveText: takes lines that rest behind each character until its stop bit is sampled, nine and a half bits after its start, and served. The transmitter modelled here rests longer than that (`GpsEndToEnd.SentCarries`); a sender that starts the next character ten of its own bit times after the last gives that rest only if those are no less than nine and a half of the receiver's and the latency.
- UsbReceive.MessageReceived: takes messages whose length with the header fits 32 bits, a conforming host and a connected session; `malloc` does not fail.
- UsbReceiver.MsgOut.HandleCompletion: more bytes than the message has left are a precondition away, because the endpoint has then written past the allocated buffer before `msg_out_pos > msg_out_length` is tested.
- UsbReceiver.MsgOut.OutHandler: a first packet with more data than its header announces is a precondition away, because it would be copied past the allocated buffer.
- SpiQueue.AsyncSPIQueue.PushTransfer: takes transfers with raw = false, as every caller of the library makes them, and buffers that _performTransfer accepts.
- SpiQueue.AsyncSPIQueue.DeregisterLock: only the lock that has been given the bus is released, and no raw transaction of a lock is under way.
- SpiAsync.SpiTransfer: takes a chunk that needs no more list items than the buffer, because the descriptor lists are allocated for the buffer and written past their end otherwise.
- SpiAsync.SpiStatus.DmaCounter: DMA error interrupts, custom callbacks, the chip select delay and the clean-up behind the completion event are not modelled.
- UartRing.Port.IntTransmit: says nothing about when the transmit interrupt comes, because the flag behind it is shared by three ports.
- SpiFlash.DnloadBlock: with RAM as the target only the check is modelled, not the memory.
- Vs1053Plugin.LoadPlugin: opening and closing the file is left out, and reading on behind the end of the file is an outcome of its own.
- edge_last of the receiver is written and never read, so it has no field.
- Cancelling transfers and disconnecting (`msg_cleanup_handler`, `hw_spi_async_cleanup`) are left out: they abandon the state that the other steps keep.
- The GPS getters, Wi-Fi, I2C, analog, PWM, SDRAM, OTP, Neopixel, audio playback, logging, script loading and register set-up are left out: hardware configuration, or easier members.
