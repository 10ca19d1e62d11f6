# Red Pitaya notes: cores, pulse path and bitstream loader

A Dafny model of the synchronous hardware cores of this repository and of the
software that feeds them, with proofs over whole runs.

Every Verilog module is a datatype of its registers and a function for one clock
(`Next`). What the neighbours drive is arbitrary in every clock. A `System` adds the
log of everything that crosses the interfaces, and the theorems relate these logs for
every run from reset. Beside it each module has a `class Core` with the register
fields of the source and a `Tick` method proved to compute `Next`. C and Python code
that works step by step is a class or a method with its loops, proved against a
function, and the theorems are about that function.

- **Transport.** `Streams`, `InputBuffer`, `OutputBuffer`, `InoutBuffer`: elastic buffers
  as queues. `Sequencer`, `AxisCounter`, `AxisPacketizer`, `AxisBramReader`: sources and
  limiters. `BurstRing`, `AxisRamWriter`, `RamImage`, `AxisRamReader`: bursts to and from
  a ring in RAM. `LostAddress`: the writer with a slave that takes no address.
  `RecorderSystem`, `RecorderImage`: counter or packetizer in front of the writer, and what
  it leaves in RAM.
  `AxisOscilloscope`, `AxisHistogram`. `ByteLanes`, `AxiHubWrite`, `AxiHubRead`, `AxiHub`:
  the AXI3 slave, its two channels, and both on the same registers and block RAMs.
- **Pulse path.** `PulseEntries`, `PulseClient`, `PulseServer`, `PulseSequence`,
  `AxisGateController`, `PulseSystem`: from the calls of the client to the waveform.
- **Bitstream loader.** `LittleEndian`, `XilinxDevcfg`, `FpgaBitToBin`.
- **Fixed point.** `Arithmetic`, `Rounding`, `Dsp48`, `Dds`, `DdsTable`, `DdsAccuracy`: the outputs of the
  DDS are the cosine and the sine of the phase to less than two steps.

The proofs establish the promises only under conditions in these places. Each condition
is exact, by the theorem named with it:

- The burst writer has one flag for an address that waits. A burst that starts while the
  flag is taken loses an address; in a run none is lost if and only if the slave had taken at
  most 30 beats beyond the bursts whose address it took whenever a burst started
  (`AxisRamWriter.AddressIsLostExactly`). A slave that takes data and no address loses one
  from reset (`LostAddress.AddressGetsLost`). The order of addresses and data, the FIFO and
  the place of every burst do not depend on the slave.
- The server keeps 1048576 entries. A further call adds none, but its second command
  still overwrites the level and phase of the last entry, so the table is what the client
  sent if and only if there is room (`PulseServer.RoundTripUpToLimit`).
- The server does not look at how many bytes it has received. A command cut off at the end of
  a connection is executed with the upper bytes of the command before it, and the table is
  that of the complete commands if and only if nothing was cut off or the merged command
  leaves it as it is (`PulseServer.IncompleteCommand`, `PulseServer.HalfCommandAdds`).
- The loader looks for the sync word in the first write only, and not in its last four
  bytes. The result is independent of the cuts if and only if the first write reaches
  beyond the sync word, or there is nothing to remove and nothing to swap
  (`XilinxDevcfg.IndependentOfCuts`).
- A write beat of the hub takes the address lines of all block RAMs, and its own RAM. The
  words read are right throughout a run if and only if every write beat is harmless to the
  read beat of the same clock and to a response that waits
  (`AxiHubRead.AlignedExactly`, `AxiHub.HubReadsExactly`). Two clocks after a reset a write
  can have harmed a read (`AxiHub.DisturbedReadHappens`).
- The hub ignores the ready output of its stream buffers. A stream stays in step with the
  writes to it if and only if none meets a full buffer (`AxiHub.StreamsOut`), which four
  clocks can bring about (`AxiHub.FullBufferHappens`).
- 32766 is the largest level for which no sample wraps the output of the multiplier
  (`Dsp48.LevelLimitIsExact`), and the server takes exactly the levels up to it
  (`PulseServer.Server.SetLevel`).
- The sequence loop refills the transmit FIFO in every iteration. A table above 4096 entries
  is written to its end if and only if the FIFO shows room at every word in the last one
  (`PulseSequence.WritesAllExactly`).
- Of the table amplitudes that fit 23 bits only the largest, 2^23, makes an output of the
  DDS wrap; the 2^23 - 2 of the helper is two below it (`DdsTable.AmplitudeLimitIsExact`).
  If nothing is known of the angles of the entries, 2^23 - 2 is safe and 2^23 - 1 is not
  (`Dds.OutputsNeverWrap`, `Dds.AnyAngleIsNotEnough`).

## Model

| member | source | states |
|---|---|---|
| InputBuffer.StepConserves | modules/input_buffer.v:24-46 | in any clock, stored words followed by the accepted one are the delivered one followed by the stored ones |
| InputBuffer.RefinesQueue | modules/input_buffer.v:24-46 | for every run from any state nothing is lost, duplicated or reordered |
| InputBuffer.OfferIsStable | modules/input_buffer.v:37-46 | a word offered and refused is offered unchanged in the next clock, whatever the producer does |
| InputBuffer.Core.Tick | modules/input_buffer.v:24-46 | the clocked block computes the step function |
| OutputBuffer.RefinesQueue | modules/output_buffer.v:24-46 | for every run from any state nothing is lost, duplicated or reordered |
| OutputBuffer.Core.Tick | modules/output_buffer.v:24-46 | the clocked block computes the step function |
| InoutBuffer.StepConserves | modules/inout_buffer.v:24-38 | the chain conserves words, and its first stage holds one only behind a word of the second |
| InoutBuffer.RefinesQueue | modules/inout_buffer.v:24-38 | for every run the chain is a queue of at most two words |
| InoutBuffer.OfferIsStable | modules/inout_buffer.v:24-38 | a word offered and refused is offered unchanged |
| InoutBuffer.OneWordPerCycle | modules/inout_buffer.v:24-38 | with willing neighbours a word enters and leaves in every clock after the first, although ready and valid are both registers |
| InoutBuffer.Core.Tick | modules/inout_buffer.v:24-38 | the two chained instances together compute the step function |
| Sequencer.RunPhase | cores_demin/axis_counter.v:29-95 | after any run the enable, count and limit registers are those of the number of transfers, which is determined by the accepting clocks, the limit and the mode |
| AxisCounter.CountsInOrder | cores_demin/axis_counter.v:29-98 | 0, 1, ..., cfg_data in order, once or for ever, one word in every ready clock after two |
| AxisCounter.Core.Tick | cores_demin/axis_counter.v:29-98 | next-state block and registers compute the step function |
| AxisPacketizer.PassesPackets | cores_demin/axis_packetizer.v:36-118 | under any stalls exactly the first cfg_data + 1 samples pass in STOP mode and all in CONTINUOUS mode, none if cfg_data is 0; tlast is on exactly the last of every cfg_data + 1; without ALWAYS_READY every sample taken passes, with it every sample offered is taken |
| AxisPacketizer.Core.Tick | cores_demin/axis_packetizer.v:36-118 | next-state block, registers and outputs are those of the step function |
| AxisBramReader.FlightStep | cores_demin/axis_bram_reader.v:116-149 | the three stages, with the BRAM output register as data of the first, are one queue |
| AxisBramReader.RunInv | cores_demin/axis_bram_reader.v:46-142 | delivered beats and beats in flight are always the first beats read, in order |
| AxisBramReader.OutputValid | cores_demin/axis_bram_reader.v:116-142 | from the fourth clock the output is valid exactly until everything has been delivered |
| AxisBramReader.StreamsMemory | cores_demin/axis_bram_reader.v:46-149 | for every stall pattern the consumer gets mem[0..cfg_data] in order, tlast on exactly the last beat, once or repeated, and exactly as many beats as there are ready clocks after the fourth |
| AxisBramReader.StatusIsPosition | cores_demin/axis_bram_reader.v:144-144 | in STOP mode sts_data is the number of beats delivered, less one while a beat shows through the second stage, and less one after the last address |
| AxisBramReader.ResetResets | cores_demin/axis_bram_reader.v:46-53 | a reset from any state leaves a reset state |
| AxisBramReader.Core.NextAddress | cores_demin/axis_bram_reader.v:62-114 | the combinational block of either mode |
| AxisBramReader.Core.Tick | cores_demin/axis_bram_reader.v:46-149 | registers, three stages and BRAM port compute the step function |
| BurstRing.BeatGoesToSlot | cores_demin/axis_ram_writer.v:127-127 | beat j of bursts through the ring goes to slot j modulo the ring |
| BurstRing.SlotsDiffer | cores_demin/axis_ram_writer.v:127-127 | different slots of a ring that fits the address space have different addresses |
| AxisRamWriter.ResetResets | cores_demin/axis_ram_writer.v:88-96 | a reset from any state leaves a reset state |
| AxisRamWriter.ControlStep | cores_demin/axis_ram_writer.v:61-119 | a burst in progress has all its remaining words in the FIFO, kept by every clock |
| AxisRamWriter.SafeStep | cores_demin/axis_ram_writer.v:61-141 | the invariant of control, bursts, addresses and beats is kept by every clock, whatever the slave does |
| AxisRamWriter.InvStep | cores_demin/axis_ram_writer.v:61-141 | and with it that no address is lost, by every clock in which the slave is in step |
| AxisRamWriter.NeverUnderflows | cores_demin/axis_ram_writer.v:61-119 | in every run the FIFO is never read empty, a nonzero beat counter means a burst in progress, and its owed words are there |
| AxisRamWriter.WritesStream | cores_demin/axis_ram_writer.v:61-141 | for every schedule address k is that of ring position k mod (cfg_data + 1), and beat j carries word j of the accepted stream, marked last exactly on every sixteenth |
| AxisRamWriter.OverwritesExactly | cores_demin/axis_ram_writer.v:61-109 | a starting burst overwrites the flag if and only if the slave is more than 30 beats ahead of the addresses it took or never will |
| AxisRamWriter.LossesCount | cores_demin/axis_ram_writer.v:61-119 | in every run exactly as many addresses are missing as bursts overwrote the flag |
| AxisRamWriter.AddressIsLostExactly | cores_demin/axis_ram_writer.v:61-119 | no address is lost in a run from reset if and only if the slave was in step whenever a burst started |
| AxisRamWriter.DataNearAddresses | cores_demin/axis_ram_writer.v:61-141 | with a slave in step the data taken are at most two bursts ahead of the addresses taken |
| AxisRamWriter.AddressFirstKeepsStep | cores_demin/axis_ram_writer.v:61-109 | a slave that takes the address of burst k before any beat of burst k + 1 is always in step |
| AxisRamWriter.AddressFirstExactly | cores_demin/axis_ram_writer.v:61-109 | which is to take at most sixteen beats beyond the bursts whose address it took |
| LostAddress.AddressGetsLost | cores_demin/axis_ram_writer.v:61-121 | with samples always there, data always taken and no address ever taken, a run from reset of any core whose FIFO holds a burst loses an address: one address less than bursts |
| AxisRamWriter.Core.Clock | cores_demin/axis_ram_writer.v:97-121 | the overriding assignments of the clocked block |
| AxisRamWriter.Core.Tick | cores_demin/axis_ram_writer.v:61-156 | registers, FIFO and both output buffers compute the step function |
| RamImage.RingHoldsLatest | cores_demin/axis_ram_writer.v:105-141 | RAM holds in every slot the latest word mapped to it, and nothing is written elsewhere |
| RamImage.RamIsCircularImage | cores_demin/axis_ram_writer.v:61-141 | for every run, slot j mod ring holds word j of the accepted stream until word j + ring replaces it |
| RamImage.Drains | cores_demin/axis_ram_writer.v:61-121 | once the input stops, a bounded number of willing clocks, however interrupted, empties the core of whole bursts |
| RamImage.DrainsInTime | cores_demin/axis_ram_writer.v:61-121 | without interruptions a clock for each bus word in the FIFO and two more are enough |
| RamImage.DataSettled | cores_demin/axis_ram_writer.v:61-143 | a drained core has sent the data of every whole burst of the accepted stream, and addresses of no more bursts, whatever the slave did |
| RamImage.Settled | cores_demin/axis_ram_writer.v:61-143 | with a slave in step all their addresses too, and sts_data is their number modulo the ring |
| RecorderSystem.DataCompletes | cores_demin/axis_ram_writer.v:61-141 | counter or packetizer in STOP mode into the writer, with any slave: after a bounded number of willing clocks all limit + 1 samples are accepted and the data of every whole burst sent |
| RecorderSystem.CompletesInTime | cores_demin/axis_ram_writer.v:61-141 | without interruptions that takes a clock for each sample, one for each bus word sent and four more |
| RecorderSystem.RecordingCompletes | cores_demin/axis_ram_writer.v:61-143 | with a slave in step all addresses are taken too, and sts_data is the number of bursts modulo the ring |
| RecorderSystem.CounterStream | cores_demin/axis_counter.v:72-98 | the stream accepted from the counter is 0, 1, 2, ... |
| RecorderImage.LatestInRam | cores_demin/axis_ram_writer.v:105-141 | every slot of the ring holds the latest word of the accepted stream mapped to it, word for word |
| RecorderImage.CountsInRam | cores_demin/axis_counter.v:72-98 | once the recording of a counter is complete, unit t of the word in the slot of word j is the count j times the word size plus t, for the latest j of every slot |
| RecorderImage.TestPrints | projects/writer_test/test.c:83-116 | the 32-bit value at index i of the ring of 2097152 is i in the end, and 2097152 + i for the first 64 |
| RecorderImage.AcceptsFirst | cores_demin/axis_packetizer.v:81-118 | the writer accepts exactly the first limit + 1 samples that meet it |
| RecorderImage.SamplesInRam | projects/adc_recorder/adc-recorder.c:51-70 | once a recording is complete every slot holds the latest of these samples mapped to it, in order |
| RecorderSystem.TestWaitsForTwo | projects/writer_test/test.c:74-100 | with 2097151 + 64 counts and a ring of 65536 bursts the position ends at 2 |
| RecorderSystem.StaysInBuffer | projects/adc_recorder/adc-recorder.c:36-52 | with N samples of 4 bytes, 32 dividing N, and a page-aligned base, every burst ever asked for lies inside the 4 N bytes and inside one page, whatever the slave does |
| RecorderSystem.NothingLeftBehind | projects/adc_recorder/adc-recorder.c:51-70 | and after a bounded number of willing clocks no sample remains in the FIFO |
| AxisRamReader.ControlStep | cores_demin/axis_ram_reader.v:51-101 | FIFO count and beats still to come stay within the depth, with at most one burst outstanding |
| AxisRamReader.NeverOverflows | cores_demin/axis_ram_reader.v:51-121 | in every run with a slave that follows AXI, whatever words it returns, each returned beat finds room, although rready is constant |
| AxisRamReader.GivesWhatReturns | cores_demin/axis_ram_reader.v:51-123 | the addresses are those of the ring in order, and output and FIFO together are the words returned, unit by unit |
| AxisRamReader.ReadsRing | cores_demin/axis_ram_reader.v:51-123 | from a memory, which may change, the output is the ring read round and round, each word as it was when its beat was read |
| AxisRamReader.KeepsReading | cores_demin/axis_ram_reader.v:51-123 | the core never stops: clocks in which slave and consumer answer are at most four for each unit given, apart from a bound by the FIFO depth |
| AxisRamReader.NeverStops | cores_demin/axis_ram_reader.v:51-123 | with a slave that returns every word that is due and a consumer that takes everything, a quarter as many units as clocks come out, apart from that bound |
| AxisRamReader.ResetResets | cores_demin/axis_ram_reader.v:74-81 | a reset from any state leaves a reset state |
| AxisRamReader.Core.Tick | cores_demin/axis_ram_reader.v:51-123 | registers, FIFO and address buffer compute the step function |
| AxisOscilloscope.RecordsAsAsked | cores_demin/axis_oscilloscope.v:46-83 | from the inputs alone: after run_flag the trigger falls on the first valid sample after the first clock with trg_flag high and more than pre_data samples seen; the recording goes on until the last sample that tot_data asks for after it, and ends exactly there; the status shows the trigger sample, and zero before it |
| AxisOscilloscope.NeverEndsUntriggered | cores_demin/axis_oscilloscope.v:46-51 | with trg_flag low throughout a recording goes on for ever |
| AxisOscilloscope.Aligned | cores_demin/axis_oscilloscope.v:35-91 | a completed recording has at least pre_data + 1 samples before the trigger sample that its inputs determine, and a total whose value modulo 64 does not depend on the trigger, for all settings, also when the counter wraps |
| AxisOscilloscope.RecordsWholeBlocks | cores_demin/axis_oscilloscope.v:46-91 | with tot_data at least pre_data + 63 the total is the whole blocks of 64 before that trigger sample plus tot_data - pre_data + 2 |
| AxisOscilloscope.Core.Tick | cores_demin/axis_oscilloscope.v:35-91 | the nested conditions on the flags compute the step function |
| AxisHistogram.InvStep | cores_demin/axis_histogram.v:43-103 | the sample in progress is the only one not yet in memory, in each of the three phases |
| AxisHistogram.CountsSamples | cores_demin/axis_histogram.v:43-103 | whenever the core is ready every bin is its first contents plus the samples with that index, saturated, for every arrival pattern |
| AxisHistogram.ReadyAgain | cores_demin/axis_histogram.v:71-94 | a sample keeps the core busy for exactly three clocks, whatever its bin held, so it is ready again after every sample |
| AxisHistogram.OneInThree | cores_demin/axis_histogram.v:71-94 | a producer that always offers a sample has one taken in every third clock |
| AxisHistogram.Core.Tick | cores_demin/axis_histogram.v:43-103 | the state machine and the BRAM port compute the step function |
| ByteLanes.HoldsNext | cores_demin/axi_hub.v:289-311 | a strobed write keeps every byte equal to the last write beat that hit it |
| AxiHubWrite.ResetResets | cores_demin/axi_hub.v:289-329 | a reset from any state leaves a reset state with a cleared configuration |
| AxiHubWrite.InvStep | cores_demin/axi_hub.v:237-311 | buffers hold exactly what has been taken and not used, the counter is the position in the burst, and responses and registers fit, kept by every clock |
| AxiHubWrite.WritesBursts | cores_demin/axi_hub.v:237-349 | in every run beat i of burst k is applied once, in order, with its strobes and data: in the region in bits 27 to 24 of awaddr, at byte awaddr - awaddr % 4 + 4 (i mod 16) modulo 2^24; responses are the ids of the completed bursts in order; every register byte is that of the last beat that hit it |
| AxiHubWrite.ConsecutiveWords | cores_demin/axi_hub.v:248-248 | in every run a burst begins at the word of its address, and its beats go to consecutive words of one region, modulo 2^22, for sixteen beats at a time |
| AxiHubWrite.EveryBurstAnswered | cores_demin/axi_hub.v:237-251 | every burst whose address and beats have been taken is answered within three clocks in which responses are taken |
| AxiHubRead.Cursor | cores_demin/axi_hub.v:313-320 | the beat counter and the request at the head advance together |
| AxiHubRead.OneHandshake | cores_demin/axi_hub.v:261-281 | at most one stream port makes a handshake in a clock |
| AxiHubRead.ResetResets | cores_demin/axi_hub.v:311-320 | a reset from any state leaves no request, response or beat count |
| AxiHubRead.InvStep | cores_demin/axi_hub.v:241-273 | issued beats are those of the completed requests and the first ones of the request at the head, kept by every clock |
| AxiHubRead.AnswersInOrder | cores_demin/axi_hub.v:241-371 | in every run: arlen + 1 beats for each request in order, with its id and rlast exactly on the last, beat i in the region in bits 27 to 24 of araddr at byte araddr - araddr % 4 + 4 i modulo 2^24; and one stream word taken for each beat on a stream port that has one |
| AxiHubRead.ConsecutiveReads | cores_demin/axi_hub.v:249-249 | in every run a burst begins at the word of its address and reads consecutive words of one region, modulo 2^22 |
| AxiHubRead.TakesStreamWord | cores_demin/axi_hub.v:256-273 | regions 2 to 7 are the stream ports 0 to 5: a beat issued to one that has a word takes it, and no other beat takes any |
| AxiHubRead.Captured | cores_demin/axi_hub.v:256-371 | what a response shows: multiplexer, stream word, or the word at the address the BRAM port drove |
| AxiHubRead.DataStaysAligned | cores_demin/axi_hub.v:256-371 | under any stalls the n-th word given is the one at the n-th beat's address as of its issue, if no write beat disturbs the BRAM |
| AxiHubRead.WriteTakesAddress | cores_demin/axi_hub.v:373-379 | a beat issued to a BRAM in the clock of a write beat elsewhere reads at the write address, and is correct if and only if the same word is there |
| AxiHubRead.CorrectStepExactly | cores_demin/axi_hub.v:256-379 | a clock keeps the words read right if and only if its write beat is harmless: the word shown at issue is the one wanted, and a waiting BRAM output is not overwritten by another word |
| AxiHubRead.AlignedExactly | cores_demin/axi_hub.v:256-379 | the words are right throughout a run from reset if and only if every clock of it was harmless |
| AxiHubRead.OneBeatPerCycle | cores_demin/axi_hub.v:246-251 | while responses are taken a beat is issued in every clock in which one is due |
| AxiHubRead.EveryRequestAnswered | cores_demin/axi_hub.v:246-251 | so after as many clocks as beats are due, and one more, all of them have been given |
| AxiHub.StepsRegs | cores_demin/axi_hub.v:237-371 | the registers of the system step by the step function of the whole hub |
| AxiHub.ResetResets | cores_demin/axi_hub.v:284-371 | a reset of the whole hub from any state leaves one for which all the results hold |
| AxiHub.HubKeepsPromises | cores_demin/axi_hub.v:237-371 | in every run of the whole hub both channels do the above, and each BRAM holds what the write beats leave in it |
| AxiHub.HubReadsCorrectly | cores_demin/axi_hub.v:256-379 | undisturbed by the hub's own write beats, every word given is the one meant |
| AxiHub.HubReadsExactly | cores_demin/axi_hub.v:256-379 | the same for the whole hub and its own write beats |
| AxiHub.DisturbedReadHappens | cores_demin/axi_hub.v:376-378 | two clocks after any reset a read of one BRAM can have got the word at the address of a write to another |
| AxiHub.ReadsConfig | cores_demin/axi_hub.v:254-311 | a beat that reads a configuration word gets, byte by byte, what the write channel last put there |
| AxiHub.ReadsStatus | cores_demin/axi_hub.v:254-298 | a beat that reads a status word is answered with that word of the clock in which it is issued, whatever is written and whatever the BRAMs show |
| AxiHub.ReadsBram | cores_demin/axi_hub.v:373-380 | a beat that reads a BRAM is meant to get what the write channel last put there, or its first contents |
| AxiHub.SendsStep | cores_demin/axi_hub.v:265-390 | a stream output stays in step with the writes to its region if and only if a write never meets a full buffer |
| AxiHub.StreamsOut | cores_demin/axi_hub.v:265-390 | throughout a run from reset an output gives the words written to its region, in order, if and only if no write meets a full buffer |
| AxiHub.FullBufferHappens | cores_demin/axi_hub.v:385-391 | four clocks after any reset a beat of a burst to a stream that takes nothing is lost |
| AxiHub.Core.ClockConfig | cores_demin/axi_hub.v:284-304 | the flip-flops with their clock enables apply the beat to the addressed word only |
| AxiHub.Core.ClockWrite | cores_demin/axi_hub.v:237-349 | write channel: wires, counter and buffers compute the step function |
| AxiHub.Core.ClockRead | cores_demin/axi_hub.v:246-368 | read channel: wires, counter and buffers compute the step function |
| AxiHub.Core.Tick | cores_demin/axi_hub.v:237-390 | the whole hub computes its step function |
| AxiHub.Core.Wires | cores_demin/axi_hub.v:370-384 | read data is the or of the response and the selected BRAM outputs; enables, strobes and addresses of the BRAM ports, ready outputs of the streams |
| PulseClient.CommandsOfCall | projects/pulsed_nmr/client/pulsed_nmr.py:169-180 | in range, or-ing code and fields gives the code and the two halves of the entry |
| PulseClient.AddedBytes | projects/pulsed_nmr/client/pulsed_nmr.py:169-180 | in range packing never fails and gives the bytes of the two commands |
| PulseClient.Client.ClearPulses | projects/pulsed_nmr/client/pulsed_nmr.py:164-167 | writes command 7 unless idle |
| PulseClient.Client.Add | projects/pulsed_nmr/client/pulsed_nmr.py:169-180 | the bytes written, and what remains written if packing fails |
| PulseServer.DecodesCalls | projects/pulsed_nmr/server/pulsed-nmr.c:130-186 | the table that any list of calls leaves, with or without room |
| PulseServer.RoundTripUpToLimit | projects/pulsed_nmr/server/pulsed-nmr.c:171-186 | decoding undoes the packing if and only if the calls fit the table |
| PulseServer.PacksExactly | projects/pulsed_nmr/client/pulsed_nmr.py:167-180 | a command packs if and only if its eight bytes carry it |
| PulseServer.ReceivesSent | projects/pulsed_nmr/server/pulsed-nmr.c:130-132 | the server receives the commands the client wrote, however many |
| PulseServer.Server.Execute | projects/pulsed_nmr/server/pulsed-nmr.c:133-186 | commands 7, 8 and 9 on the word array and size do to the table what the decoding function says, also code 9 without an entry, which leaves it undefined; command 3 sets the level if and only if no 24-bit sample wraps the multiplier with it, and with the level in force every output of the multiplier is the rounded product |
| PulseServer.Server.SetLevel | projects/pulsed_nmr/server/pulsed-nmr.c:150-154 | a level is taken exactly if no sample wraps with it |
| PulseServer.Server.AddEntry | projects/pulsed_nmr/server/pulsed-nmr.c:175-182 | the array holds one more entry with this count and cleared fields |
| PulseServer.Server.SetFields | projects/pulsed_nmr/server/pulsed-nmr.c:183-186 | the fields of the last entry are replaced, its count and all others kept |
| PulseServer.CommandsOfBytes | projects/pulsed_nmr/server/pulsed-nmr.c:130-132 | the commands of a connection: the complete ones, and an incomplete one merged with the command before it |
| PulseServer.IncompleteCommand | projects/pulsed_nmr/server/pulsed-nmr.c:130-186 | the table is that of the complete commands if and only if the bytes are whole commands or the merged one leaves the table as it is |
| PulseServer.MergedCode | projects/pulsed_nmr/server/pulsed-nmr.c:130-132 | a merged command has the code of the command before it |
| PulseServer.HalfCommandAdds | projects/pulsed_nmr/server/pulsed-nmr.c:130-182 | one byte after a complete code 8 adds a second entry |
| PulseServer.Server.Serve | projects/pulsed_nmr/server/pulsed-nmr.c:128-186 | the receive loop executes these commands, from any table and with anything in the command variable; the level is the last one that was taken, and every output of the multiplier is the rounded product |
| PulseSequence.FillTx | projects/pulsed_nmr/server/pulsed-nmr.c:214-219 | words go out in order, until the counter shows a full FIFO or the table ends |
| PulseSequence.DrainRx | projects/pulsed_nmr/server/pulsed-nmr.c:204-212 | a chunk is sent only if the counter shows that it is there; never more than 2048 samples |
| PulseSequence.Iterate | projects/pulsed_nmr/server/pulsed-nmr.c:202-223 | one iteration: a chunk if the counter shows it, then words until the transmit FIFO shows 16384 or the table ends |
| PulseSequence.StartSequence | projects/pulsed_nmr/server/pulsed-nmr.c:187-223 | the loop ends after exactly the iterations that the receive counter makes it take, having sent the first data samples in order in chunks of at most 32768 bytes, or at a send that fails; in every iteration the transmit FIFO has been filled up to a reading of 16384 or the end of the table, no word past such a reading; a table of at most 4096 entries is complete before the start |
| PulseSequence.WritesAllExactly | projects/pulsed_nmr/server/pulsed-nmr.c:214-219 | with a FIFO that drains, a table of any size has been written to its end if and only if the last iteration shows room at every word |
| PulseSequence.WritesAll | projects/pulsed_nmr/server/pulsed-nmr.c:214-219 | with a FIFO that keeps draining at some rate, enough iterations write every table to its end |
| PulseEntries.AssembleWords | projects/pulsed_nmr/server/pulsed-nmr.c:179-185 | the width conversion of the FIFO undoes the word layout |
| AxisGateController.AdvanceConserves | cores_demin/axis_gate_controller.v:28-58 | every playing clock takes the next element off the waveform that remains |
| AxisGateController.ShowsBits | cores_demin/axis_gate_controller.v:29-55 | the gate is bit 48 of the fields, the level bits 47 to 32, the phase bits 31 to 0, and the bits above do not matter |
| AxisGateController.PlaysWaveform | cores_demin/axis_gate_controller.v:28-58 | for every pattern of offers the playing clocks show each entry count + 1 times with level and phase, and otherwise the gate is closed |
| AxisGateController.NoGaps | cores_demin/axis_gate_controller.v:28-58 | if an entry is there whenever one is asked for, the waveform is played in consecutive clocks |
| AxisGateController.ClosedUntilEntry | cores_demin/axis_gate_controller.v:33-58 | from any state: once aresetn has been low the gate is closed, during the reset and after it, until an entry is taken; during the reset level and phase are zero |
| AxisGateController.Core.Tick | cores_demin/axis_gate_controller.v:28-62 | the clocked block computes the step function |
| PulseSystem.LoadsEntries | projects/pulsed_nmr/server/pulsed-nmr.c:130-186 | from the client's bytes to the entries the gate controller gets |
| PulseSystem.OnePulse | projects/pulsed_nmr/client/pulsed_nmr.py:175-180 | every 16-bit level, 32-bit phase and width of up to 2^60 can be asked for and stands for that output for exactly that many clocks |
| PulseSystem.OneDelay | projects/pulsed_nmr/client/pulsed_nmr.py:169-174 | a delay of any width with the gate open or closed, likewise |
| PulseSystem.CompilesFaithfully | projects/pulsed_nmr/client/pulsed_nmr.py:164-180 | for every list of calls in range that fits the table, the playing clocks show the waveform the calls describe, each output for exactly its width |
| PulseSystem.CompilesExactly | cores_demin/axis_gate_controller.v:28-58 | without interruptions the waveform is exact clock by clock |
| PulseSystem.PlaysPrefix | projects/pulsed_nmr/server/pulsed-nmr.c:214-219 | however many words of the table the loop has written, what plays is the start of the waveform |
| PulseSystem.PlaysToEnd | projects/pulsed_nmr/server/pulsed-nmr.c:214-219 | with the whole table written, of whatever size, the gate plays the waveform exactly, clock by clock, to its end |
| PulseSystem.Perform | projects/pulsed_nmr/client/pulsed_nmr.py:182-193 | client, socket, receive loop and sequence loop together: what the gate plays of the words written is the start of the waveform the calls describe; at most 4096 calls are written before the start; a table of any size is written to its end if and only if the last iteration shows room at every word, and then the waveform plays to its end |
| XilinxDevcfg.FindSyncInside | patches/xilinx_devcfg.c:333-349 | the search ends at the first sync word, or four bytes before the end |
| XilinxDevcfg.LoadsStream | patches/xilinx_devcfg.c:311-421 | after any successful writes the DMA data are the whole words of the stream without its header, swapped or not, the residue is the rest of it, and the file position counts all bytes written |
| XilinxDevcfg.IndependentOfCuts | patches/xilinx_devcfg.c:311-363 | the result is that of the sync word wherever the bytes are cut, if and only if the first write reaches beyond the sync word or there is nothing to remove and to swap |
| XilinxDevcfg.Search | patches/xilinx_devcfg.c:333-344 | the loop finds what the search function says, and the flag |
| XilinxDevcfg.Collect | patches/xilinx_devcfg.c:311-325 | the stragglers of the last write, then the user's data |
| XilinxDevcfg.RemoveHeader | patches/xilinx_devcfg.c:330-350 | what precedes the first sync word is gone, unless that word is in the last four bytes or absent |
| XilinxDevcfg.MoveDown | patches/xilinx_devcfg.c:348-348 | the bytes after the header, moved to the front in place |
| XilinxDevcfg.SwapWords | patches/xilinx_devcfg.c:358-363 | in place, the bytes of every word reversed |
| XilinxDevcfg.Driver.constructor | patches/xilinx_devcfg.c:571-574 | opening resets the flag and the residue |
| XilinxDevcfg.Driver.Finish | patches/xilinx_devcfg.c:353-363 | residue saved, whole words swapped and handed on |
| XilinxDevcfg.Driver.Write | patches/xilinx_devcfg.c:288-431 | status and whole new state of one write, also for the failing ones |
| FpgaBitToBin.Flip32 | helpers/fpga-bit-to-bin.py:9-20 | reverses the bytes of every word, and fails exactly on an incomplete last word |
| FpgaBitToBin.FlipTwice | helpers/fpga-bit-to-bin.py:9-20 | an involution on whole words |
| FpgaBitToBin.TwoFormats | helpers/fpga-bit-to-bin.py:9-20 | a file whose first sync word is reversed and word-aligned, after bytes that start none, and its flipped form give the same DMA data, each cut in its own way |
| Rounding.SliceRounds | cores_demin/dsp48.v:20-42 | adding one less than a half, dropping the fraction and or-ing the pattern detect bit rounds half to odd |
| Rounding.NearestTiesOdd | cores_demin/dsp48.v:42-42 | the rounded value is within half a unit, and odd if exactly half a unit away |
| Dsp48.RoundsProduct | cores_demin/dsp48.v:19-42 | for all widths P is the product over 2^SHIFT rounded half to odd, modulo 2^P_WIDTH |
| Dsp48.OutputIsExact | projects/pulsed_nmr/rx.tcl:215-224 | at 24 by 16 to 14 bits the output read as a signed number is the rounded product for every level the server admits |
| Dsp48.LevelLimitIsExact | projects/pulsed_nmr/server/pulsed-nmr.c:150-154 | for every level: no sample wraps if and only if it is at most 32766 |
| Dds.FirstSlice | cores_demin/dds.v:95-110 | the first slice computes the correction of the phase within a table interval |
| Dds.FoldsQuadrants | cores_demin/dds.v:29-90 | for every phase, in quadrant q, step k of 2048 and d from its centre: the table pair is entry k and its mirror image turned by q right angles, and the correction is d * 3217 / 2^17 rounded |
| Dds.FoldsExactly | cores_demin/dds.v:29-30 | with any table it is that if and only if no zero entry has to be negated, which 23 bits cannot do |
| Dds.SixClocks | cores_demin/dds.v:29-144 | all paths take six clocks: the output accumulators depend on the phase six clocks earlier and on nothing else |
| Dds.PhaseAccumulates | cores_demin/dds.v:34-59 | the phase is the sum of the increments, or its negative, modulo 2^32 |
| Dds.PhaseFromReset | cores_demin/dds.v:46-69 | after a reset from any state it is the sum of the increments since |
| Dds.ExactInRange | helpers/dds-mem.py:3-6 | with any table within a half of (2^23 - 2) cos and sin no corrected value comes within half a step of the 24-bit range |
| Dds.OutputsNeverWrap | cores_demin/dds.v:29-146 | in every run both outputs are the corrected values rounded half to odd, and never wrap |
| Dds.OutputsTurn | cores_demin/dds.v:29-146 | in every run the outputs are that pair, turned by that correction and rounded, of the phase six clocks earlier |
| Dds.AnyAngleIsNotEnough | helpers/dds-mem.py:3-6 | at the amplitude 2^23 - 1 some table whose pairs belong to some angles makes an output wrap |
| DdsTable.FirstAngle | helpers/dds-mem.py:5-6 | half a step, a right angle halved twelve times: the bounds of its sine and cosine that decide the rounding of the first entry |
| DdsTable.SmallerNeverWrap | helpers/dds-mem.py:3-6 | for every amplitude below 2^23 no table written by the helper's formula makes any output wrap at any phase |
| DdsTable.LimitWraps | helpers/dds-mem.py:3-6 | every table of amplitude 2^23 has the first entry 2^23 - 1 and makes an output wrap |
| DdsTable.LargerDoNotFit | helpers/dds-mem.py:3-6 | no table of a larger amplitude fits 23 bits |
| DdsTable.TableIsWritten | helpers/dds-mem.py:6-6 | the rounded table exists and fits for amplitudes from 2000 to 2^23 |
| DdsTable.AmplitudeLimitIsExact | helpers/dds-mem.py:3-6 | of the amplitudes up to 2^23, no table wraps if and only if the amplitude is not 2^23 |
| DdsTable.WrittenIsQuarterWave | helpers/dds-mem.py:5-6 | the helper's table is one of those the outputs were proved for |
| DdsAccuracy.PairIsCentre | helpers/dds-mem.py:5-6 | at every phase the table pair is within a half of the amplitude times the unit vector at the centre of its step, in its quadrant |
| DdsAccuracy.PhaseOf | cores_demin/dds.v:62-104 | the angle of a phase is that of the entry of its step, turned to its quadrant, and the distance from the centre |
| DdsAccuracy.CorrectionIsSmall | cores_demin/dds.v:95-110 | the correction, 3217 per step of the phase, is the sine of the distance to 3.6e-8, and its cosine is one to 7.4e-8 |
| DdsAccuracy.OutputsFollowPhase | cores_demin/dds.v:29-146 | in every run, with the table of any amplitude below 2^23 and at every phase, both outputs are within 1.95 steps of the amplitude times the cosine and the sine of the phase six clocks earlier, the angle of phase c being c times a right angle halved thirty times |
| Dds.Core.ClockSlices | cores_demin/dds.v:95-144 | the pipeline registers of the three slices |
| Dds.Core.Tick | cores_demin/dds.v:29-144 | registers, table and slices compute the step function |

## Left out

- Internals of the vendor's FIFO, ROM and DSP slice: a FIFO is an exact queue that converts the word width with the first-written word in the low bits, a ROM is a function, and of the DSP slice only multiply, add and pattern detection are modelled.
- Counts of the FIFOs: they are taken to follow every access at once.
- Cores that contain buffers hold the registers of these as values in a field; the chain of two buffers is the one place where they are objects.
- AxisRamWriter.DataNearAddresses: asks that the slave is in step when a burst starts, because one flag remembers the address; the condition is exact.
- AxisRamReader.NeverOverflows: asks for a slave that returns sixteen bus words for each address, the last one marked, and none that was not asked for.
- AxisBramReader.StreamsMemory: the memory and cfg_data do not change during the run.
- AxisHistogram.CountsSamples: memory that is cleared first is an instance; the core has no other port to the memory.
- AxisOscilloscope.Aligned: pre_data and tot_data are constant, and the counter has at least six bits.
- AxiHubRead.DataStaysAligned: asks that no write beat of the hub is applied in a clock in which a beat is issued to a BRAM, nor to a BRAM whose output a waiting response shows, because both share one port; the exact condition is that of AlignedExactly.
- Hub regions 8 to 15, and words beyond the configuration or status: the multiplexers show an arbitrary value. A BRAM has all 2^22 words of its region.
- PulseClient.CommandsOfCall: widths up to 2^60 and fields that fit their bits; conversion of degrees to the phase word, and of times to widths, is floating point and not modelled.
- PulseServer.Server.Execute: after a code 9 before any code 8, which writes in front of the array, nothing is said of the table. Codes 0 to 2 and 4 to 6 (frequencies, rate, pins, DAC) are not modelled.
- PulseSequence.StartSequence: asks that the receive FIFO holds 2048 samples time and again; the pulse counter of the FIFO shows what was written as long as nothing is taken out.
- Client plotting, buffers for received data and the time-outs of either side.
- XilinxDevcfg.Driver.Write: the DMA engine takes everything it is handed, also before a time-out or an error is reported. The registers of the engine and its interrupts are not modelled.
- The parser of the bit file in helpers/fpga-bit-to-bin.py around flip32: a list of tagged fields without state.
- DdsAccuracy.OutputsFollowPhase: speaks, like AmplitudeLimitIsExact, of all families of vectors that satisfy the equations of these angles.
- DdsTable.AmplitudeLimitIsExact: speaks of all families of vectors that satisfy the equations of these angles; that cosine and sine do is not proved here.
- Dsp48.RoundsProduct: the one or two clocks of latency of the slice; the function is that of its inputs.
- Adders, selectors, slicers, constants and other cores of one line; I2S, UART, filter and pulse-height cores, which have no written specification; draft cores.
