# CANcept: verified models

CANcept is a tool for CAN buses: it decodes and encodes frames by a DBC description, manipulates and
sends them, monitors their signals, and records sessions as MDF4 or CSV files.  This project models the
parts that hold the logic and proves what they guarantee.  `dafny verify dfyconfig.toml` checks everything.

## Overview

| Files | What they model |
|---|---|
| `Bits`, `CanTypes` | 64-bit words as integers with explicit wrap-around, and the shared data types |
| `DbcCodec`, `DbcCodecTheorems`, `DbcTransmission`, `PhysicalRange` | The DBC signal codec over two accumulator words, its round trips, and a message from sender to receiver |
| `Mdf4Format`, `Mdf4Layout`, `Mdf4Writer` | The MDF4 file as a sequence of bytes, the single-pass layout, and the buffered writer with its patches |
| `Mdf4Fields`, `Mdf4Contents`, `Mdf4Reading` | The same file by the offsets of ASAM MDF 4.10 alone: every field and link, what a foreign reader finds in a closed session, and what this reader finds in any file |
| `Mdf4Walks`, `Mdf4Links`, `Mdf4Reader`, `Mdf4Exact`, `Mdf4RoundTrip`, `Mdf4Session`, `Mdf4RawSession` | What the reader makes of arbitrary bytes, on which of them its walks end, the reader itself, and write-then-read for DBC and RAW sessions |
| `DbcText`, `DbcParser`, `DbcPrinter`, `DbcFiles` | The DBC grammar as functions of the remaining text, the parser that consumes its text, and canonical sections and files that are read back |
| `DbcNumbers`, `DbcExample` | What numbers and tokens mean, digit by digit, and a file in full |
| `SpscRing`, `LoggingWorker` | The lock-free ring and the worker thread, as objects and as machines of interleaved atomic steps |
| `Manipulation`, `Sending`, `ManipulationTheorems`, `ManipulationLaws` | Triggers, effects, latches and verdicts, the callback of repeated sending, what they add up to over a run, and when they apply, said of signals, bits and draws alone |
| `Monitoring`, `MonitoringTheorems` | Windowed averaging and retention of received values |
| `VariableRegistry` | Reference-counted variables and the index by message |
| `CsvText`, `CsvFiles`, `CsvRoundTrip`, `CsvLaws` | CSV rows, the reader with its lookahead line, reading back an export, and the texts character by character |

Each imperative part is a class or method whose contract ties it to a specification function.  What such a
function means is said a second time without it, by index, byte or digit (`FirstValue`, `Mdf4Fields`, `Mdf4Reading`,
`DbcNumbers`, `ManipulationLaws`, `CsvLaws`), and the theorem modules prove what the functions guarantee.  The main results:

- **Codec.** `RawRoundTrip`, `DecodeThenEncodeProjects` and `QuantisationBound` hold for any mix of byte
  orders and signedness in one frame; `Transmit` puts them together for whole messages.
- **MDF4.** `LayoutIsExact`, `Close`, `FileRoundTrip`, `Replay` and `ReplayRaw` hold for any schema in the stated limits, any
  records and any flush points; `DbcFileIsReadable` and `RawFileIsReadable` say what any other reader finds in the file;
  `FileIsRead` says what this reader finds in any file, and `LoopsExactly` on which files it never ends.
- **Parser.** `ParseDbc` terminates on every text, and `FileReads` says which canonical files are read as they were printed.
- **Concurrency.** `RingIsSafe` and `DrainIsComplete` hold in every interleaving.
- **Manipulation.** `VerdictIsDecidedByWhatFired`, `DbcAppliesIfTriggersHold`, `RawAppliesIfTriggersHold`, `ItemsAreScheduled` and
  `RunsAreOrderFree`.
- **Monitoring.** `SamplesAreConserved`, `SpacedIffReopenedInTime` and `CleaningRemovesOldFront` over any run of frames,
  refreshes and cleanings.
- **Registry and CSV.** `CountIsNet`, `OnCanDbcReceived`, `RowRoundTrip`, `ReadBack` and `ReadBackDbc`.

Some promises turned out to hold only under a condition.  Each is stated as an equivalence:

- a raw integer survives exactly if its field can hold it (`RawRoundTrip`);
- a reference count is acquires minus releases exactly if no release came too early (`CountIsNet`);
- a printed DBC file is read as it was printed exactly if something stands behind its nodes and does not start with `EV_`
  (`FileReads`); `VariableFirstIsRefused` and `OnlyAVariable` show files that fail;
- the MDF4 reader walks for ever exactly if a chain of completely read blocks returns to one of its own blocks
  (`LoopsExactly`); `SelfLinkLoops` is such a file, `CutSelfLinkIsRefused` one with a cycle that it refuses;
- a raw CSV row is read back exactly if the frame has data, a standard identifier, zero bytes behind its length, and the division
  of its time to seconds leaves the right billionths (`RowRoundTrip`): below 2^52 ns for every time that is not negative and
  for whole seconds (`ShortRowRoundTrip`), but not for every time of today (`LongTimeIsRounded`);
- a DBC export is read as a DBC file exactly if no column is called ID, and then each message comes back as the columns keep
  it (`ReadBackDbc`);
- windows start at least 50 ms apart exactly if every frame that finds no window open arrives at least 50 ms after the start
  of the last one (`SpacedIffReopenedInTime`); a frame received before the refresh that closed that window need not
  (`LateFrameSplitsWindow`), and with synchronised clocks there is none (`WindowsAreSpaced`).

## Model

| member | source | states |
|---|---|---|
| `DbcCodecTheorems.FramePosIsDbcNumbering` | src/can_handler/can_communication_handler/can_dbc_handler.cpp:96-122 | The shifts implement the DBC bit numbering: Intel bits count up from the start bit; a Motorola signal has its most significant bit at the start bit and walks down each byte, then on to bit 7 of the next |
| `DbcCodec.DecodeReadsField` | src/can_handler/can_communication_handler/can_dbc_handler.cpp:96-122 | Isolating the field by shifts in the little- or big-endian word, with sign extension, reads exactly the number spelled by the signal's frame bits |
| `DbcCodec.SplitWords` | src/can_handler/can_communication_handler/can_dbc_handler.cpp:44-49 | The loop over the payload builds the two words of the frame: bit i of the little-endian word is frame bit i, bit i of the big-endian word its byte mirror |
| `DbcCodec.JoinWords` | src/can_handler/can_communication_handler/can_dbc_handler.cpp:178-182 | Merging the two accumulators bytewise with OR sets a frame bit exactly if either word carries it |
| `DbcCodec.ParseSendSignal` | src/can_handler/can_communication_handler/can_dbc_handler.cpp:190-217 | Clamping, unscaling, rounding, masking and shifting set exactly the frame bits of the signal's raw integer in the word of its byte order and leave all other bits as they were |
| `DbcCodec.DecodeSignals` | src/can_handler/can_communication_handler/can_dbc_handler.cpp:50-91 | The two passes over the signals deliver the published values of the plain signals in order, then those that the last multiplexor selects |
| `DbcCodec.LastDefinitionIsLast` | src/can_handler/can_communication_handler/can_dbc_handler.cpp:219-254 | Of several definitions of one identifier the last one is in force |
| `DbcCodec.CanDbcHandler.constructor` | src/can_handler/can_communication_handler/can_dbc_handler.cpp:219-254 | No message is known before a DBC arrives |
| `DbcCodec.CanDbcHandler.HandleNewDbc` | src/can_handler/can_communication_handler/can_dbc_handler.cpp:219-254 | The table afterwards holds the last definition of every standard identifier and nothing from before |
| `DbcCodec.CanDbcHandler.ParseReceivedMessage` | src/can_handler/can_communication_handler/can_dbc_handler.cpp:24-95 | A decoded message is published exactly for known identifiers with enough data, and holds the values of the active signals |
| `DbcCodec.CanDbcHandler.HandleEncodeMessage` | src/can_handler/can_communication_handler/can_dbc_handler.cpp:124-188 | The frame of a known message has a bit set exactly if some sent signal has it set, with the identifier and the length of the description |
| `DbcCodecTheorems.RawRoundTrip` | src/can_handler/can_communication_handler/can_dbc_handler.cpp:44-217 | Mixed-endian round trip: decoding an encoded frame gives every sent signal its raw integer, wrapped to its field; unchanged exactly if the field can hold it, whatever other signals share the frame |
| `DbcCodecTheorems.WrappedIsExactWhenRepresentable` | src/can_handler/can_communication_handler/can_dbc_handler.cpp:202-204 | The mask loses nothing exactly if the raw integer fits the field |
| `DbcCodecTheorems.UnsentDecodesToZero` | src/can_handler/can_communication_handler/can_dbc_handler.cpp:149-182 | A signal whose bits no sent signal covers decodes to raw 0 |
| `DbcCodecTheorems.EncodingIsOrderFree` | src/can_handler/can_communication_handler/can_dbc_handler.cpp:149-182 | Any reordering of the sent values gives the same frame |
| `DbcCodecTheorems.ActiveCharacterised` | src/can_handler/can_communication_handler/can_dbc_handler.cpp:50-91 | The decoded signals are exactly the plain ones and those whose multiplexor value is the selected one |
| `DbcCodecTheorems.SelectionIsPositionFree` | src/can_handler/can_communication_handler/can_dbc_handler.cpp:50-91 | The only multiplexor selects wherever it stands in the list of signals |
| `DbcCodecTheorems.DecodeThenEncodeProjects` | src/can_handler/can_communication_handler/can_dbc_handler.cpp:50-217 | Encoding what was decoded gives the frame back with exactly the bits outside the active signals cleared, even if signals overlap |
| `DbcCodecTheorems.QuantisationBound` | src/can_handler/can_communication_handler/can_dbc_handler.cpp:96-217 | What is decoded lies within half a step of the value that was sent, if that is in the signal's range, of the maximum if it is above, and of the minimum if it is below, exactly if the raw integer is representable |
| `DbcCodecTheorems.RoundsHalfAway` | src/can_handler/can_communication_handler/can_dbc_handler.cpp:197-199 | Rounding goes to the nearest integer, from halfway away from zero |
| `DbcCodecTheorems.PublishedIs` | src/can_handler/can_communication_handler/can_dbc_handler.cpp:50-91 | A multiplexor is published cut towards zero, every other signal as its raw integer times the factor plus the offset |
| `DbcCodecTheorems.PlainInOrder` | src/can_handler/can_communication_handler/can_dbc_handler.cpp:60-80 | The signals without a condition are decoded in the order of the description |
| `DbcCodecTheorems.SelectedInOrder` | src/can_handler/can_communication_handler/can_dbc_handler.cpp:82-91 | So are those whose number the multiplexor carries |
| `DbcCodecTheorems.LastMultiplexorSelects` | src/can_handler/can_communication_handler/can_dbc_handler.cpp:69-77 | Of several multiplexors the last one selects |
| `DbcCodecTheorems.NothingSelects` | src/can_handler/can_communication_handler/can_dbc_handler.cpp:50-91 | Without a multiplexor no multiplexed signal is decoded |
| `DbcCodec.FoundIsFirst` | src/can_handler/can_communication_handler/can_dbc_handler.cpp:153-165 | A sent value goes to the first signal of its name |
| `DbcCodecTheorems.FilledRangeIsRepresentable` | src/can_handler/dbc_handler/dbc_parser.cpp:798-823 | Ranges filled in for 0 to 0 only ever send representable raw integers, so the bound above always holds for them |
| `PhysicalRange.FilledRangeIsExact` | src/can_handler/dbc_handler/dbc_parser.cpp:798-823 | A range filled in for 0 to 0 holds the physical values of exactly the raw integers of the signal's type, for every positive factor; any other range is kept |
| `DbcTransmission.CarriedIsRead` | src/can_handler/can_communication_handler/can_dbc_handler.cpp:50-217 | The multiplexor is read as the number that was sent, cut to its field, or as 0 where nothing was sent |
| `DbcTransmission.MultiplexorSelects` | src/can_handler/can_communication_handler/can_dbc_handler.cpp:50-217 | A multiplexed signal is decoded exactly if the multiplexor carries its number, sent or not, for a multiplexor with factor 1, offset 0 and at most 31 bits |
| `DbcTransmission.ActiveIsDelivered` | src/can_handler/can_communication_handler/can_dbc_handler.cpp:50-217 | A sent signal that is active and survives its field, the multiplexor included, is published to within half a step of its value, or of the nearer bound of its range |
| `DbcTransmission.Transmit` | src/can_handler/can_communication_handler/can_dbc_handler.cpp:24-217 | Encoding a message and decoding the frame delivers every sent signal that its field can hold and that is plain, the multiplexor, or selected: within half a step of its value in the range, of the maximum above it, of the minimum below it; a multiplexor that is not sent selects number 0; nothing is published exactly if the described length does not fit into a byte |
| `Mdf4Layout.ComputeDbcLayout` | src/can_stream/writer/mdf4_helper.hpp:133-178 | One pass over the schema computes the offset of every block |
| `Mdf4Layout.ComputeMsgLayout` | src/can_stream/writer/mdf4_helper.hpp:133-178 | The offsets of one channel group: names, unit texts, channels, MD block and CG block back to back |
| `Mdf4Layout.ComputeRawLayout` | src/can_stream/writer/mdf4_helper.hpp:180-223 | The same for the fixed blocks of a RAW session |
| `Mdf4Exact.LayoutIsExact` | src/can_stream/writer/mdf4_writer.cpp:190-313 | For every schema each computed offset is the position in the file of the block that it is meant for: FH, DG, DT, and all blocks of every group |
| `Mdf4Exact.ChannelParts` | src/can_stream/writer/mdf4_writer.cpp:131-180 | A channel's name, unit and CN block stand where its group's layout says |
| `Mdf4Exact.GroupParts` | src/can_stream/writer/mdf4_writer.cpp:190-253 | A group's acquisition name, MD or SI block, channels and CG block stand where the layout says |
| `Mdf4Fields.NumberByBytes` | src/can_stream/writer/mdf4_helper.hpp:42-58 | Byte k of a number in the file is its byte of weight 256 to the k, the lowest first |
| `Mdf4Fields.IdStands` | src/can_stream/writer/mdf4_writer.cpp:25-38 | Every field of the identification block stands at the offset of the standard: the file and format names, version 410, zeros |
| `Mdf4Fields.HdStands` | src/can_stream/writer/mdf4_writer.cpp:40-60 | So do the fields of the HD block: links to DG (+24) and FH (+32), the start time at +72, zeros elsewhere |
| `Mdf4Fields.FhStands` | src/can_stream/writer/mdf4_writer.cpp:62-75 | Those of the FH block, with the start time at +40 |
| `Mdf4Fields.DgStands` | src/can_stream/writer/mdf4_writer.cpp:77-89 | Those of the DG block: CG link at +32, DT link at +40, size of the record identifier at +56 |
| `Mdf4Fields.CgStands` | src/can_stream/writer/mdf4_writer.cpp:91-114 | Those of a CG block: links at +24 next, +32 first channel, +40 acquisition name, +48 source, +64 comment; +72 record identifier, +80 count, +88 flags, +90 separator, +96 data bytes |
| `Mdf4Fields.SiStands` | src/can_stream/writer/mdf4_writer.cpp:116-129 | Those of the SI block: type 2 at +48, bus type at +49 |
| `Mdf4Fields.CnStands` | src/can_stream/writer/mdf4_writer.cpp:131-164 | Those of a CN block: links at +24 next, +32 composition, +40 name, +72 unit; +88 type, +89 sync, +90 data type, +92 byte offset, +96 bit count, +108 precision 255, zeros elsewhere |
| `Mdf4Fields.TextStands` | src/can_stream/writer/mdf4_writer.cpp:166-180 | A text block holds its text, a NUL and zeros up to a multiple of eight bytes |
| `Mdf4Fields.DtStands` | src/can_stream/writer/mdf4_writer.cpp:182-188 | The DT block's name and length |
| `Mdf4Fields.ImageIsLinked` | src/can_stream/writer/mdf4_writer.cpp:190-313 | In every file image each link leads to the block that it is meant for: HD to DG and FH, DG to the first CG and DT, every CG to the next, its name, its MD or SI block and its first CN, every CN to the next, its parts, its name and its unit, or is 0 where there is none |
| `Mdf4Contents.CountIsNumber` | src/can_stream/writer/mdf4_writer.cpp:435-435 | A cycle count is the number of the group's records |
| `Mdf4Contents.ClosedFile` | src/can_stream/writer/mdf4_writer.cpp:425-439 | Every closed file is linked so, has the right counts and lengths, and holds the records one behind the other |
| `Mdf4Contents.DbcGroupIsMessageGroup` | src/can_stream/writer/mdf4_writer.cpp:203-250 | The group of a message has a master channel for the time and an eight-byte float for every signal, side by side and in order |
| `Mdf4Contents.MessageIsNamed` | src/can_stream/writer/mdf4_writer.cpp:208-210 | The MD block of a group holds the message's identifier in upper-case hexadecimal digits between its tags |
| `Mdf4Contents.FirstOfTheName` | src/can_stream/writer/mdf4_writer.cpp:365-374 | A recorded value is the one of the first entry with the signal's name, or 0 if there is none |
| `Mdf4Contents.RecordIsRead` | src/can_stream/writer/mdf4_writer.cpp:343-382 | In a record the byte offsets and bit counts of the group's channels lead to the time and to every signal's value, behind the group's record identifier |
| `Mdf4Contents.DbcFileIsReadable` | src/can_stream/writer/mdf4_writer.cpp:190-439 | Whoever follows the links and channels of a closed DBC session, by the offsets of the standard alone, finds the kept messages with their times and values, in order |
| `Mdf4Contents.FrameIsRead` | src/can_stream/writer/mdf4_writer.cpp:384-416 | In a RAW record the channels lead to the time, bus channel 1, identifier, direction 0, length (twice) and the data bytes, zero behind the length |
| `Mdf4Contents.RawFileIsReadable` | src/can_stream/writer/mdf4_writer.cpp:255-439 | The same for a closed RAW session: its named channels, its CAN bus source, and every frame |
| `Mdf4Writer.Mdf4Writer.WriteIdBlock` | src/can_stream/writer/mdf4_writer.cpp:25-38 | Appends the identification block at position 0 |
| `Mdf4Writer.Mdf4Writer.WriteHdBlock` | src/can_stream/writer/mdf4_writer.cpp:40-60 | Appends the HD block with its links and the start time |
| `Mdf4Writer.Mdf4Writer.WriteFhBlock` | src/can_stream/writer/mdf4_writer.cpp:62-75 | Appends the FH block |
| `Mdf4Writer.Mdf4Writer.WriteDgBlock` | src/can_stream/writer/mdf4_writer.cpp:77-89 | Appends the DG block with the links to the first CG and the DT block |
| `Mdf4Writer.Mdf4Writer.WriteCgBlock` | src/can_stream/writer/mdf4_writer.cpp:91-114 | Appends a CG block with a zero cycle count and remembers where the count stands |
| `Mdf4Writer.Mdf4Writer.WriteSiBlock` | src/can_stream/writer/mdf4_writer.cpp:116-129 | Appends the SI block |
| `Mdf4Writer.Mdf4Writer.WriteCnBlock` | src/can_stream/writer/mdf4_writer.cpp:131-164 | Appends a CN block |
| `Mdf4Writer.Mdf4Writer.WriteTxBlock` | src/can_stream/writer/mdf4_writer.cpp:166-172 | Appends a padded TX block |
| `Mdf4Writer.Mdf4Writer.WriteMdBlock` | src/can_stream/writer/mdf4_writer.cpp:174-180 | Appends a padded MD block |
| `Mdf4Writer.Mdf4Writer.WriteDtBlockHeader` | src/can_stream/writer/mdf4_writer.cpp:182-188 | Appends the DT header and remembers where its length stands |
| `Mdf4Writer.Mdf4Writer.WriteDbcHeader` | src/can_stream/writer/mdf4_writer.cpp:190-253 | The header of a DBC session is the whole file image with zero counts and no body |
| `Mdf4Writer.Mdf4Writer.WriteRawHeader` | src/can_stream/writer/mdf4_writer.cpp:255-313 | The header of a RAW session is the file image of its one group |
| `Mdf4Writer.Mdf4Writer.Dbc` | src/can_stream/writer/mdf4_writer.cpp:315-325 | A new DBC writer holds its header and no records |
| `Mdf4Writer.Mdf4Writer.Raw` | src/can_stream/writer/mdf4_writer.cpp:327-336 | A new RAW writer holds its header and no records |
| `Mdf4Writer.Mdf4Writer.WriteDbc` | src/can_stream/writer/mdf4_writer.cpp:343-382 | Accepts a message exactly if the schema knows it: one record of its group with every schema signal in order, the first value of that name or 0.0 |
| `Mdf4Writer.Mdf4Writer.FillDbcRecord` | src/can_stream/writer/mdf4_writer.cpp:351-376 | Laying the record out in zeroed buffer space appends exactly the record's bytes |
| `Mdf4Writer.Mdf4Writer.WriteRaw` | src/can_stream/writer/mdf4_writer.cpp:384-416 | Accepts a frame in a RAW session as one 24-byte record and ignores it in a DBC session |
| `Mdf4Writer.Mdf4Writer.FillRawRecord` | src/can_stream/writer/mdf4_writer.cpp:390-410 | Appends exactly the frame's record bytes |
| `Mdf4Writer.Mdf4Writer.Flush` | src/can_stream/writer/mdf4_writer.cpp:418-423 | Moves the buffer to the file; what has been recorded does not change |
| `Mdf4Writer.Mdf4Writer.PatchU64` | src/can_stream/writer/mdf4_writer.cpp:451-457 | Overwrites eight bytes and returns to the end of the file |
| `Mdf4Writer.Mdf4Writer.Close` | src/can_stream/writer/mdf4_writer.cpp:425-439 | The closed file is the image of schema, start time and accepted records: the DT length is 24 plus all record bytes, each cycle count its group's records, no other byte depends on when it was flushed |
| `Mdf4Writer.Mdf4Writer.PatchCounts` | src/can_stream/writer/mdf4_writer.cpp:435-435 | Patching all cycle counts turns the image with zero counts into the image with every group's count |
| `Mdf4Writer.PatchCount` | src/can_stream/writer/mdf4_writer.cpp:425-439 | Patching one cycle count turns the image into the image with that count |
| `Mdf4Writer.PatchLength` | src/can_stream/writer/mdf4_writer.cpp:425-439 | Patching the DT length turns the image into the image with that length |
| `Mdf4Reader.Mdf4Reader.Open` | src/can_stream/reader/mdf4_reader.cpp:29-41 | Every file on which the walks end is opened, refused or thrown at as the byte-level specification says |
| `Mdf4Reader.Mdf4Reader.Seek` | src/can_stream/reader/mdf4_reader.cpp:67-72 | Seeks exactly the positions up to the record count |
| `Mdf4Reader.Mdf4Reader.ReadDbc` | src/can_stream/reader/mdf4_reader.cpp:112-140 | Delivers the record under the cursor as its group describes it and moves on |
| `Mdf4Reader.Mdf4Reader.ReadRaw` | src/can_stream/reader/mdf4_reader.cpp:89-110 | Delivers the raw frame under the cursor and moves on |
| `Mdf4Reader.ParseRawHeader` | src/can_stream/reader/mdf4_reader.cpp:147-211 | Walks the channels of a RAW session and the sub-channels of its composition |
| `Mdf4Reader.ParseDbcGroups` | src/can_stream/reader/mdf4_reader.cpp:213-273 | Walks the CG links, with the message identifier from the MD text |
| `Mdf4Reader.ParseChannels` | src/can_stream/reader/mdf4_reader.cpp:246-267 | Walks the CN links of a group: signal names without the master, column headers without duplicates |
| `Mdf4Reader.BuildDbcIndex` | src/can_stream/reader/mdf4_reader.cpp:275-311 | Scans the unsorted records into offsets and groups, or fails at an unknown record identifier |
| `Mdf4Reader.GroupOfIsLast` | src/can_stream/reader/mdf4_reader.cpp:275-311 | A record belongs to the last group with its identifier, whose number is kept in one byte |
| `Mdf4Reading.FileIsRead` | src/can_stream/reader/mdf4_reader.cpp:145-311 | What the reader finds in any file, by literal offsets: an opened file has the front, channels, groups and records that its bytes say; a refused one lacks the front, a block on the way, every group, or the group of a record; one that makes it throw has a group whose identifier is no number |
| `Mdf4Reading.ChannelsAreWalked` | src/can_stream/reader/mdf4_reader.cpp:246-267 | From any block of any file, the walk along CN links reads next (+24), name (+40) and sync type (+89), and ends at link 0 or at a block that is cut off |
| `Mdf4Reading.GroupsAreWalked` | src/can_stream/reader/mdf4_reader.cpp:213-273 | The same for groups: next (+24), first channel (+32), MD (+64), record identifier (+72), data bytes (+96) |
| `Mdf4Reading.MsgIdIsRead` | src/can_stream/reader/mdf4_reader.cpp:228-243 | The message identifier is the low 16 bits of the hexadecimal number between the first tags of the MD text, or of the record identifier where there are none |
| `Mdf4Reading.NumberTextIsRead` | src/can_stream/reader/mdf4_reader.cpp:228-243 | What std::stoul makes of digits of either case behind spaces, a sign and 0x |
| `Mdf4Reading.RawChannelsAreWalked` | src/can_stream/reader/mdf4_reader.cpp:170-203 | The same for the channels of a RAW session and the parts of a composition |
| `Mdf4Reading.RecordsAreScanned` | src/can_stream/reader/mdf4_reader.cpp:275-311 | The index steps from record to record by the size of the last group with the record's identifier, ends at the end of the block or of the file, and fails at an identifier that no group has |
| `Mdf4Links.MoreFuelSameFile` | src/can_stream/reader/mdf4_reader.cpp:147-273 | What is found in a file does not depend on the bound on the walks, once it is large enough |
| `Mdf4Links.GoesOnExactly` | src/can_stream/reader/mdf4_reader.cpp:248-267 | A walk along a chain goes on for ever exactly if the chain returns to one of its own blocks, each of them read completely |
| `Mdf4Links.NestedGoesOnExactly` | src/can_stream/reader/mdf4_reader.cpp:170-203 | A walk with inner walks goes on for ever exactly if its own chain returns to one of its blocks, or comes to a block whose inner chain does |
| `Mdf4Links.LoopsExactly` | src/can_stream/reader/mdf4_reader.cpp:147-273 | The walks over a file go on whatever their bound exactly if the file is read up to its first chain and that chain returns; one bound is enough for all other files |
| `Mdf4Links.SelfLinkLoops` | src/can_stream/reader/mdf4_reader.cpp:170-203 | A file of 144 bytes whose channel links to itself, on which the reader never ends |
| `Mdf4Links.CutSelfLinkIsRefused` | src/can_stream/reader/mdf4_reader.cpp:172-176 | A file whose channel links to itself but is cut off is refused: a cycle alone is not enough |
| `Mdf4RoundTrip.StoulOfHex` | src/can_stream/reader/mdf4_reader.cpp:213-273 | Reading an identifier printed in hexadecimal gives it back |
| `Mdf4RoundTrip.MsgIdReadBack` | src/can_stream/reader/mdf4_reader.cpp:213-273 | The identifier printed into the MD block is the one that the reader finds between the tags |
| `Mdf4RoundTrip.WalkFromChannel` | src/can_stream/reader/mdf4_reader.cpp:246-267 | From any channel on, the walk along the written CN links delivers the remaining names |
| `Mdf4RoundTrip.WalkFromGroup` | src/can_stream/reader/mdf4_reader.cpp:213-273 | From any group on, the walk along the written CG links delivers the remaining groups |
| `Mdf4Session.ScanFromRecord` | src/can_stream/reader/mdf4_reader.cpp:275-311 | From any record on, the scan of the written body delivers the remaining offsets and groups |
| `Mdf4Session.RecordReadBack` | src/can_stream/writer/mdf4_writer.cpp:343-382 | A written record is one that the index accepts, and its payload reads as the message projected to the schema |
| `Mdf4Session.SessionParses` | src/can_stream/reader/mdf4_reader.cpp:147-311 | Opening the closed file finds the schema's groups and every record's offset |
| `Mdf4Session.FileRoundTrip` | src/can_stream/reader/mdf4_reader.cpp:112-311 | The file round trip: the records of the closed file are the messages with an identifier in the schema, in order, each projected to the schema's signals with 0.0 for missing ones and its 64-bit words unchanged |
| `Mdf4Session.RecordsAreKept` | src/can_stream/writer/mdf4_writer.cpp:343-382 | The records accepted by a writer belong one by one to the messages that the schema knows |
| `Mdf4Session.NamesSurvive` | src/can_stream/reader/mdf4_reader.cpp:313-320 | A signal name is read back unchanged exactly if it holds no NUL |
| `Mdf4Session.RecordableFits` | src/can_stream/writer/mdf4_writer.cpp:343-382 | In a schema that can be read back every message fits the space that the writer reserves for its record |
| `Mdf4Session.RecordSession` | src/can_stream/writer/mdf4_writer.cpp:315-457 | Recording with flushes at any points gives the file of the session |
| `Mdf4Session.Replay` | src/can_stream/reader/mdf4_reader.cpp:29-140 | Opening that file, seeking any record and reading to the end delivers exactly the kept messages from there on |
| `CanTypes.FirstValue` | src/monitoring/model/monitoring_model.cpp:299-307 | The inner loop finds v exactly if an entry of the name has the value v and no entry before it has the name, and nothing exactly if no entry has the name |
| `Mdf4RawSession.RawGroupsAreRaw` | src/can_stream/writer/mdf4_helper.hpp:180-223 | The blocks of a RAW session have the shape that the reader's walk relies on |
| `Mdf4RawSession.RawSessionParses` | src/can_stream/reader/mdf4_reader.cpp:147-211 | Opening the closed file of a RAW session finds its start time, its columns without the composed channel, and the number of frames |
| `Mdf4RawSession.FrameReadBack` | src/can_stream/writer/mdf4_writer.cpp:384-416 | A written frame is read as the bytes that its length covers and eleven bits of its identifier |
| `Mdf4RawSession.FrameSurvives` | src/can_stream/reader/mdf4_reader.cpp:89-110 | A frame survives unchanged exactly if its identifier is a standard one and no bytes stand behind its length |
| `Mdf4RawSession.RecordRawSession` | src/can_stream/writer/mdf4_writer.cpp:327-457 | Recording raw frames with flushes at any points gives the file of the session |
| `Mdf4RawSession.ReplayRaw` | src/can_stream/reader/mdf4_reader.cpp:67-110 | Seeking any record and reading to the end delivers the remaining frames in order |
| `DbcParser.DbcParser.ProvideNewFile` | src/can_handler/dbc_handler/dbc_parser.cpp:29-33 | Replaces the text and leaves the flags |
| `DbcParser.DbcParser.EraseSpaces` | src/can_handler/dbc_handler/dbc_parser.cpp:680-686 | Removes the leading spaces |
| `DbcParser.DbcParser.ParseIdentifier` | src/can_handler/dbc_handler/dbc_parser.cpp:687-708 | Consumes a word up to a separator, or fails without consuming more than spaces |
| `DbcParser.DbcParser.ParseString` | src/can_handler/dbc_handler/dbc_parser.cpp:709-731 | Consumes a quoted text; an opening quote is gone even if the closing one is missing |
| `DbcParser.DbcParser.ParseDouble` | src/can_handler/dbc_handler/dbc_parser.cpp:732-753 | Consumes a decimal number up to a separator |
| `DbcParser.DbcParser.ParseUInt` | src/can_handler/dbc_handler/dbc_parser.cpp:754-783 | Consumes an unsigned number; one beyond int clears the flag but is consumed |
| `DbcParser.DbcParser.TruncateToNextSemicolon` | src/can_handler/dbc_handler/dbc_parser.cpp:784-796 | Drops the text up to and including the next semicolon, or fails |
| `DbcParser.DbcParser.ParseSection` | src/can_handler/dbc_handler/dbc_parser.cpp:475-634 | Skips one optional section if its keyword is ahead |
| `DbcParser.DbcParser.ParseSections` | src/can_handler/dbc_handler/dbc_parser.cpp:34-134 | Skips all sections of a kind in a row, or gives up |
| `DbcParser.DbcParser.ParseSignal` | src/can_handler/dbc_handler/dbc_parser.cpp:249-420 | Reads a signal as its production says, its range normalised; an accepted signal shortens the text |
| `DbcParser.DbcParser.CalculatePhysicalRange` | src/can_handler/dbc_handler/dbc_parser.cpp:798-823 | Changes nothing but the range; a range declared as 0 to 0 then holds the physical values of exactly the raw integers of the type |
| `DbcParser.DbcParser.ParseMessage` | src/can_handler/dbc_handler/dbc_parser.cpp:182-223 | Reads a message with its signals |
| `DbcParser.DbcParser.ParseMessages` | src/can_handler/dbc_handler/dbc_parser.cpp:34-134 | Reads messages until one is absent, or gives up at a malformed one |
| `DbcParser.DbcParser.ParseVersion` | src/can_handler/dbc_handler/dbc_parser.cpp:463-474 | Reads the optional version |
| `DbcParser.DbcParser.ParseNewSymbols` | src/can_handler/dbc_handler/dbc_parser.cpp:552-579 | Reads the symbol list; the word before a colon is pushed back |
| `DbcParser.DbcParser.ParseBitTiming` | src/can_handler/dbc_handler/dbc_parser.cpp:635-679 | Reads the bit timing, which may be empty |
| `DbcParser.DbcParser.ParseNodes` | src/can_handler/dbc_handler/dbc_parser.cpp:224-248 | Reads the nodes; the section keyword that ends them is pushed back |
| `DbcParser.DbcParser.ParseComment` | src/can_handler/dbc_handler/dbc_parser.cpp:136-181 | Reads a comment with what it is about |
| `DbcParser.DbcParser.ParseComments` | src/can_handler/dbc_handler/dbc_parser.cpp:34-134 | Reads comments until one is absent |
| `DbcParser.DbcParser.ParseSignalValue` | src/can_handler/dbc_handler/dbc_parser.cpp:421-462 | Reads the value descriptions of a signal |
| `DbcParser.DbcParser.ParseDbc` | src/can_handler/dbc_handler/dbc_parser.cpp:34-134 | Terminates on every text; the result is the configuration that the productions define, and a configuration is returned only if the whole text was consumed |
| `DbcText.Identifier` | src/can_handler/dbc_handler/dbc_parser.cpp:687-708 | What is left is a suffix; an accepted word and the rest make up the text behind its spaces; failure consumes spaces only |
| `DbcText.UInt` | src/can_handler/dbc_handler/dbc_parser.cpp:754-783 | What is left is a suffix, shorter if the number was accepted |
| `DbcText.Double` | src/can_handler/dbc_handler/dbc_parser.cpp:732-753 | What is left is a suffix, shorter if the number was accepted |
| `DbcText.Quoted` | src/can_handler/dbc_handler/dbc_parser.cpp:709-731 | What is left is a suffix, shorter if the text was accepted |
| `DbcText.Section` | src/can_handler/dbc_handler/dbc_parser.cpp:784-796 | What is left is a suffix, shorter if a section was skipped |
| `DbcText.SignalOf` | src/can_handler/dbc_handler/dbc_parser.cpp:249-420 | What is left is a suffix, shorter if a signal was accepted; an accepted signal leaves the parser valid |
| `DbcText.SignalBodySuffix` | src/can_handler/dbc_handler/dbc_parser.cpp:249-420 | Whatever part of a signal is missing, what is left is a suffix |
| `DbcText.MessageOf` | src/can_handler/dbc_handler/dbc_parser.cpp:182-223 | What is left is a suffix, shorter if a message was accepted |
| `DbcText.SymbolLoop` | src/can_handler/dbc_handler/dbc_parser.cpp:552-579 | Pushing the last word back still leaves a suffix |
| `DbcText.NodeLoop` | src/can_handler/dbc_handler/dbc_parser.cpp:224-248 | Pushing the keyword back still leaves a suffix; a failure reports no nodes |
| `DbcText.Comment` | src/can_handler/dbc_handler/dbc_parser.cpp:136-181 | What is left is a suffix, shorter if a comment was accepted |
| `DbcText.SignalValues` | src/can_handler/dbc_handler/dbc_parser.cpp:421-462 | What is left is a suffix, shorter if descriptions were accepted |
| `DbcPrinter.DecimalStringReads` | src/can_handler/dbc_handler/dbc_parser.cpp:732-753 | A printed decimal is accepted and denotes the number that was printed |
| `DbcPrinter.SignalReads` | src/can_handler/dbc_handler/dbc_parser.cpp:249-420 | A printed signal is read back with its range normalised; what follows is left behind its spaces |
| `DbcPrinter.ReceiversRead` | src/can_handler/dbc_handler/dbc_parser.cpp:381-395 | A printed list of receivers is read back |
| `DbcPrinter.MessageReads` | src/can_handler/dbc_handler/dbc_parser.cpp:182-223 | Print and parse round trip: a printed message in front of any text that does not go on with a signal or a comma is read back, and that text is left behind its spaces |
| `DbcPrinter.CommentReads` | src/can_handler/dbc_handler/dbc_parser.cpp:136-181 | A printed comment is read with the name of its subject in front |
| `DbcPrinter.CommentsRead` | src/can_handler/dbc_handler/dbc_parser.cpp:34-134 | Any printed list of comments is read back |
| `DbcPrinter.MeaningsRead` | src/can_handler/dbc_handler/dbc_parser.cpp:421-462 | Printed pairs of number and meaning are read back up to the semicolon |
| `DbcPrinter.ValuesRead` | src/can_handler/dbc_handler/dbc_parser.cpp:421-455 | The printed value descriptions of a signal are read back |
| `DbcPrinter.AllValuesRead` | src/can_handler/dbc_handler/dbc_parser.cpp:34-134 | Any printed list of value descriptions is read back |
| `DbcFiles.SectionIsSkipped` | src/can_handler/dbc_handler/dbc_parser.cpp:784-796 | A section is skipped up to its first semicolon, whatever stands in it |
| `DbcFiles.RowIsSkipped` | src/can_handler/dbc_handler/dbc_parser.cpp:475-634 | All sections of a kind in a row are skipped, also those whose keyword only starts with the one looked for |
| `DbcFiles.MessagesRead` | src/can_handler/dbc_handler/dbc_parser.cpp:34-134 | Any printed list of messages is read back in front of any later section |
| `DbcFiles.NoMessage` | src/can_handler/dbc_handler/dbc_parser.cpp:182-186 | No later section is taken for a message; BO_TX_BU_ is told from BO_ |
| `DbcFiles.SymbolsRead` | src/can_handler/dbc_handler/dbc_parser.cpp:552-579 | A printed symbol list is skipped up to the pushed-back bit timing |
| `DbcFiles.NodesRead` | src/can_handler/dbc_handler/dbc_parser.cpp:224-248 | A printed node list is read up to the pushed-back keyword, whichever of the known ones it is |
| `DbcFiles.AttributesRead` | src/can_handler/dbc_handler/dbc_parser.cpp:34-134 | The attribute sections are skipped; the loop for definitions takes those of default values along |
| `DbcFiles.CommentsEnd` | src/can_handler/dbc_handler/dbc_parser.cpp:34-134 | Comments end at the attributes, so that later ones are found by the second loop |
| `DbcFiles.BackReads` | src/can_handler/dbc_handler/dbc_parser.cpp:34-134 | Behind the messages every section is skipped or read in its turn, and comments and value descriptions are read back |
| `DbcFiles.FileReads` | src/can_handler/dbc_handler/dbc_parser.cpp:34-134 | A printed file with version, symbols, nodes, messages, comments, value descriptions and any sections that the parser skips is read as it was printed, exactly if something stands behind its nodes and does not start with EV_ |
| `DbcFiles.MoreNodes` | src/can_handler/dbc_handler/dbc_parser.cpp:224-248 | Otherwise the file is refused or read with more nodes than it has, and always refused if nothing stands behind its nodes |
| `DbcFiles.VariableFirstIsRefused` | src/can_handler/dbc_handler/dbc_parser.cpp:224-248 | A file whose first section is an environment variable is refused: keyword and name are taken for nodes |
| `DbcFiles.OnlyAVariable` | src/can_handler/dbc_handler/dbc_parser.cpp:224-248 | Such a file: nothing but one environment variable |
| `DbcNumbers.WholeDigit` | src/can_handler/dbc_handler/dbc_parser.cpp:732-783 | A further digit makes a whole number ten times as large, plus itself |
| `DbcNumbers.PlacesAreTenths` | src/can_handler/dbc_handler/dbc_parser.cpp:732-753 | 0.1 is a tenth, and each further zero behind the point makes a tenth of it |
| `DbcNumbers.FractionDigit` | src/can_handler/dbc_handler/dbc_parser.cpp:732-753 | A further digit behind the point adds that digit times the value of its place |
| `DbcNumbers.SignedDecimal` | src/can_handler/dbc_handler/dbc_parser.cpp:732-753 | A minus sign turns the value, a plus sign keeps it |
| `DbcNumbers.WordsAccepted` | src/can_handler/dbc_handler/dbc_parser.cpp:687-708 | An identifier is accepted exactly if letters, digits and underscores stand in front of one of its separators |
| `DbcNumbers.NumbersAccepted` | src/can_handler/dbc_handler/dbc_parser.cpp:754-783 | A number is accepted exactly if digits that fit an int stand in front of one of its separators |
| `DbcNumbers.QuotesAccepted` | src/can_handler/dbc_handler/dbc_parser.cpp:709-731 | A text is accepted exactly if it starts with a quote that is closed |
| `DbcNumbers.SpacesAreErased` | src/can_handler/dbc_handler/dbc_parser.cpp:680-686 | Leading spaces are dropped, and nothing else |
| `DbcExample.ExampleReads` | src/can_handler/dbc_handler/dbc_parser.cpp:34-134 | A DBC file given in full, with both byte orders, signs, decimals, a multiplexor, a comment and value descriptions, and the configuration that the parser makes of it |
| `SpscRing.MaskIsModulo` | src/core/util/spsc_ring.hpp:32-40 | For a power of two, masking with N - 1 is the remainder modulo N |
| `SpscRing.SpscRing.constructor` | src/core/util/spsc_ring.hpp:63-68 | A new ring is empty |
| `SpscRing.SpscRing.Push` | src/core/util/spsc_ring.hpp:37-45 | Appends exactly if fewer than N - 1 items are held |
| `SpscRing.SpscRing.Pop` | src/core/util/spsc_ring.hpp:48-55 | Removes the oldest item exactly if there is one |
| `SpscRing.SpscRing.Empty` | src/core/util/spsc_ring.hpp:58-61 | Holds exactly if nothing is held |
| `SpscRing.QueuedIsPending` | src/core/util/spsc_ring.hpp:37-55 | The slots between tail and head are the accepted items that have not been popped |
| `SpscRing.HistoryIsKept` | src/core/util/spsc_ring.hpp:37-45 | Whatever the producer does, the items accepted so far are the arguments of the pushes that returned true, in order |
| `SpscRing.RingIsSafe` | src/core/util/spsc_ring.hpp:37-55 | In every interleaving of the two sides' atomic steps: the arguments of the pushes that returned true are the popped items followed by the queued ones, at most N - 1 are queued, and the slot being written is never the one being read |
| `SpscRing.RefusalsAreExact` | src/core/util/spsc_ring.hpp:37-55 | A push is refused only while N - 1 items are queued, a pop only while none is |
| `LoggingWorker.StepKeepsInv` | src/logging/worker/logging_worker.cpp:32-75 | Every step of producer, worker and stop keeps the protocol's invariant |
| `LoggingWorker.WriterSeesPrefix` | src/logging/worker/logging_worker.cpp:48-75 | In every interleaving the writer has received an in-order prefix of the posted messages that the ring accepted, whenever it flushes |
| `LoggingWorker.DrainIsComplete` | src/logging/worker/logging_worker.cpp:42-75 | When the worker ends, the message of every post that was accepted before the stop flag was stored has been written, in order, and the one close comes last |
| `LoggingWorker.StopRecordsPushes` | src/logging/worker/logging_worker.cpp:42-46 | The count that the drain is measured against is the number of pushes completed when the flag is stored |
| `LoggingWorker.StopCountIsKept` | src/logging/worker/logging_worker.cpp:42-75 | That count stays as it is for the rest of the run |
| `Manipulation.ManipulationHandler.constructor` | src/manipulation/service/manipulation_handler.cpp:27-129 | A new handler has no latches and nothing pending |
| `Manipulation.ManipulationHandler.FiresRawTrigger` | src/manipulation/service/manipulation_trigger_handler.hpp:38-55 | Decides a raw trigger; only the chance trigger draws |
| `Manipulation.ManipulationHandler.RawTriggered` | src/manipulation/service/manipulation_handler.cpp:33-37 | All triggers hold; the first that does not ends the draws |
| `Manipulation.ManipulationHandler.ApplyRawEffect` | src/manipulation/service/manipulation_effect_handler.hpp:39-55 | Flips one bit in place, a random one with two draws |
| `Manipulation.ManipulationHandler.ApplyRawStrategy` | src/manipulation/service/manipulation_handler.cpp:74-93 | Applies effects, or adds a delay or drop to the frame's verdict |
| `Manipulation.ManipulationHandler.InjectRaw` | src/manipulation/service/manipulation_handler.cpp:27-45 | The payload, the verdict and the latches after all raw manipulations in order |
| `Manipulation.ManipulationHandler.SignalMap` | src/manipulation/service/manipulation_handler.cpp:49-54 | Every name stands for its first signal |
| `Manipulation.ManipulationHandler.FiresDbcTrigger` | src/manipulation/service/manipulation_trigger_handler.hpp:66-85 | Decides a signal trigger through the map as a scan of the signals would |
| `Manipulation.ManipulationHandler.ApplyDbcEffect` | src/manipulation/service/manipulation_effect_handler.hpp:65-91 | Sets, clamps or disturbs the first signal of the name and no other; the names stay as they are |
| `Manipulation.ManipulationHandler.ApplyDbcStrategy` | src/manipulation/service/manipulation_handler.cpp:95-119 | Applies effects, or adds a delay, drop or insertion to the verdict; an insertion without a message copies the message as it stands |
| `Manipulation.ManipulationHandler.InjectDbc` | src/manipulation/service/manipulation_handler.cpp:47-72 | The message, the verdict and the latches after all DBC manipulations in order |
| `Manipulation.ManipulationHandler.Evaluate` | src/manipulation/service/manipulation_handler.cpp:121-129 | Returns the verdict on everything that fired since the last call, and forgets it |
| `Manipulation.VerdictStep` | src/manipulation/service/manipulation_handler.cpp:74-119 | The three per-frame fields are updated so that they always hold the verdict: drop wins, then the longest delay |
| `Manipulation.MaxDelayIsMax` | src/manipulation/service/manipulation_handler.cpp:80-83 | The delay of a verdict is the longest one asked for |
| `Manipulation.FlipIsXor` | src/manipulation/service/manipulation_effect_handler.hpp:44-46 | Flipping a bit is XOR with a one-bit payload |
| `ManipulationLaws.DbcFiresIfHolds` | src/manipulation/service/manipulation_trigger_handler.hpp:66-85 | A signal trigger fires exactly if a signal of the name is there; a threshold exactly if the first signal of the name is at least it, or at most it; a chance exactly if its draw is small enough |
| `ManipulationLaws.DbcChainIsDecided` | src/manipulation/service/manipulation_handler.cpp:56-65 | A chain holds exactly if every trigger holds, each chance on the draw that falls to it; the first that does not hold is the last to draw |
| `ManipulationLaws.RawChainIsDecided` | src/manipulation/service/manipulation_handler.cpp:31-40 | The same for raw triggers |
| `ManipulationLaws.DbcEffectIs` | src/manipulation/service/manipulation_effect_handler.hpp:65-91 | An effect changes the value of the first signal of its name and nothing else: to the given value, to the nearer bound if it is outside the bounds, or by amplitude times a draw from -1 to 1; only the noise draws, and only if the signal is there |
| `ManipulationLaws.DbcEffectsAre` | src/manipulation/service/manipulation_handler.cpp:95-103 | The effects of a strategy act one after the other in their order |
| `ManipulationLaws.RawEffectsAre` | src/manipulation/service/manipulation_effect_handler.hpp:39-55 | Every raw effect toggles exactly one bit; a random one draws the bit and then the byte |
| `ManipulationLaws.DbcRunIsTurns` | src/manipulation/service/manipulation_handler.cpp:47-72 | Each manipulation takes its turn in order: a latched one applies without a look at its triggers, another one exactly if they hold; what an effect, delay, drop or insertion does to the message and the log |
| `ManipulationLaws.RawRunIsTurns` | src/manipulation/service/manipulation_handler.cpp:27-45 | The same for raw manipulations |
| `ManipulationLaws.DbcAppliesIfTriggersHold` | src/sending/sending_component.cpp:424-454 | Over any run, with chance or without: a DBC manipulation applies to a message exactly if it was latched at the start, or every trigger holds for the values that the message has at its turn, or it latches and they held so for an earlier message |
| `ManipulationLaws.RawAppliesIfTriggersHold` | src/sending/sending_component.cpp:424-454 | The same for raw manipulations and the frames that the messages are encoded to |
| `ManipulationTheorems.RawLogIsWhatFired` | src/manipulation/service/manipulation_handler.cpp:27-93 | The delays and drops recorded in a frame are those of the raw manipulations that applied |
| `ManipulationTheorems.DbcLogIsWhatFired` | src/manipulation/service/manipulation_handler.cpp:47-119 | The same for DBC manipulations, with their insertions in firing order |
| `ManipulationTheorems.VerdictIsDecidedByWhatFired` | src/manipulation/service/manipulation_handler.cpp:47-129 | Aggregation: a message is dropped exactly if a strategy that applied drops it; else its delay is the longest one asked for; a dropped one has delay 0; insertions come in firing order, each copy taken at its turn |
| `ManipulationTheorems.InjectionIsMask` | src/manipulation/service/manipulation_handler.cpp:27-45 | Without chance, injection XORs the payload with a mask of identifier, length and latches, and draws nothing |
| `ManipulationTheorems.InjectionIsOrderFree` | src/manipulation/service/manipulation_handler.cpp:27-93 | Permuting the manipulations with their latches gives the same bytes, the same verdict and the same latches |
| `ManipulationTheorems.RunsAreOrderFree` | src/manipulation/service/manipulation_handler.cpp:27-129 | The order of the manipulations shows in no frame of a run |
| `ManipulationTheorems.InjectionIsSelfInverse` | src/manipulation/service/manipulation_handler.cpp:27-45 | Injecting twice restores the bytes, although latches may be set in between |
| `ManipulationTheorems.AppliesNowOrLatchedBefore` | src/manipulation/service/manipulation_handler.cpp:27-45 | Over a run of raw frames a manipulation applies exactly if its chain holds now, or it latches and its chain held for an earlier frame |
| `ManipulationTheorems.OnlyLatchesCarryOver` | src/sending/sending_component.cpp:424-443 | Without chance, nothing but latches carries over from one message to the next |
| `Sending.BuildInsertionItems` | src/sending/sending_functions.hpp:60-77 | One item per insertion, in order, at its own delay after the base |
| `Sending.Schedule` | src/sending/sending_component.cpp:401-414 | The insertions first, then the frame itself unless it was dropped; the verdict is used up |
| `Sending.SendRaw` | src/sending/sending_component.cpp:398-423 | The items for a raw message, with or without a handler |
| `Sending.SendDbc` | src/sending/sending_component.cpp:424-454 | The items for a DBC message: manipulated, encoded, manipulated again, scheduled |
| `Sending.CreateItems` | src/sending/sending_component.cpp:394-456 | The items of one round over the cached messages, in their order; the handler keeps its latches and draws |
| `Sending.LatchedIffHeldBefore` | src/sending/sending_component.cpp:424-454 | Over any run, with chance or without, a manipulation is latched exactly if it was at the start or it latches and its chain held for an earlier message |
| `ManipulationLaws.ItemsAreScheduled` | src/sending/sending_component.cpp:401-414 | Every insertion stands at the deadline plus the longest delay asked for plus its own; the frame comes last, without a delay of its own, exactly if no strategy that applied drops it |
| `ManipulationLaws.ItemsInOrder` | src/sending/sending_component.cpp:394-456 | The items of a run are those of its messages, one message after the other |
| `Monitoring.FlushWindow` | src/monitoring/model/monitoring_model.cpp:312-323 | Closes a window: one row with the mean of every signal that has samples, and empty sums |
| `Monitoring.Accumulate` | src/monitoring/model/monitoring_model.cpp:296-309 | Adds the first value of each signal's name to its window, at most one per signal |
| `Monitoring.DropOldRows` | src/monitoring/model/monitoring_model.cpp:382-395 | Removes the old rows in front, all columns in lockstep with the timestamps |
| `Monitoring.Observe` | src/monitoring/model/monitoring_model.cpp:281-309 | A received message opens, closes and fills windows as the history says |
| `Monitoring.Stored` | src/monitoring/model/monitoring_model.cpp:274-397 | Every value column is as long as the timestamps, every window array as long as the names |
| `Monitoring.MonitoringModel.constructor` | src/monitoring/model/monitoring_model.cpp:26-56 | A new model stores nothing |
| `Monitoring.MonitoringModel.OnIncomingDbcFrame` | src/monitoring/model/monitoring_model.cpp:274-310 | Adds the message to the history of its entry if a DBC is set and its identifier is in range, and changes no other entry |
| `Monitoring.MonitoringModel.FlushStaleWindows` | src/monitoring/model/monitoring_model.cpp:325-344 | Adds a refresh to the history of every entry if a DBC is set |
| `Monitoring.MonitoringModel.EraseOldData` | src/monitoring/model/monitoring_model.cpp:374-397 | Adds a cleaning to the history of every entry |
| `Monitoring.MonitoringModel.OnDbcChange` | src/monitoring/model/monitoring_model.cpp:346-372 | Every entry starts over with the signals of the last definition of its identifier |
| `MonitoringTheorems.EverySampleInOneWindow` | src/monitoring/model/monitoring_model.cpp:274-344 | Every observed sample is in exactly one window, in the order of arrival |
| `MonitoringTheorems.FrameTakesItsWindow` | src/monitoring/model/monitoring_model.cpp:281-310 | A frame closes the open window exactly if that is 50 ms old or older, and the next window starts with this frame and its samples; without an open window it opens one |
| `MonitoringTheorems.RefreshClosesDueWindow` | src/monitoring/model/monitoring_model.cpp:325-344 | A refresh closes a window that is 50 ms old or older, opens none, and changes nothing otherwise |
| `MonitoringTheorems.NamesOfLastDefinition` | src/monitoring/model/monitoring_model.cpp:346-372 | An entry has the signals of the last definition of its identifier, in their order |
| `MonitoringTheorems.SamplesAreConserved` | src/monitoring/model/monitoring_model.cpp:274-397 | Over any run, sample counts times stored means plus the open sum are the sum of all observed samples |
| `MonitoringTheorems.WindowsAreChained` | src/monitoring/model/monitoring_model.cpp:281-323 | With ordered receive times windows follow one another, and one closed by a frame ends where the next starts, at least 50 ms later |
| `MonitoringTheorems.TimestampsAreSorted` | src/monitoring/model/monitoring_model.cpp:274-323 | With ordered receive times the stored timestamps are sorted |
| `MonitoringTheorems.SpacedIffReopenedInTime` | src/monitoring/model/monitoring_model.cpp:274-344 | With ordered receive times all windows start at least 50 ms apart exactly if every frame that finds no window open arrives at least 50 ms after the start of the last one |
| `MonitoringTheorems.WindowsAreSpaced` | src/monitoring/model/monitoring_model.cpp:274-344 | If no frame is received before the last refresh, that is so, and all windows start at least 50 ms apart |
| `MonitoringTheorems.LateFrameSplitsWindow` | src/monitoring/model/monitoring_model.cpp:325-344 | A run whose frame reopens too early has two windows 10 ns apart |
| `MonitoringTheorems.CleaningRemovesOldFront` | src/monitoring/model/monitoring_model.cpp:374-397 | In any history a cleaning removes a stored row exactly if it and all stored rows in front of it are older than 60 s |
| `MonitoringTheorems.CleaningIsExact` | src/monitoring/model/monitoring_model.cpp:374-397 | With ordered receive times a cleaning removes exactly the stored rows that are older than 60 s |
| `MonitoringTheorems.RowsAreNeverReordered` | src/monitoring/model/monitoring_model.cpp:312-397 | Rows leave from the front only; what was closed stays as it was |
| `VariableRegistry.VariableRegistry.constructor` | src/math/service/variable_registry.cpp:28-28 | A new registry is empty |
| `VariableRegistry.VariableRegistry.RebuildCanSignalMap` | src/math/service/variable_registry.cpp:134-145 | In whatever order the entries come, the index lists every live CAN variable exactly once under its identifier and nothing else |
| `VariableRegistry.VariableRegistry.Acquire` | src/math/service/variable_registry.cpp:45-63 | Makes a variable exactly if the key is not live, counts the reference, and keeps the index in step |
| `VariableRegistry.VariableRegistry.Release` | src/math/service/variable_registry.cpp:65-80 | Removes a variable exactly with its last reference; releasing an unknown key changes nothing |
| `VariableRegistry.VariableRegistry.OnCanDbcReceived` | src/math/service/variable_registry.cpp:113-132 | Every live variable of the message's identifier takes the first value of its signal, or keeps its own if the message has none; no other variable changes |
| `VariableRegistry.CountIsNetAboveDeficit` | src/math/service/variable_registry.cpp:45-80 | The reference count is acquires minus releases, measured from the deepest deficit of any earlier moment |
| `VariableRegistry.CountIsNet` | src/math/service/variable_registry.cpp:45-80 | The reference count is acquires minus releases exactly if no release came too early |
| `VariableRegistry.EarlyReleaseIsForgotten` | src/math/service/variable_registry.cpp:65-70 | A release before any acquire makes a key live that was acquired no more often than released |
| `VariableRegistry.IndexStep` | src/math/service/variable_registry.cpp:138-144 | Indexing one more entry keeps the index exact |
| `CsvFiles.CsvReader.constructor` | src/can_stream/reader/csv_reader.cpp:127-137 | A new reader is closed |
| `CsvFiles.CsvReader.AdvanceLookahead` | src/can_stream/reader/csv_reader.cpp:66-72 | The lookahead is the next line that is not empty, or the end |
| `CsvFiles.CsvReader.Open` | src/can_stream/reader/csv_reader.cpp:74-125 | Opens exactly the files with a header line; the records are counted, the columns resolved by name, the cursor stands before the first record |
| `CsvFiles.CsvReader.CountRecords` | src/can_stream/reader/csv_reader.cpp:112-117 | Counts the lines that are not empty |
| `CsvFiles.CsvReader.ResolveColumns` | src/can_stream/reader/csv_reader.cpp:87-108 | The last column of each name counts; a missing one keeps the column of the file before |
| `CsvFiles.CsvReader.Seek` | src/can_stream/reader/csv_reader.cpp:164-183 | After any run of calls the cursor stands at the record that was asked for, or at the end if there are fewer; the lookahead line is the one at the cursor and the end is reported exactly behind the last record |
| `CsvFiles.CsvReader.ReadRaw` | src/can_stream/reader/csv_reader.cpp:185-222 | Delivers what the row at the cursor says and moves on, even if the row is no frame |
| `CsvFiles.CsvReader.ReadDbc` | src/can_stream/reader/csv_reader.cpp:224-231 | Delivers what the row at the cursor of a DBC file says and moves on |
| `CsvFiles.CsvReader.ParseDbcRow` | src/can_stream/reader/csv_reader.cpp:233-255 | The time, the identifier in the last MsgID column, and a signal for every other cell that holds a number |
| `CsvFiles.CsvReader.ParseData` | src/can_stream/reader/csv_reader.cpp:207-219 | Reads at most eight hexadecimal bytes and fills up with zeros |
| `CsvFiles.CsvReader.ParseTimestamp` | src/can_stream/reader/csv_reader.cpp:44-62 | The two scaling loops bring the decimals to nanoseconds |
| `CsvFiles.CsvWriter.constructor` | src/can_stream/writer/csv_writer.cpp:23-40 | The file starts with the joined headers; a DBC file has a MsgID column behind the time |
| `CsvFiles.CsvWriter.WriteRaw` | src/can_stream/writer/csv_writer.cpp:42-61 | Appends one row |
| `CsvFiles.CsvWriter.WriteDbc` | src/can_stream/writer/csv_writer.cpp:63-86 | Appends one row: the time, and for each column the identifier, the first value of its signal, or a dash |
| `CsvRoundTrip.PrintedIsExact` | src/can_stream/writer/csv_writer.cpp:45-46 | Below 2^52 ns the rounding of the division to a double does not show in the nine decimals |
| `CsvRoundTrip.TimeIsReadBack` | src/can_stream/reader/csv_reader.cpp:44-62 | A printed time is read back exactly if the division to seconds leaves the billionths of the time, or for a negative time those whose decimals are added |
| `CsvRoundTrip.ShortTimeIsReadBack` | src/can_stream/reader/csv_reader.cpp:44-62 | Below 2^52 ns that is so exactly if the time is not negative or a whole number of seconds |
| `CsvRoundTrip.LongTimeIsRounded` | src/can_stream/writer/csv_writer.cpp:45-46 | A time of November 2023 in nanoseconds that no double in seconds can hold, so that it is not read back |
| `CsvRoundTrip.TimeReads` | src/can_stream/reader/csv_reader.cpp:44-62 | The decimals of a negative time are added instead of subtracted |
| `CsvRoundTrip.HexIdReads` | src/can_stream/reader/csv_reader.cpp:34-42 | A printed identifier is read back modulo 2048 |
| `CsvRoundTrip.DataReads` | src/can_stream/writer/csv_writer.cpp:53-59 | Printed bytes are read back one by one |
| `CsvRoundTrip.SplitOfJoin` | src/can_stream/reader/csv_reader.cpp:25-32 | Splitting undoes joining, except that a trailing empty field is lost |
| `CsvRoundTrip.RowReads` | src/can_stream/reader/csv_reader.cpp:185-222 | A printed row is read as the frame's covered bytes, length and low identifier bits; a row without data is not read at all |
| `CsvRoundTrip.RowRoundTrip` | src/can_stream/reader/csv_reader.cpp:185-222 | A frame is read back unchanged exactly if it has data, a standard identifier, no bytes behind its length, and the division leaves the right billionths of its time |
| `CsvRoundTrip.ShortRowRoundTrip` | src/can_stream/reader/csv_reader.cpp:185-222 | For times below 2^52 ns the last condition is that the time is not negative or whole |
| `CsvRoundTrip.RecordsAreLines` | src/can_stream/reader/csv_reader.cpp:112-117 | The records of a written file are its lines |
| `CsvRoundTrip.FileOpens` | src/can_stream/reader/csv_reader.cpp:74-110 | The header row of a written file is split into the headers again, except a last one without a name, and the rows stand behind it |
| `CsvRoundTrip.Export` | src/can_stream/writer/csv_writer.cpp:23-61 | Writing a list of frames gives the header and their rows |
| `CsvRoundTrip.IdColumnIsLast` | src/can_stream/reader/csv_reader.cpp:104-107 | The identifier is taken from the last column called MsgID |
| `CsvLaws.NumberEnds` | src/can_stream/reader/csv_reader.cpp:34-62 | A number is read up to the first character that is no digit; one that is too large reads as 0 |
| `CsvLaws.DigitsWeigh` | src/can_stream/reader/csv_reader.cpp:34-62 | What stands in front of n digits counts base to the n times; a digit of either case counts itself |
| `CsvLaws.TimeIsDecimal` | src/can_stream/reader/csv_reader.cpp:44-62 | A time is its seconds plus its decimals, nine of which are nanoseconds; fewer are scaled up, those behind the ninth are cut off |
| `CsvLaws.IdIsHex` | src/can_stream/reader/csv_reader.cpp:34-42 | An identifier with or without 0x is the low eleven bits of its hexadecimal digits |
| `CsvLaws.BytesAreHex` | src/can_stream/reader/csv_reader.cpp:207-219 | Two hexadecimal digits are a byte, with any number of spaces in front |
| `CsvLaws.ColumnsAreLast` | src/can_stream/reader/csv_reader.cpp:87-108 | Each of ID, DLC and Data is the last column of that name; a missing one keeps the column of the file before |
| `CsvLaws.CellsAreNumbers` | src/can_stream/reader/csv_reader.cpp:240-255 | The values of a DBC row are those of the columns that hold numbers, from left to right, without the time and the identifier |
| `CsvLaws.TimeIsPrinted` | src/can_stream/writer/csv_writer.cpp:45-46 | A printed time is a sign, the seconds, a point and nine decimals, every digit of its weight |
| `CsvLaws.IdIsPrinted` | src/can_stream/writer/csv_writer.cpp:48-49 | A printed identifier is 0x and its hexadecimal digits, at least three of them |
| `CsvLaws.BytesArePrinted` | src/can_stream/writer/csv_writer.cpp:53-59 | Printed bytes are two digits each, with one space between any two |
| `CsvLaws.RowIsPrinted` | src/can_stream/writer/csv_writer.cpp:42-61 | The row of a frame, field by field |
| `CsvRoundTrip.DbcRowReads` | src/can_stream/reader/csv_reader.cpp:233-255 | A printed DBC row is read as the time, the low identifier bits and, in the order of the columns, the first value of every signal with a column, to three decimals; the value of a signal called MsgID is lost to the identifier |
| `CsvRoundTrip.ExportDbc` | src/can_stream/writer/csv_writer.cpp:23-86 | Writing a list of DBC messages gives the header with the MsgID column and their rows |
| `CsvRoundTrip.ReadBack` | src/can_stream/reader/csv_reader.cpp:164-222 | In the file of an export, opened anew, record k is frame k and the end stands behind the last |
| `CsvRoundTrip.ReadBackDbc` | src/can_stream/reader/csv_reader.cpp:74-255 | In the file of a DBC export, opened anew, record k is message k, unless a signal is called ID: exactly then the file is taken for a raw one and nothing is read |

## Left out

- Atomic operations are sequentially consistent steps; weaker orderings of the C++ memory model are not modelled, and every method that holds a mutex is one step.
- Floating point: the codec, the monitoring means and the manipulated values are exact reals; in MDF4 files doubles are opaque 64-bit words. Rounding, NaN inputs and infinities are not modelled.
- Time conversion: `double` seconds to nanoseconds in the MDF4 reader; 64-bit overflow of CSV times is undefined in the code and not modelled.
- In CSV files the division of the time to a double, `std::stod` and the printing of a value with three decimals are parameters: the theorems about times below 2^52 ns ask of the division that it is off by at most one part in 2^53, those about values ask of the other two that a printed value is a number that is read as some rounding of it. An exact tie in the ninth decimal of a time, which a time below 2^52 ns does not reach, is printed upwards.
- DbcCodec.CanDbcHandler.ParseReceivedMessage: requires that the signals it reads lie in the 64-bit word and that multiplexor values fit an `int`; the code shifts and casts without a check, which is undefined otherwise.
- DbcCodec.CanDbcHandler.HandleEncodeMessage: requires that the signals it sends lie in the 64-bit word, have a non-zero factor, and raw integers that fit an `int64_t`; the code shifts, divides and casts without a check.
- DbcTransmission.Transmit: for signals whose bits do not overlap and at most one multiplexor with factor 1, offset 0 and at most 31 bits; the single theorems about values do not need the latter.
- DbcParser.DbcParser.CalculatePhysicalRange: says what a filled-in range means for positive factors; for a negative one the code swaps the bounds.
- In `WithPhysicalRange` a 1 stands in for the undefined shift of a signed signal of size 0.
- Unsigned 64-bit signals: raw integers pass through `int64_t`, so such a field reads as signed; the theorems say so.
- Mdf4Session.FileRoundTrip: for schemas of at most 256 message types with at most 255 signals and 16-bit identifiers, because record identifiers and signal counts are single bytes in the code; duplicate identifiers are allowed.
- Mdf4Writer.Mdf4Writer.WriteDbc: requires at most 255 signals for the type of the message; the code cuts the count to a byte and writes behind the space of the record otherwise. Any schema can be opened.
- Mdf4Reader.Mdf4Reader.Open: requires that the walks end; on exactly the other files (`LoopsExactly`) the code walks on without end.
- Mdf4Reader.Mdf4Reader.ReadDbc: requires that a group's payload holds its time and all its signals; the code reads past its buffer otherwise. Written files meet this.
- CsvRoundTrip.RowRoundTrip: for times whose printed seconds fit an `int64_t` and keep their sign, and identifiers of 16 bits, the width of the code's field.
- CsvRoundTrip.ReadBackDbc: for column names without commas and line ends, which the code does not escape.
- File system errors, disk space, and positions beyond the signed 63-bit range of a stream.
- Texts beyond 2 GiB, whose positions the DBC parser stores in an `int`; character classes are those of the C locale.
- Regular expressions of the DBC parser are written as predicates on the text.
- The moved-from list of insertions is taken to be empty, as the move constructor of a vector leaves it.
- Random numbers are an oracle sequence; the distribution is not modelled. A noise amplitude below zero and a clamp whose bounds are swapped are undefined in the libraries.
- `Sending` takes the encoding event as a function; the sending queue, its workers and the replay of files are not part of this model.
- `Monitoring`: the tree model of Qt, the thread that calls the cleaning, and locks.
- `VariableRegistry`: factories that return null, `reset`, `updateAll`, time variables and the stored DBC.
- A raw CSV file whose identifier column stands behind its data column and is missing in a row is undefined in the code; an empty field stands in for it.
- Sections of a DBC that the parser skips, attributes and environment variables, are skipped here too and carry no content. Printed files hold signal types in their first place only.
- Devices, sockets, ExprTk, serializers, settings, views and other Qt parts, which would only add easy members.
