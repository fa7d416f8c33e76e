# Verified model of mjlib

Dafny models of the stateful cores of mjlib, and proofs of what they are for.  `dafny verify dfyconfig.toml` checks all of
it.

| files | what they model |
|---|---|
| `bytes`, `streams`, `varuint` | bytes, the memory-backed streams, and both variable-length integer codecs |
| `event_queue` | the lock-free event queue, one atomic operation a step |
| `binary_format`, `schema_parser`, `schema_reader`, `schema_archive`, `archive`, `archive_ignore`, `evolution`, `element_deque`, `traversal` | the self-describing binary format: schemas and values, emitting, parsing, skipping, reading into objects, evolution by field name, the walk through parsed elements |
| `framing`, `micro_stream_datagram`, `datagram_client`, `rs485_frame_stream`, `recovery` | multiplex frames, the two resynchronising receivers, what their clients are told, and what false starts cost |
| `register_protocol`, `register`, `micro_server`, `rpc`, `rpc_without_response`, `tunnel`, `tunnel_replies`, `tunnel_server` | the register protocol end to end, tunnelled streams, and a server that has both |
| `log_format`, `log_item`, `seek_marker`, `seek_marker_misses`, `log_history`, `log_scan`, `item_filter`, `seek_spacing`, `file_writer`, `file_reader`, `log_round_trip` | telemetry logs: blocks, links, markers, index, scanning, seeking, items by record name, and writer and reader together |
| `thread_writer`, `thread_writer_flush` | the background writer as two threads and a timer, and what flushing is for |
| `pool_map`, `persistent_config`, `telemetry_manager` | configuration in flash, and telemetry scheduling |

Each codec is a pair of functions in suffix style (`Read(Write(v) + rest) == Got(v, rest)`).  Each stateful component is a
specification, on values or as a state machine, whose properties are lemmas, and a class or methods with the loops and the
fields of the source, whose contracts say that they do what the specification does.

## Where hypotheses are needed, and where the code differs from its documents

* A field is read back into an object whose optionals start out empty, and only then (`Archive.ReadsBackIffClean`); and
  only then does reading data of the same schema straight through agree with reading it by name
  (`Evolution.FastPathAgreesIff`).
* Both receivers drop two bytes at a false header start; the micro receiver then leaves its caller waiting
  (`MicroStreamDatagram.StalledIffFalseStart`).  Recovery is claimed for noise without the byte 0x54.
* The micro receiver's size check lets through a frame one byte longer than its buffer
  (`MicroStreamDatagram.EmptySpanIff`).
* The rs485 receiver adds 2 to a declared size in 32 bits; `Rs485FrameStream.BreaksIffSizeWraps` says when that matters,
  and lines of frames are claimed for payloads below 2^32 - 2 bytes.
* A server that owes no response returns from a read subframe before its operands, which are then taken for subframes;
  `RpcWithoutResponse.ReadIsTransparentIff` says when that does no harm, and the round trip is claimed with a response.
* An overrunning tunnel write does not skip its bytes (`Tunnel.PayloadConsumedIffItFits`).
* A second schema block for an identifier forgets its last data block (`LogHistory.RecordPointsAtLastIff`), and ends the
  walk along previous offsets (`LogHistory.WalkStopsAtSchema`).  What a reader finds is claimed for logs with one schema
  block per identifier, before its data (`LogHistory.Orderly`), and monotone times.
* The search for seek markers takes up at most one signature at its true position: behind one that was no marker's its
  stream stands a byte short of its index for the rest of the call.  `SeekMarker.MarkerFoundIff` says which written marker
  is found.  Seeking is correct with whichever is, provided that no other bytes pass for a marker or raise an exception,
  looked at rightly or one byte late (`FileReader.Unforged`).
* A tunnel reply without room announces a negative size as an unsigned number, and what follows is taken for the channel's
  bytes (`TunnelReplies.HeardIffRoom`).
* What was written before a flush is passed on if the pipe between the threads holds at least two bytes, as it does
  (`ThreadWriterFlush.OneByteIsTooFew`).
* A name that is empty or too long ends the configuration for its reader (`PersistentConfig.EntryLoadedIff`).
* A range of items asked for by name finds what is known when it is made and what its own iteration comes across; a record
  learned in between on another way is missed (`ItemFilter.VisitsSelectedIff`).
* A schema block of a new identifier whose bytes are no schema raises an exception in every way of reading, though the
  writer accepts it and `file_writer_test.cc` writes one (`LogScan.TestSchemaStops`).  Scanning, iterating, seeking and the
  index succeed if and only if none is met (`LogScan.LearnsAll`); none is when the schemas come from the archive
  (`LogScan.EmittedParses`).
* A file with an index and nothing else is read as if it had none, its index being as large as the file
  (`FileReader.AloneIsTooBig`).
* An index over no data says that the final item is 0 where a scan says -1 (`LogScan.IndexFurthest`).
* The frame comment in `mjlib/multiplex/format.h` speaks of a checksum over the frame with its checksum field zero; the code
  takes it over the bytes before that field, and so does the model.
* The telemetry README lets enumerations be over fixed integers or varints; the parser fails on varints, and so does the
  model.
* `TelemetryManager` keeps a rate in an int; one that does not fit becomes another rate, or none
  (`TelemetryManager.EveryRthPollIff`).

Checksums are a fold of an arbitrary step; that two registered schemas with equal checksums are equal is a hypothesis
(`PersistentConfig.CrcTells`).  Snappy is a pair of functions of which decompressing undoes compressing
(`LogFormat.Faithful`).  Times are integers of microseconds, floats are bit patterns, and the clock, the underlying streams
and the application behind a server are parameters.

## Model

| member | source | states |
|---|---|---|
| `Streams.BufferReadStream.Read` | mjlib/base/buffer_stream.h:74-83 | copies as much of the request as is left, and moves past exactly that |
| `Streams.BufferReadStream.ReadScalar` | mjlib/telemetry/format.h:258-277 | the generic scalar read: a short input is used up |
| `Streams.BufferReadStream.FastReadScalar` | mjlib/multiplex/stream.h:118-128 | the buffer specialisation gives the same scalar; a short input is left alone |
| `Streams.BufferWriteStream.Write` | mjlib/base/buffer_stream.h:30-35 | appends behind the offset and leaves the rest of the buffer as it was |
| `Varuint.DecodeAfterEncode` | mjlib/telemetry/format.h:234-249 | reading undoes writing for every 64-bit number, whatever follows |
| `Varuint.Decode32AfterEncode` | mjlib/multiplex/stream.h:38-53 | the same for the five-byte reader, for every 32-bit number |
| `Varuint.EncodeInjective` | mjlib/telemetry/format.h:161-169 | no encoding is equal to, or a prefix of, another number's |
| `Varuint.RawOfProperPrefix` | mjlib/telemetry/format.h:234-249 | cut anywhere inside a number, a reader comes up short |
| `Varuint.Decode32OfPart` | mjlib/multiplex/stream.h:86-116 | any spelling of a number: bytes behind it change nothing, a cut inside it is short |
| `Varuint.SizeBound` | mjlib/telemetry/format.h:116-124 | k bytes suffice exactly for the numbers below 128 to the k |
| `Varuint.GetVaruintSize` | mjlib/telemetry/format.h:116-124 | the size function is the length written |
| `Varuint.GetVaruintSize32` | mjlib/multiplex/format.h:182-189 | so is the differently shaped one of multiplex |
| `Varuint.WriteVaruint` | mjlib/telemetry/format.h:161-169 | the writing loop appends the encoding |
| `Varuint.FastWriteVaruint` | mjlib/multiplex/stream.h:158-173 | the buffer specialisation writes the same bytes in place and nothing else |
| `Varuint.ReadVaruint` | mjlib/telemetry/format.h:234-249 | the telemetry loop is the decoder, 64-bit wrap-around included |
| `Varuint.ReadVaruint32` | mjlib/multiplex/stream.h:38-53 | the generic multiplex loop is the decoder, five bytes too many read as the largest number |
| `Varuint.FastReadVaruint32` | mjlib/multiplex/stream.h:86-116 | the buffer specialisation agrees with the generic loop on every input |
| `Varuint.ZigZagRoundTrip` | mjlib/telemetry/format.h:171-173 | the two zigzag functions are inverse on all of int64 and uint64 |
| `EventQueue.NextKeepsInv` | mjlib/micro/atomic_event_queue.h:37-94 | every atomic step of any caller or the poller keeps ownership, custody, no loss, the count and progress |
| `EventQueue.ReachableInv` | mjlib/micro/atomic_event_queue.h:37-94 | so every interleaving of any number of Queue calls with one poller keeps them |
| `EventQueue.SafeAndExclusive` | mjlib/micro/atomic_event_queue.h:49-83 | no assertion on a slot's state fails; a slot's function is written only by its unique claimant or the poller that locked it |
| `EventQueue.ExactlyOnce` | mjlib/micro/atomic_event_queue.h:49-87 | a published function has run once, or is in the poller's hand, or waits in one slot: exactly one of these |
| `EventQueue.EarlyExit` | mjlib/micro/atomic_event_queue.h:69-71 | the count is never negative; an exit at zero leaves ready slots behind exactly when a call is between publishing and counting |
| `EventQueue.AnEventCanWaitForTheNextPoll` | mjlib/micro/atomic_event_queue.h:51-71 | that window is real: a run in which a Poll returns past an event that was ready when it began |
| `EventQueue.PollRunsAll` | mjlib/micro/atomic_event_queue.h:67-94 | with no call in the window a Poll runs everything that was ready at its start |
| `EventQueue.StepsAreBounded` | mjlib/micro/atomic_event_queue.h:37-94 | every operation brings the end of its Queue or Poll nearer, whatever the others do |
| `EventQueue.PollDrains` | mjlib/micro/atomic_event_queue.h:67-94 | after all calls have finished, one Poll runs every published function that had not run |
| `EventQueue.AtomicEventQueue.Queue` | mjlib/micro/atomic_event_queue.h:37-63 | each operation of Queue on the real slots is one step of the machine |
| `EventQueue.AtomicEventQueue.Poll` | mjlib/micro/atomic_event_queue.h:67-94 | each operation of Poll on the real slots is one step of the machine |
| `BinaryFormat.FixedSizeIsSize` | mjlib/telemetry/binary_schema_parser.cc:115-131 | when a schema has a fixed size, all its data have that size |
| `SchemaParser.SkipAfterData` | mjlib/telemetry/binary_schema_parser.cc:242-327 | for every schema and value, with anything following, Ignore consumes exactly what was written, shortcut included |
| `SchemaParser.ParseAfterEmit` | mjlib/telemetry/binary_schema_parser.cc:40-172 | parsing an emitted schema rebuilds kinds, names, enum items, defaults and each subtree's own bytes, and reads no more |
| `SchemaReader.Ignore` | mjlib/telemetry/binary_schema_parser.cc:242-327 | the streaming code of Ignore is the skipping function, errors included |
| `SchemaReader.ReadField` | mjlib/telemetry/binary_schema_parser.cc:40-63 | reading a field, its default recorded by skipping it, is the parsing function, and its element is stored behind all before it |
| `SchemaReader.ReadType` | mjlib/telemetry/binary_schema_parser.cc:65-172 | the streaming code is the parsing function, errors included, and the deque grows by exactly the element's tree, linked to its parent |
| `SchemaReader.ReadRaw` | mjlib/base/recording_stream.h:25-52 | what is recorded is exactly the bytes consumed |
| `Archive.ReadIntoAfterData` | mjlib/telemetry/binary_read_archive.h:73-204 | reading any written value over any object consumes the same bytes and leaves the merge of the two |
| `Archive.CleanMergesToValue` | mjlib/telemetry/binary_read_archive.h:136-156 | into an object whose optionals are empty the merge is the value |
| `Archive.ReadsBackIffClean` | mjlib/telemetry/binary_read_archive.h:136-156 | every value reads back if and only if the target was clean |
| `Archive.AbsentLeavesOldValue` | mjlib/telemetry/binary_read_archive.h:146-147 | whatever an optional of any type held, it still holds after reading "absent" |
| `Archive.Write` | mjlib/telemetry/binary_write_archive.h:72-159 | the visitor appends exactly the value's data |
| `Archive.Read` | mjlib/telemetry/binary_read_archive.h:43-204 | the visitor is the reading function, up to and including the first error |
| `ArchiveIgnore.ReadIsSkipped` | mjlib/telemetry/binary_read_archive.h:73-204 | on any bytes, well formed or not: what can be read into an object is exactly what Ignore skips, so what Ignore refuses cannot be read |
| `SchemaArchive.WriteSchema` | mjlib/telemetry/binary_write_archive.h:189-340 | the schema visitor appends exactly the schema's bytes, with the fields' defaults or without, as its option says |
| `SchemaArchive.ShownHasSameData` | mjlib/telemetry/binary_write_archive.h:227-235 | leaving the defaults out changes neither the values a schema has nor their bytes |
| `Evolution.SameBytesSameSchema` | mjlib/telemetry/mapped_binary_reader.h:53-58 | comparing the schema bytes decides equality of schemas |
| `Evolution.BuildableIffCompatible` | mjlib/telemetry/mapped_binary_reader.h:53-88 | the constructor's case split succeeds for exactly the compatible pairs of schemas |
| `Evolution.MappedReadAfterData` | mjlib/telemetry/mapped_binary_reader.h:236-260 | reading a record of one schema into another type gives the evolved object and consumes exactly the record |
| `Evolution.FieldsByName` | mjlib/telemetry/mapped_binary_reader.h:397-411 | each field takes what was written under its name, evolved in turn, or stays as it was; the value itself when types agree and the field was clean |
| `Evolution.SlowReadAfterData` | mjlib/telemetry/mapped_binary_reader.h:236-319 | without the shortcut for equal schemas, at any depth, reading gives back the value written, whatever the object held |
| `Evolution.FastPathAgreesIff` | mjlib/telemetry/mapped_binary_reader.h:55-58 | shortcut and slow path agree for all data of any kind of schema if and only if the target was clean |
| `Evolution.ReadMapped` | mjlib/telemetry/mapped_binary_reader.h:236-319 | the code of the reader is the reading function, on every input whose reads succeed and up to the first that fails |
| `Traversal.NextElement` | mjlib/telemetry/binary_schema_parser.cc:182-231 | the loop over parents ends and returns the first child, or the next sibling on the way up, or nothing |
| `Traversal.NextWithin` | mjlib/telemetry/binary_schema_parser.cc:182-231 | inside a stored subtree the steps are its preorder, and the last one climbs out of it |
| `Traversal.Elements` | mjlib/telemetry/binary_schema_parser.cc:182-231 | stepping from the root until nothing is next visits the preorder of the tree |
| `Traversal.ParsedElements` | mjlib/telemetry/binary_schema_parser.cc:33-38 | on any bytes: the parser fails as the parsing function does, or its elements are the preorder of what was parsed |
| `Traversal.OrderAscends` | mjlib/telemetry/binary_schema_parser.cc:182-231 | no stored element is visited twice |
| `Traversal.AllVisited` | mjlib/telemetry/binary_schema_parser.cc:182-231 | every stored element is visited but final ones |
| `Framing.FoldConcat` | mjlib/base/crc_stream.h:39-50 | adding bytes piece by piece comes to the same checksum as at once |
| `Framing.EncodedIsFrame` | mjlib/multiplex/frame.cc:33-44 | what is encoded is a frame of the published grammar, of the stated length |
| `Framing.EncodeFrame` | mjlib/multiplex/frame.cc:33-44 | the sequential writes through the checksumming stream give exactly the frame |
| `Framing.FrameSurvivesIff` | mjlib/multiplex/frame.cc:38-38 | source, reply flag, destination and payload survive the header byte exactly for sources below 128 |
| `Framing.CrcReadStream.ReadVaruint` | mjlib/base/crc_stream.h:27-58 | the checksum is that of all bytes consumed so far |
| `MicroStreamDatagram.DeliveredIsFrame` | mjlib/multiplex/micro_stream_datagram.cc:152-276 | a delivered packet was a frame in the buffer with matching checksum; all of it is consumed |
| `MicroStreamDatagram.ChunkingIsInvisible` | mjlib/multiplex/micro_stream_datagram.cc:125-276 | while no read fails: frames that fit, in noise free of 0x54, come through once, in order, unchanged, however split; no read gets an empty span; nothing is held back |
| `MicroStreamDatagram.FailureStartsAnew` | mjlib/multiplex/micro_stream_datagram.cc:133-149 | after a failed read, in any state, the receiver goes on as a fresh one would, and hands over whatever clear line follows |
| `MicroStreamDatagram.StalledIffFalseStart` | mjlib/multiplex/micro_stream_datagram.cc:185-190 | an attempt stops without an answer exactly when the first low header byte is a false start |
| `MicroStreamDatagram.FalseStartStalls` | mjlib/multiplex/micro_stream_datagram.cc:185-190 | a run in which one such byte leaves the caller waiting with no read out |
| `MicroStreamDatagram.EmptySpanIff` | mjlib/multiplex/micro_stream_datagram.cc:213-234 | for every buffer of at least 7 bytes, a read gets an empty span exactly when the buffer is full of a frame whose size is incomplete, or passed the size checks and does not fit |
| `MicroStreamDatagram.LargestPayloadNeverFits` | mjlib/multiplex/micro_stream_datagram.cc:220-234 | the largest payload that passes the size check never gets through once its size takes two bytes |
| `MicroStreamDatagram.Datagram.TryEmitOneFrame` | mjlib/multiplex/micro_stream_datagram.cc:152-276 | the code on the fixed buffer is one attempt of the specification, and what the client is told has the packet's addresses, size, first bytes and truncation |
| `DatagramClient.ReceiveLine` | mjlib/multiplex/micro_stream_datagram.cc:257-275 | however a clear line is split, the client is told of its frames in order: source, destination and size as sent, the payload as far as it has room, truncation flagged exactly when that is not all |
| `DatagramClient.Drive` | mjlib/multiplex/micro_stream_datagram.cc:125-276 | over any run, failed reads included, every packet taken from the line is handed over so, to the room it was asked for with |
| `MicroStreamDatagram.Datagram.AsyncRead` | mjlib/multiplex/micro_stream_datagram.cc:49-64 | asking is one step of the receiver's machine |
| `MicroStreamDatagram.Datagram.HandleReadFrame` | mjlib/multiplex/micro_stream_datagram.cc:133-149 | so is the arrival of bytes |
| `MicroStreamDatagram.Datagram.AsyncWrite` | mjlib/multiplex/micro_stream_datagram.cc:66-113 | the frame put together in place is the encoder's, when it is shorter than the buffer |
| `Rs485FrameStream.DeliveredIsFrame` | mjlib/multiplex/rs485_frame_stream.cc:143-208 | a delivered frame comes from bytes that fit the grammar with matching checksum, after discarded bytes only |
| `Rs485FrameStream.BreaksIffSizeWraps` | mjlib/multiplex/rs485_frame_stream.cc:172-177 | the undefined outcome arises exactly for a declared size of at least 2^32 - 2 with too few bytes behind it |
| `Rs485FrameStream.OverlongSizeBreaks` | mjlib/multiplex/rs485_frame_stream.cc:172-189 | ten bytes that reach it |
| `Rs485FrameStream.SearchIsIdempotent` | mjlib/multiplex/rs485_frame_stream.cc:113-141 | searching again what a search left changes nothing |
| `Recovery.Rs485Recovers` | mjlib/multiplex/rs485_frame_stream.cc:143-208 | one search finds a good frame behind any number of false starts: missing second header bytes and frames with wrong checksums |
| `Recovery.MicroRecovers` | mjlib/multiplex/micro_stream_datagram.cc:152-276 | so do the micro receiver's attempts, two bytes each, and the first that delivers anything delivers that frame |
| `Rs485FrameStream.ChunkingIsInvisible` | mjlib/multiplex/rs485_frame_stream.cc:113-218 | under any chunking and any asking and giving up, exactly the frames come out, in order; a waiting caller has a read out; none is held back |
| `Rs485FrameStream.EncodedLineIsClear` | mjlib/multiplex/frame.cc:33-44 | frames written by the client library with sources below 128 form such a line |
| `Rs485FrameStream.FrameStream.ParseFrame` | mjlib/multiplex/rs485_frame_stream.cc:143-208 | the loop ends on any buffer and is the search |
| `Rs485FrameStream.FrameStream.HandleRead` | mjlib/multiplex/rs485_frame_stream.cc:130-141 | the arrival of bytes is one step of the machine |
| `RegisterProtocol.EntryAt` | mjlib/multiplex/register.cc:144-148 | consecutive registers wrap around at 2^32 |
| `Register.RegisterRequest.ReadMultiple` | mjlib/multiplex/register.cc:48-63 | the builder appends the read subframe and asks for a reply |
| `Register.RegisterRequest.WriteMultiple` | mjlib/multiplex/register.cc:82-96 | the builder appends the write subframe with all values |
| `Register.ParseAfterReply` | mjlib/multiplex/register.cc:123-148 | a reply subframe reads as its registers and values, whatever follows |
| `Register.ParseAfterError` | mjlib/multiplex/register.cc:149-156 | an error subframe reads as one error entry |
| `Register.ParseNops` | mjlib/multiplex/register.cc:157-163 | padding says nothing |
| `Register.FirstEntryIsKept` | mjlib/multiplex/register.cc:169-179 | the map overload keeps the first entry of a register |
| `Register.ParseRegisterReply` | mjlib/multiplex/register.cc:181-194 | the loop that drops what a failed subframe had added is the parser |
| `MicroServer.Server.ProcessSubframes` | mjlib/multiplex/micro_server.cc:254-335 | the loop over subframes is the specification, for state, response, early ends and the counters of each |
| `MicroServer.Server.ProcessSubframeRead` | mjlib/multiplex/micro_server.cc:552-606 | so is a read, which rewinds the response at the first failing register |
| `MicroServer.Server.ProcessSubframeWrite` | mjlib/multiplex/micro_server.cc:477-521 | so is a write, with its error subframes |
| `MicroServer.Server.ProcessFrame` | mjlib/multiplex/micro_server.cc:197-244 | frames for others are counted and dropped; the reply goes back to the source, when wanted, accepted and not already busy |
| `Rpc.ReadsInOrder` | mjlib/multiplex/micro_server.cc:582-603 | reads are of start + i modulo 2^32, up to the first that fails |
| `Rpc.WritesInOrder` | mjlib/multiplex/micro_server.cc:491-518 | writes go to start + i modulo 2^32 in order, up to and including one that discards the rest |
| `Rpc.WritesDo` | mjlib/multiplex/micro_server.cc:491-518 | what a write subframe does and answers: error 1 for every register that is unknown, error 2 for every one that is not writeable, in order |
| `Rpc.RefusedWriteOnTheWire` | mjlib/multiplex/micro_server.cc:498-508 | in bytes: a write to an unknown register is answered 0x30 with error 1, to one that is not writeable with error 2 |
| `Rpc.ReadOnTheWire` | mjlib/multiplex/micro_server.cc:552-606 | in bytes: a read is answered 0x21 with the value, or 0x31 with the application's error |
| `Rpc.ServerPerforms` | mjlib/multiplex/micro_server.cc:254-335 | for every request the server performs exactly the operations meant, in order, and answers them; padding changes nothing |
| `Rpc.ReplyIsRead` | mjlib/multiplex/register.cc:123-194 | parsing that answer gives exactly the values and errors met, in order |
| `Rpc.RoundTrip` | mjlib/multiplex/register.cc:38-96 | both together, with padding on either side: builder calls, server, reply, parser |
| `RpcWithoutResponse.ReadIsItsNumber` | mjlib/multiplex/micro_server.cc:556-556 | without a response a read subframe changes nothing and processing goes on right behind its number, for every operand |
| `RpcWithoutResponse.OnlyWrites` | mjlib/multiplex/micro_server.cc:254-335 | a request whose reads have harmless numbers performs exactly its writes, in order |
| `RpcWithoutResponse.ReadIsTransparentIff` | mjlib/multiplex/micro_server.cc:556-556 | a read leaves the rest of its frame as it would be without it, for every device and whatever follows, if and only if its numbers are harmless |
| `RpcWithoutResponse.ReadsBecomeWrites` | mjlib/multiplex/micro_server.cc:556-556 | an instance: two reads come to write a register nobody named |
| `Tunnel.RunKeepsInv` | mjlib/multiplex/micro_server.cc:50-101 | over all runs with reentrant callbacks: delivered then held is what was accepted, at most 128 are held, data with a reader waiting has the flag set |
| `Tunnel.ClientToServerKeepsInv` | mjlib/multiplex/micro_server.cc:338-399 | a client's subframe keeps that, taken or not |
| `Tunnel.PollKeepsInv` | mjlib/multiplex/micro_server.cc:152-164 | Poll clears the flag only when no stream is ready |
| `Tunnel.PollHandsOver` | mjlib/multiplex/micro_server.cc:152-164 | with a stream ready the flag is set, and Poll hands over to the first one |
| `Tunnel.PollServesAll` | mjlib/multiplex/micro_server.cc:152-164 | such a Poll hands to every reader that waits, with data there, as much as it wants and there is, whatever callbacks do |
| `Tunnel.PayloadConsumedIffItFits` | mjlib/multiplex/micro_server.cc:338-399 | in every state, a client's payload is consumed and accepted if and only if it fits; else its bytes are read on as subframes; no other stream changes |
| `TunnelReplies.ClientToServerReplies` | mjlib/multiplex/micro_server.cc:374-395 | the reply is 0x41, the channel, a size and exactly that many first bytes of the next write, as many as there are and have room in datagram and response; that write is answered exactly when this is at least one byte |
| `TunnelReplies.ClientPollServerReplies` | mjlib/multiplex/micro_server.cc:422-444 | the same for a poll, with no more than it asks for |
| `TunnelReplies.HeardIffRoom` | mjlib/multiplex/micro_server.cc:387-387 | a reply is heard as those bytes, whatever follows it, if and only if there was room; else a negative size is announced |
| `TunnelReplies.RunIsHeard` | mjlib/multiplex/micro_server.cc:338-462 | over any run, what a client hears on a channel is what was said on it |
| `TunnelReplies.ClientHearsWrites` | mjlib/multiplex/micro_server.cc:63-76 | and that is, write by write and in order, a first part of each, never empty, but for the last one possibly unanswered |
| `TunnelServer.ProcessKeepsTunnels` | mjlib/multiplex/micro_server.cc:254-335 | for every frame, well formed or not, and every application, processing it keeps the tunnels sound |
| `Tunnel.TunnelStream.Accept` | mjlib/multiplex/micro_server.cc:358-367 | in place: all bytes are taken, or none |
| `Tunnel.TunnelStream.TransferOut` | mjlib/multiplex/micro_server.cc:78-101 | in place: the front of the buffer is copied out and the rest moved down |
| `Tunnel.TunnelStream.Say` | mjlib/multiplex/micro_server.cc:388-394 | in place: the first bytes of the pending write, which is then answered |
| `LogFormat.HeaderAfterBlock` | mjlib/telemetry/file_reader.cc:190-207 | a block's header reads as its type and size, and its length adds up |
| `LogFormat.ItemAfterData` | mjlib/telemetry/file_reader.cc:284-379 | reading a written data block gives its identifier, time and payload, for every flag combination, with a matching checksum |
| `LogItem.BlockReadsAs` | mjlib/telemetry/file_reader.cc:284-379 | every data block, whatever its flags, checksum and payload: unknown flags, a payload that does not decompress, a checksum other than that of the block with zeros in its place, in this order, are the three failures; checksums count only when verified; otherwise it is read as it is |
| `LogFormat.SchemaRead` | mjlib/telemetry/file_reader.cc:209-233 | a schema block gives back identifier, name and schema if its bytes parse, and fails if they do not |
| `LogFormat.TrailingSizeIsBlockSize` | mjlib/telemetry/file_writer.cc:315-324 | trailing_size is the size of the whole index block |
| `LogFormat.HeaderAt` | mjlib/telemetry/file_reader.cc:245-258 | at the start of block k of a file a reader finds that block |
| `SeekMarker.MarkerIsFound` | mjlib/telemetry/file_reader.cc:417-490 | a written marker, looked at from the end of its signature, is found with its time, position and last blocks |
| `LogItem.MarkerReadsAs` | mjlib/telemetry/file_reader.cc:434-490 | every block with a marker's fields: unknown flags or identifiers are exceptions, bytes left over or a wrong checksum make it no marker, and otherwise it is the marker |
| `LogItem.FirstOffsetCounts` | mjlib/telemetry/file_reader.cc:467-473 | of several offsets for one identifier the first counts |
| `SeekMarker.FindSeekMarker` | mjlib/telemetry/file_reader.cc:492-525 | the loop, index and stream position apart, is the search, in every outcome |
| `SeekMarker.SearchFindsAt` | mjlib/telemetry/file_reader.cc:492-525 | what the search returns was found behind a signature in range, evaluated at its true position or one byte late |
| `SeekMarker.MarkerFoundIff` | mjlib/telemetry/file_reader.cc:492-525 | a written marker is found if and only if its signature ends in range and is the first the search recognises, with no match begun at its first byte |
| `SeekMarker.FalsePositiveHides` | mjlib/telemetry/file_reader.cc:508-518 | once a signature that is no marker's was recognised, no written marker behind it is found in that call |
| `SeekMarker.LateFindsNothing` | mjlib/telemetry/file_reader.cc:428-444 | a written marker evaluated one byte late comes to nothing |
| `SeekMarker.SearchMisses` | mjlib/telemetry/file_reader.cc:505-519 | a written marker is missed when the byte before its signature begins a match |
| `SeekMarkerMisses.SizeHundredIsMissed` | mjlib/telemetry/file_reader.cc:505-519 | so every written marker of exactly 100 bytes is missed, by any search that begins before its signature |
| `SeekMarkerMisses.AMarkerIsMissed` | mjlib/telemetry/file_reader.cc:505-519 | an instance of it, in a file that holds nothing else |
| `SeekMarkerMisses.ADecoyHides` | mjlib/telemetry/file_reader.cc:508-518 | an instance of the other kind: a payload holds the signature, evaluates to no marker, and the written marker behind it is missed |
| `LogHistory.GenuineGrows` | mjlib/telemetry/file_writer.cc:216-224 | a block that says the truth keeps the log genuine |
| `LogHistory.RecordPointsAtLastIff` | mjlib/telemetry/file_writer.cc:327-334 | in any log the writer's record points at the last data block if and only if no schema block of the identifier lies behind it, and nowhere otherwise |
| `LogHistory.SchemaAgainForgets` | mjlib/telemetry/file_writer.cc:327-334 | a second schema block for an identifier with data makes the writer forget that data |
| `LogHistory.HistoryPointsAtLast` | mjlib/telemetry/file_writer.cc:327-334 | with one schema block per identifier the writer's record points at the last data block |
| `LogHistory.WalkStopsAtSchema` | mjlib/telemetry/file_writer.cc:368-383 | in any genuine log, following previous offsets visits the earlier blocks of the identifier in reverse, back to its last schema block, and stops |
| `LogHistory.BackToSchemaIsAllIff` | mjlib/telemetry/file_writer.cc:327-334 | those are all its earlier blocks if and only if no schema block lies behind any of them |
| `LogHistory.WalkIsBackwards` | mjlib/telemetry/file_writer.cc:368-383 | with one schema block per identifier it visits exactly the earlier blocks in reverse |
| `LogHistory.MarkerSaysSince` | mjlib/telemetry/file_writer.cc:250-262 | in any genuine log a seek marker names exactly the last data blocks that no schema block of their identifier follows |
| `LogHistory.MarkerSaysLast` | mjlib/telemetry/file_writer.cc:250-262 | with one schema block per identifier, those of every identifier so far |
| `LogHistory.WrittenFits` | mjlib/telemetry/file_writer.cc:236-351 | in a written file of less than 2^63 bytes no field is too wide for its place, so every block reads back |
| `FileWriter.HeaderFits` | mjlib/telemetry/file_writer.cc:423-434 | the header fits the padding when the three varuints total at most 18 bytes, and with all fields present only then |
| `FileWriter.Writer.AllocateIdentifier` | mjlib/telemetry/file_writer.cc:116-132 | a name keeps its identifier, a new name gets an unused one |
| `FileWriter.Writer.ReserveIdentifier` | mjlib/telemetry/file_writer.cc:134-160 | reserves exactly what is free, or reports the conflict |
| `FileWriter.Writer.Lay` | mjlib/telemetry/file_writer.cc:423-466 | the header fills exactly its reservation in front of the payload, checksum patched in place |
| `FileWriter.Writer.WriteData` | mjlib/telemetry/file_writer.cc:368-481 | appends the data block with the fields asked for, payload compressed only if that is asked for and shorter, and a seek block when due, from when the next one is counted; the file stays the log's bytes and the log genuine |
| `SeekSpacing.SpacedGrows` | mjlib/telemetry/file_writer.cc:472-480 | where markers have to be, said of the log alone: behind exactly the data blocks that come a period or more after the last marker, or after the first data while there is none |
| `FileWriter.Writer.WriteSchema` | mjlib/telemetry/file_writer.cc:327-351 | appends a schema block and starts the record anew |
| `FileWriter.Writer.WriteIndex` | mjlib/telemetry/file_writer.cc:292-325 | appends the index of all records |
| `LogScan.LatestIsLast` | mjlib/telemetry/file_reader.cc:557-565 | what "the last item at a time" means, for every identifier |
| `LogScan.PlainScanFindsLatest` | mjlib/telemetry/file_reader.cc:557-565 | with monotone times a scan that stops at the first late item finds them |
| `LogScan.MarkerSaysLatest` | mjlib/telemetry/file_reader.cc:549-552 | a marker of a time not after t says what a scan up to it finds |
| `LogScan.ScanLearnsHistory` | mjlib/telemetry/file_reader.cc:570-580 | a full scan learns exactly the records the writer knew |
| `LogScan.IndexFurthest` | mjlib/telemetry/file_reader.cc:640-653 | the index's final item is the scan's, as soon as there is data, and 0 when there is none |
| `LogScan.LearnsAllIffAllParse` | mjlib/telemetry/file_reader.cc:209-233 | in a log with one schema block per identifier a fresh reader gets through if and only if every schema block parses |
| `LogScan.EmittedParses` | mjlib/telemetry/file_reader.cc:225-226 | as every schema does that was emitted by the archive |
| `LogScan.TestSchemaStops` | mjlib/telemetry/file_reader.cc:225-226 | an instance that does not: the bytes "testschema" |
| `ItemFilter.NoticedIsFilterOf` | mjlib/telemetry/file_reader.cc:122-142 | learning a record keeps a filter by names that of the records known, when no two share identifier or name |
| `ItemFilter.VisitsSelectedIff` | mjlib/telemetry/file_reader.cc:169-183 | an iteration with a filter made earlier visits exactly the items of the records asked for if and only if no record with such a name was learned in between and has data still to come |
| `ItemFilter.PassesIffNotLate` | mjlib/telemetry/file_reader.cc:122-142 | block by block: the filter lets data through if and only if its record is asked for and was not learned in between |
| `ItemFilter.LearnedInBetweenIsMissed` | mjlib/telemetry/file_reader.cc:122-142 | an instance: one record with one item, asked for, then learned by a scan, then missed |
| `FileReader.Reader.ProcessSchema` | mjlib/telemetry/file_reader.cc:209-243 | a known identifier is left alone; a new one is learned and the filter told if its schema parses, and otherwise it fails and learns nothing |
| `FileReader.Reader.ReadUntil` | mjlib/telemetry/file_reader.cc:245-282 | reads on to the next data block the filter lets through, learning schemas, telling the filter, and tracking the final item; fails if and only if a schema block on the way is new and does not parse, and says where |
| `FileReader.Reader.Iterate` | mjlib/telemetry/file_reader.cc:698-728 | an iteration with any filter visits exactly what the filter, as it is told, lets through, to the end if and only if every new schema block parses |
| `FileReader.Reader.ItemsOf` | mjlib/telemetry/file_reader.cc:169-183 | with a filter made at its start it visits exactly the items of the records named, of all for no names, in order, and then knows every record; it gets there if and only if every new schema block parses |
| `FileReader.Reader.FullScan` | mjlib/telemetry/file_reader.cc:570-580 | succeeds if and only if every schema block of a new identifier parses; then everything is learned and the final item found |
| `FileReader.Reader.Read` | mjlib/telemetry/file_reader.cc:284-379 | the code, its checksum fed with zeros, is the reading function, and fails for an item of an unknown record |
| `FileReader.Reader.MaybeProcessIndex` | mjlib/telemetry/file_reader.cc:582-657 | on a closed log the index is found, and used if and only if every schema block parses; it then gives the same records and final item as a full scan |
| `FileReader.WrittenIsUnforged` | mjlib/telemetry/file_reader.cc:417-490 | a written marker passes for itself, looked at rightly or one byte late |
| `FileReader.Reader.Seek` | mjlib/telemetry/file_reader.cc:527-568 | from any stage of reading, ends; fails if and only if records are still to be found and a new schema block does not parse; otherwise returns exactly what a plain scan from the start would, whichever genuine markers the bisection meets |
| `LogRoundTrip.UsualGrows` | mjlib/telemetry/file_writer.cc:327-351 | one schema block per identifier before its data, and times that do not decrease, keep a log one that readers are claimed correct for |
| `LogRoundTrip.Record` | mjlib/telemetry/file_writer.cc:327-481 | any sequence of such calls leaves such a log, whose data blocks are the items given, in order, with seek markers behind exactly those that are due by the log's own times |
| `LogRoundTrip.Open` | mjlib/telemetry/file_reader.cc:149-168 | a reader's constructor succeeds on its file, index or not |
| `LogRoundTrip.RecordedIsPlayedBack` | mjlib/telemetry/file_reader.cc:698-728 | writer and reader together: iterating over the file gives back exactly the items given, with identifier, time and payload, in order |
| `LogRoundTrip.RecordedIsSought` | mjlib/telemetry/file_reader.cc:527-568 | and seeking in it gives the last item of every record up to the time asked for |
| `ThreadWriter.StepKeepsInv` | mjlib/base/thread_writer.h:101-131 | every step of either thread or the timer keeps conservation, wake-ups, and advice given only on what was passed on |
| `ThreadWriter.NothingIsLost` | mjlib/base/thread_writer.h:101-131 | in every run the file is a first part of what was written, and when the writer is gone all of it, flushed |
| `ThreadWriter.QueuedMeansProgress` | mjlib/base/thread_writer.h:176-251 | with anything queued some thread has a step to take: no lost wake-up |
| `ThreadWriter.DestructionProceeds` | mjlib/base/thread_writer.h:101-111 | a destructor that has begun is never stuck |
| `ThreadWriter.DestructionEnds` | mjlib/base/thread_writer.h:198-236 | and every step brings it nearer its end |
| `ThreadWriter.NextFadviseIs` | mjlib/base/thread_writer.h:302-314 | the advised offset is whole blocks, at most one block behind |
| `ThreadWriterFlush.FlushTakesHold` | mjlib/base/thread_writer.h:113-120 | Flush, or the timer, sees to it that all that was written before will be passed on |
| `ThreadWriterFlush.WillFlushStays` | mjlib/base/thread_writer.h:198-236 | nothing any thread does undoes that, new calls included, short of destruction |
| `ThreadWriterFlush.FlushedInTheEnd` | mjlib/base/thread_writer.h:198-236 | once the threads have gone on for long enough without new calls, in any order, it is passed on |
| `ThreadWriterFlush.OneByteIsTooFew` | mjlib/base/thread_writer.h:176-196 | with a pipe of a single byte it would not be: a run that ends with the bytes written, the flush asked for, and nothing left to do |
| `ThreadWriter.Writer.StartWrite` | mjlib/base/thread_writer.h:294-316 | the code is three steps of the machine |
| `ThreadWriter.Writer.RunWork` | mjlib/base/thread_writer.h:238-251 | left alone, it writes everything queued, in order |
| `PoolMap.EquivalentIsEqual` | mjlib/micro/pool_map.h:77-78 | neither key less than the other means equal keys |
| `PoolMap.Map.Insert` | mjlib/micro/pool_map.h:72-86 | a known key is left as it is, a new one goes to the end, a full map is the failed assertion |
| `PoolMap.Map.Contains` | mjlib/micro/pool_map.h:112-121 | true exactly for the keys inserted |
| `PersistentConfig.LoadOne` | mjlib/micro/persistent_config.cc:331-378 | loading an entry updates the element of its name and schema and nothing else |
| `PersistentConfig.OtherIsPassedOver` | mjlib/micro/persistent_config.cc:344-372 | an entry of an unknown name, or whose sum is not the checksum of the registered schema's bytes, is passed over, whatever its data |
| `PersistentConfig.WrittenIsEntry` | mjlib/micro/persistent_config.cc:396-423 | what is written for an element has its name, that checksum, its size and its data |
| `PersistentConfig.LoadAfterWrite` | mjlib/micro/persistent_config.cc:325-423 | write then load, whatever the two orders: matching elements before the first bad name get the written value, all others keep theirs |
| `PersistentConfig.EntryLoadedIff` | mjlib/micro/persistent_config.cc:336-342 | an entry that would change its element does so if and only if every name up to and including its own is neither empty nor too long |
| `PersistentConfig.Config.Write` | mjlib/micro/persistent_config.cc:396-423 | erases, then programs exactly the entries and the end mark |
| `PersistentConfig.Config.Size` | mjlib/micro/persistent_config.cc:425-441 | counts exactly the bytes that Write programs |
| `PersistentConfig.Config.DoLoad` | mjlib/micro/persistent_config.cc:325-385 | the code is the loading function, which carries on after data that run short; names and schemas stay, and every owner is told exactly once |
| `TelemetryManager.AfterIsModulo` | mjlib/micro/telemetry_manager.cc:119-120 | the index checked next is the circular one |
| `TelemetryManager.Step` | mjlib/micro/telemetry_manager.cc:112-125 | at most one write is out, and the flag says so, after every step |
| `TelemetryManager.StepIsFair` | mjlib/micro/telemetry_manager.cc:112-146 | while a marked channel waits, every grant to another brings it strictly nearer |
| `TelemetryManager.WaitIsBounded` | mjlib/micro/telemetry_manager.cc:112-146 | so it waits for at most n - 1 grants, in any run without a stop |
| `TelemetryManager.PollSends` | mjlib/micro/telemetry_manager.cc:97-110 | a poll with the stream free and a channel marked starts a write |
| `TelemetryManager.MarksAreSent` | mjlib/micro/telemetry_manager.cc:87-146 | exactly its turn at a poll, or an update when it is sent on those, marks a channel; exactly being sent, or a stop, clears it; nothing unmarked is sent |
| `TelemetryManager.UpdateMarks` | mjlib/micro/telemetry_manager.cc:87-95 | an update of a channel sent on updates marks it and starts a write if none is out; any other update does nothing |
| `TelemetryManager.UpdatedIsSent` | mjlib/micro/telemetry_manager.cc:87-146 | in any run without a stop the channel is sent after at most n - 1 grants to others |
| `TelemetryManager.SentOnUpdatesIff` | mjlib/micro/telemetry_manager.cc:286-300 | which rates mean that |
| `TelemetryManager.StopSilences` | mjlib/micro/telemetry_manager.cc:328-337 | after a stop nothing is sent until a rate is given |
| `TelemetryManager.MarkedAtItsRate` | mjlib/micro/telemetry_manager.cc:97-108 | after setting any rate of at least 10, k polls mark the channel floor(k / r) times for the rate r an int makes of it, and never if that is below 2 |
| `TelemetryManager.EveryRthPollIff` | mjlib/micro/telemetry_manager.cc:291-300 | that is every r-th poll for all k if and only if r is below 2^31 |
| `TelemetryManager.Manager.MaybeStartSend` | mjlib/micro/telemetry_manager.cc:112-146 | the loop grants the first marked channel after the last one sent |
| `TelemetryManager.Manager.PollMillisecond` | mjlib/micro/telemetry_manager.cc:97-110 | the code is one step of the machine |

## Left out

- CRC polynomials, the compression inside snappy, and conversions of calendar time.
- Varuints of more than ten bytes: the C++ shifts by 64 or more there, which the language leaves undefined; the model lets those bits fall out.
- The contents of an object after a failed read: the model says only that reading failed, and in PersistentConfig that some value of the type is left (`Leaving`).
- Counts times sizes beyond 63 bits when skipping a fixed-size array.
- The index check of a union in `Ignore`, which lets an index equal to the number of types through to an access out of bounds: the model treats that as a failed assertion.
- std::map members, external serializers, and the template dispatch of the archives.
- The elements of a parsed schema are values, and what they point to in the deque is kept beside them; what the deque holds after a failed parse is not modelled.
- Archive.Read: stops at the first error; the source notes it and goes on to the later fields, one of which can then fail an assertion (an optional's byte of 2 followed by a string size above 2^24, say).  PersistentConfig's short data are read the same way.
- Evolution.ReadMapped: fails where the source does not look: it ignores the archive's error on the shortcut for equal schemas, and takes an optional's index that is missing for "present".  The reader is a function of type and element; the tree of reader objects its constructor builds is the predicate Buildable.
- MicroStreamDatagram.ChunkingIsInvisible: is for runs without failed reads, each of which drops what was buffered; FailureStartsAnew says what follows one.
- MicroStreamDatagram.Datagram: buffers of fewer than 7 bytes, for which the size check wraps around.
- Rs485 timers are the Cancel event; deadlines, executors and serial ports are not modelled.
- MicroServer.Server.ProcessSubframeRead: writes into a response without a limit; the fixed response buffer and what happens when it is full are not modelled.
- MicroServer.Server.ProcessFrame: the same.
- Rpc.RoundTrip: values in one WriteMultiple are of one type, and a device answers a read with the type asked for, as its interface says.
- Tunnel callbacks do not call Poll or the server again; they make read and write calls only.
- Reopening a FileWriter, its raw WriteBlock, and buffers handed back for reuse.
- FileReader.Reader.ProcessSchema: after its exception the list behind records() keeps an entry without a schema, which no map names; the model has the entries of the maps only.
- LogRoundTrip.Record: stops at a header that does not fit, which fails an assertion in the source.
- FileReader on files that are not a written log, and on truncated logs.
- FileReader.Reader.Seek: exceptions on bytes that look like a marker are excluded by Unforged.
- Memory running out over a size that a forged block, a vector or a string claims.
- ThreadWriter buffers of no bytes, which the file refuses, signals in the middle of a call, and posix_fadvise itself.
- PersistentConfig commands other than write, load and size, flash smaller than the configuration; a bool read from a byte above 1, which the language leaves undefined, counts as a failed assertion.
- TelemetryManager commands other than rate and stop, text formats, and what is emitted.
- JSON5, program options, ini files, ImGui, command line tools, the Python readers, sockets and CAN.
