# A model of the Thrift runtime behind the PHP bridge

The repository is a PHP extension (`thrift_bridge.c`) on top of the Apache Thrift C++ runtime that it
ships in `3thrd/include/thrift`. This project models the parts of both in which most can go wrong: the
formats that are written and read back, the buffers in between, and the code that several threads share.

| file | models |
|---|---|
| `FileLog`, `FileWriter`, `FileReader`, `FileQueue`, `FileQueueImpl` | `TFileTransport`: the chunked event log as a format, the writer's loop, the resumable reader, and the two swapped buffers between producer and writer thread, as a protocol and as sections under the mutex |
| `Base64`, `JsonText`, `JsonReader`, `JsonScalars`, `JsonRoundTrip`, `JsonSkip` | the JSON protocol as functions: what is written, what is read, and `skip` |
| `JsonPlain`, `JsonRefusals` | the JSON of a value without contexts, which the writer produces, and byte for byte what the reader takes and refuses |
| `JsonProtocol`, `JsonTrees` | the protocol object with its contexts and its byte of lookahead, and the calls that code for a type makes on it |
| `HeaderFormat`, `HeaderTransport` | the header frame as a format, and `flush` and `readFrame` over byte buffers |
| `Stream`, `BufferedTransport`, `FramedTransport`, `MemoryBuffer` | the buffer transports over a transport that delivers any fragments |
| `HttpTransport`, `HttpPlain`, `HttpReader`, `HttpOverflow` | chunked bodies, their bytes spelled out, the incremental decoder over a shifting, growing buffer, and the bodies for which that buffer does not suffice |
| `BridgeTransport` | the object that PHP sees: `write`, `read`, `flush` |
| `NonblockingConnection`, `NonblockingPool` | a connection of the nonblocking server, and the server's accounts of connections and processors |
| `ThreadManager`, `ThreadManagerImpl` | the thread pool as a state machine, and its sections under the mutex as methods |
| `TimerManager`, `TimerManagerImpl` | the timers, in the same two forms |

`Bytes` holds what all share. A byte is a number below 256, and numbers that the source keeps in 32 bits
wrap where it lets them wrap.

An object of the source is a class here, and its methods change the same fields. What a method does is
stated by a function of the values before it: a parser, a layout, or a step of a state machine. The
properties are then proved of these functions, over all inputs and all runs. What a transport below
delivers, and how much a socket takes, is chosen arbitrarily each time, so whatever is proved holds for
every fragmentation. Where threads share state, each section that holds the mutex is one step, and a run
is any sequence of steps that are possible; a section takes no time on the clock.

A round trip says nothing about what is on the wire, and a law stated through a predicate nothing about what
that predicate is. So each format is also held against its bytes (`JsonPlain.WritesPlainJson`,
`HttpPlain.ReadsChunked`, `HeaderFormat.FrameBytes`, `FileLog.EmittedBytes`, `FileLog.ReadsAnyBytes`,
`Base64.DigitsOf`, `Bytes.ByteOrders`), and each machine against what its callers see, with clocks and limits
spelled out (`ThreadManager.TakesInOrder`, `ThreadManager.AddsTask`, `TimerManager.RunsNotBefore`,
`TimerManager.Dispatches`, `BridgeTransport.RunsAreDirect`, `FileQueue.WriterFinishes`).

## Where the code does not keep a promise

Each of these is proved, with the exact condition where there is one.

- The JSON reader loses bytes of value zero in text: they are written as an escape, and converted from a
  zero-terminated array when they are read. Negative field ids are written but refused by the reader, which
  takes them for numbers near two to the 64th. Without both, and with something behind a bare number that
  ends it, a tree comes back, and only then (`JsonRoundTrip.RoundTrip`).
- `skip` reads text as base64. On the text `==` the index of the padding loop wraps below zero and leaves
  the string (`JsonSkip.SkipsTextLeaf`).
- `skip` that fails because it is too deep leaves the depth counter one too high. For which texts that
  happens can be told before the call (`JsonSkip.Trouble`, `JsonSkip.SkipsText`).
- In the event log `eventSize_` wraps for events within four bytes of 4 GiB, and such an event is not read
  back (`FileLog.RoundTrip`). The padding can come out negative, which ends the process, exactly for chunks
  above 0x80000004 bytes and no event limit, or one above 2 GiB; events that wrap make that chunks above 2
  GiB (`FileLog.WriterStops`, `FileLog.WriterStopsByAny`).
- The size estimate of the header transport is computed in 32 bits. When it wraps, what is assembled leaves
  the buffer (`HeaderFormat.EstimateSound`, `HeaderFormat.EstimateWraps`). A header section of 65536 bytes or
  more is sent with the wrong size.
- `writeVarint32` never comes to a last digit for a negative number (`HeaderFormat.VarintEnds`), and its sixth
  store leaves its buffer (`HeaderTransport.Header.VarintDigits`). A received header can set such a protocol id,
  and then no answer goes out (`HeaderTransport.Header.Flush`).
- `TBufferedTransport` compares sizes in 32 bits before it copies (`BufferedTransport.MisjudgedExactly`, and
  `BufferedTransport.MisjudgedOnce` for an instance).
- `TFramedTransport` does not send a payload of 2 GiB, and says nothing. This happens exactly for buffers that
  grow beyond 2 GiB and three bytes, which all sizes but zero, the powers of two and five more do
  (`FramedTransport.OutgrowsExactly`, `FramedTransport.PayloadNotSent`). `flush` before any write stops at its
  assertion for buffers of 0, 1, 2 or 4 bytes. A reader cannot tell an empty frame from the end of file.
- The line buffer of the HTTP transport doubles in 32 bits, which fails from 2 GiB on. Every well-formed chunked
  body below 1.5 GiB and three bytes is decoded (`HttpOverflow.SmallDecodes`), and for every size from there on
  there is one that is not (`HttpOverflow.LargeFails`). That needs no long line: `readMoreData` refills the
  buffer without shifting it when everything in it has been consumed, so a body of which each read brings whole
  chunks, up to the end of the buffer, makes it grow with the whole body (`HttpOverflow.ShortLinesFail`).
- The bridge cuts the size of a request to 32 bits (`BridgeTransport.VisibleExactly`).
- In the nonblocking server the loop that doubles the read buffer does not end for frames above 2 GiB less four
  bytes, except for those so large that their size wraps round (`NonblockingConnection.GrowthEnds`), so the
  maximum frame size is assumed to be at most that. An empty frame closes the connection.
- A blocked call of `ThreadManager::add` does not look at the state again when it wakes, so its task can enter
  the queue after `stop` and is then never run; and `stop` without a worker leaves what is queued. It leaves
  nothing behind exactly when there is no such call, and a worker or nothing to do
  (`ThreadManager.StopSettles`).
- A second call of `ThreadManager::stop` does not wait for the first but sets the state to stopped; the workers
  then leave, and what is queued stays there (`ThreadManager.SecondStop`). When that may happen, `stop` leaves
  nothing behind exactly when there was nothing queued and no blocked call (`ThreadManager.SecondStopSettles`).
- `ThreadManager::removeExpiredTasks` scans the queue without the mutex, against the comment in the loop it calls.
  It removes the task that it found expired exactly when neither this nor one in front of it has left the queue
  in between, and otherwise a later one, which need not have expired and is never run
  (`ThreadManager.UnlockedScan`, `ThreadManager.ScanRemovesAnother`). The runs of the state machine have only the
  scan inside `add`, which holds the mutex.
- A frame with several messages is answered whole by a task, but in the I/O thread the processor is called once
  and the rest of the frame is dropped (`NonblockingConnection.TaskAnswersAll`,
  `NonblockingConnection.Connection.GotRequest`).

The late test of `isEmpty` in `swapEventBuffers` (`3thrd/include/thrift/transport/TFileTransport.cpp:284`) is
modelled as it stands; it does no harm.

## Model

| member | source | states |
|---|---|---|
| Bytes.ByteOrders | 3thrd/include/thrift/transport/TBufferTransports.cpp:199-260 | Network order starts with the highest byte of a number and the host order of the log with the lowest, for writing and for reading |
| FileLog.RoundTrip | 3thrd/include/thrift/transport/TFileTransport.cpp:397-449 | Reading the file that the writer lays out from an empty one gives exactly the events that were not dropped as oversized, in order, then end of file, for every chunk size and every sequence of events; it does so if and only if no kept event is within four bytes of 4 GiB, where `eventSize_` wraps |
| FileLog.ReadsLayout | 3thrd/include/thrift/transport/TFileTransport.cpp:397-449 | From any offset at which a layout starts, reading to the end of the file gives its kept events, then end of file |
| FileLog.ReadsRecord | 3thrd/include/thrift/transport/TFileTransport.cpp:601-721 | The parser recovers one record, padding included, from wherever the writer put it |
| FileLog.SkipPadding | 3thrd/include/thrift/transport/TFileTransport.cpp:601-721 | A run of zeros up to a chunk boundary is passed over without a trace, also where the size word would cross the boundary |
| FileLog.FillAll | 3thrd/include/thrift/transport/TFileTransport.cpp:601-721 | A payload that is complete in the file is returned whole |
| FileLog.FillSome | 3thrd/include/thrift/transport/TFileTransport.cpp:601-721 | Any part of a payload moves the parser along without changing the outcome: it can be resumed at every split |
| FileLog.RecordsInPlace | 3thrd/include/thrift/transport/TFileTransport.cpp:397-449 | Every kept record lies whole in the file, at the start the layout gives it, inside one chunk, and is not judged corrupt there |
| FileLog.ReturnedFits | 3thrd/include/thrift/transport/TFileTransport.cpp:723-749 | Whatever the bytes of the file, a returned event fits a chunk together with its size word |
| FileLog.LayoutSplits | 3thrd/include/thrift/transport/TFileTransport.cpp:397-449 | Writing two batches one after the other is writing their concatenation: the state between batches is the offset alone |
| FileLog.PaddingWidth | 3thrd/include/thrift/transport/TFileTransport.cpp:397-449 | In chunks of up to 0x80000004 bytes no padding comes out negative, in any run of events of which no written record is of one to four bytes, as only wrapped sizes are |
| FileLog.WriterStops | 3thrd/include/thrift/transport/TFileTransport.cpp:415-424 | For every configuration: some run of events whose sizes do not wrap makes a padding negative, which stops the writer, if and only if chunks are above 0x80000004 bytes and there is no event limit or one above 2 GiB |
| FileLog.WriterStopsByAny | 3thrd/include/thrift/transport/TFileTransport.cpp:415-424 | For every configuration: some run of any events does, if and only if that holds, or chunks are above 2 GiB and an event of 0xfffffffd bytes is let in, whose record wraps to one byte |
| FileLog.NarrowRecords | 3thrd/include/thrift/transport/TFileTransport.cpp:415-424 | No padding comes out negative when no record can be above 2 GiB, for its chunk or its limit: a padding is narrower than the record behind it |
| FileLog.KeptContains | 3thrd/include/thrift/transport/TFileTransport.cpp:397-449 | Every event that is not oversized is among those kept |
| FileLog.DroppedExactly | 3thrd/include/thrift/transport/TFileTransport.cpp:397-410 | An event of which nothing wraps is dropped exactly when it does not fit a chunk, or is above the limit, together with its size word; it is let into the queue exactly when it is not empty and not above the limit itself |
| FileLog.PlacedExactly | 3thrd/include/thrift/transport/TFileTransport.cpp:412-424 | A record stands where it is if it fits the rest of the chunk, and otherwise at the start of the next one |
| FileLog.EmittedBytes | 3thrd/include/thrift/transport/TFileTransport.cpp:412-449 | The bytes that a written event adds, one by one: zeros up to its place, its size with the lowest byte first, its payload |
| FileLog.JudgedExactly | 3thrd/include/thrift/transport/TFileTransport.cpp:723-749 | A record is judged corrupt exactly when its size is above the limit or does not fit the rest of the chunk behind its size word |
| FileLog.ReadsAnyBytes | 3thrd/include/thrift/transport/TFileTransport.cpp:601-721 | What the reader makes of any bytes, whether a writer put them there or not: passed over up to a boundary that the size word would cross, and for a zero size; otherwise corrupt, complete, or cut off by the end of the file |
| FileReader.LogReader.ReadEvent | 3thrd/include/thrift/transport/TFileTransport.cpp:601-721 | The outcome is that of the parser on the bytes of the file from the current position and partial event, however the file reads were cut; afterwards position and partial event are those behind the outcome |
| FileReader.LogReader.Advance | 3thrd/include/thrift/transport/TFileTransport.cpp:651-719 | One turn of the inner loop leaves the outcome unchanged, or is the outcome |
| FileReader.LogReader.AdvanceSize | 3thrd/include/thrift/transport/TFileTransport.cpp:652-687 | A byte taken towards the size word, with chunk skipping, zero sizes and the corruption test, leaves the outcome of the parser unchanged, or is that outcome |
| FileReader.LogReader.AdvancePayload | 3thrd/include/thrift/transport/TFileTransport.cpp:688-718 | A copy of payload bytes leaves the outcome of the parser unchanged, or completes the event that is the outcome |
| FileReader.LogReader.Refill | 3thrd/include/thrift/transport/TFileTransport.cpp:608-646 | A used up read buffer is replaced by the next bytes of the file; position and partial event stay |
| FileReader.LogReader.FileRead | 3thrd/include/thrift/transport/TFileTransport.cpp:612-618 | A read of the file returns any number of its next bytes, and none only at its end |
| FileReader.LogReader.constructor | 3thrd/include/thrift/transport/TFileTransport.cpp:62-95 | A new reader is at the start of the file with no partial event |
| FileReader.LogReader.ReadEvents | 3thrd/include/thrift/transport/TFileTransport.cpp:1007-1042 | Reading events until there is none gives all that the specification of the file gives from the current position, and its outcome, in whatever pieces the file is read |
| FileReader.WriteAndRead | 3thrd/include/thrift/transport/TFileTransport.cpp:360-721 | Events put through a buffer of any size into a log, whenever the buffer is full, and read back from it in any pieces: the writer stops exactly where a padding is too wide, and otherwise the events not dropped come back in order, then end of file, if and only if no kept event is within four bytes of 4 GiB |
| FileWriter.EventBuffer.AddEvent | 3thrd/include/thrift/transport/TFileTransport.cpp:925-937 | An event is appended if and only if the buffer is not full |
| FileWriter.EventBuffer.GetNext | 3thrd/include/thrift/transport/TFileTransport.cpp:938-949 | Events come out in the order they were added; none is left exactly when the read point meets the write point |
| FileWriter.EventBuffer.Reset | 3thrd/include/thrift/transport/TFileTransport.cpp:950-962 | The buffer is empty and takes events again |
| FileWriter.LogWriter.WriteEvent | 3thrd/include/thrift/transport/TFileTransport.cpp:397-449 | One event is dropped, or written behind the padding that keeps it in one chunk; the file grows by what the layout says and the offset stays the length of the file |
| FileWriter.LogWriter.WriteRecord | 3thrd/include/thrift/transport/TFileTransport.cpp:439-449 | The record is written behind its padding, cut to the 32-bit size |
| FileWriter.LogWriter.Drain | 3thrd/include/thrift/transport/TFileTransport.cpp:360-452 | The whole loop over the dequeue buffer adds the layout of its pending events to the file and empties it, or stops exactly where a padding is too wide |
| FileWriter.PaddingToNextChunk | 3thrd/include/thrift/transport/TFileTransport.cpp:415-424 | The distance to the next boundary, worked out with the divisions of the source, is at least one and what is missing to a multiple of the chunk size |
| FileQueue.EveryRunConserves | 3thrd/include/thrift/transport/TFileTransport.cpp:203-298 | In every interleaving of one producer and the writer thread, up to where a padding that comes out negative ends the process: events written or dropped, then the unread part of the dequeue buffer, then the enqueue buffer, are the accepted events in order; the file is the layout of those handled; the enqueue buffer stays within its size |
| FileQueue.RunInv | 3thrd/include/thrift/transport/TFileTransport.cpp:203-298 | Conservation, the layout of the file, the bounds of both buffers and the control state hold in every state of every run |
| FileQueue.FlushCompletes | 3thrd/include/thrift/transport/TFileTransport.cpp:518-535 | `flush` returns only when both buffers are empty and everything accepted is handled; a reader of the file then gets every accepted event that was not dropped |
| FileQueue.CloseCompletes | 3thrd/include/thrift/transport/TFileTransport.cpp:125-137 | After the destructor has joined the writer nothing accepted is missing from the file |
| FileQueue.AssertionsHold | 3thrd/include/thrift/transport/TFileTransport.cpp:464-516 | The writer finds both buffers empty when it answers a forced flush, and the producer finds no flush under way when it adds; the enqueue buffer is never in read mode: the late test of `isEmpty` in `swapEventBuffers` does no harm |
| FileQueue.WriterFinishes | 3thrd/include/thrift/transport/TFileTransport.cpp:348-452 | From every state of every run, as long as no padding stops it, there are steps of the writer alone after which everything accepted is written or dropped and a waiting flush returns |
| FileQueue.FlushReturns | 3thrd/include/thrift/transport/TFileTransport.cpp:518-535 | A `flush` called while the writer is at work, in any state of any run, can return, with everything accepted until then written or dropped |
| FileQueue.CloseReturns | 3thrd/include/thrift/transport/TFileTransport.cpp:125-137 | Destroying the transport can come to its end, with everything accepted written or dropped |
| FileQueue.WriteReturns | 3thrd/include/thrift/transport/TFileTransport.cpp:203-245 | An event that gets past the checks can be accepted, also when the buffer is full, if a buffer has room for one at all |
| FileQueue.Accepts | 3thrd/include/thrift/transport/TFileTransport.cpp:203-245 | An event gets past the checks exactly if it is not empty and not above the limit, and is accepted at once, or waits, exactly when the buffer has as many events as it may |
| FileQueue.SwapKeeps | 3thrd/include/thrift/transport/TFileTransport.cpp:264-298 | Exchanging the buffers, with the test of `isEmpty` made after waiting as in the source, keeps the invariant |
| FileQueue.DrainOneKeeps | 3thrd/include/thrift/transport/TFileTransport.cpp:393-449 | Handling one event moves it from the unread part to the handled ones and keeps the invariant |
| FileQueue.EnqueueKeeps | 3thrd/include/thrift/transport/TFileTransport.cpp:203-262 | Adding an event, or waiting because the buffer is full, keeps the invariant |
| FileQueueImpl.Queue.constructor | 3thrd/include/thrift/transport/TFileTransport.cpp:62-94 | The initial state of the protocol |
| FileQueueImpl.Queue.StartWriter | 3thrd/include/thrift/transport/TFileTransport.cpp:170-187 | Two empty buffers and a writer thread at the top of its loop |
| FileQueueImpl.Queue.EnqueueSection | 3thrd/include/thrift/transport/TFileTransport.cpp:226-257 | The section of `enqueueEvent`, over the two buffer objects, is the step of the protocol: the event is added, or the producer waits exactly when the buffer is full |
| FileQueueImpl.Queue.WakeProducerSection | 3thrd/include/thrift/transport/TFileTransport.cpp:237-257 | A producer that wakes adds its event exactly when there is room: the step of the protocol |
| FileQueueImpl.Queue.AddToBuffer | 3thrd/include/thrift/transport/TFileTransport.cpp:245-254 | The event is behind those in the enqueue buffer; the assertion that no flush is under way holds |
| FileQueueImpl.Queue.FlushSection | 3thrd/include/thrift/transport/TFileTransport.cpp:518-535 | A call of `flush` that does not wait found everything accepted in the file or dropped; one that waits asks for it; the invariant is kept |
| FileQueueImpl.Queue.FlushReturns | 3thrd/include/thrift/transport/TFileTransport.cpp:518-535 | When the wait of `flush` ends, every accepted event has been handled and the file is the layout of all of them |
| FileQueueImpl.Queue.SwapSection | 3thrd/include/thrift/transport/TFileTransport.cpp:264-298 | `swapEventBuffers` up to its wait is the step of the protocol: the pointers are exchanged exactly when there is something to write |
| FileQueueImpl.Queue.AfterWaitSection | 3thrd/include/thrift/transport/TFileTransport.cpp:283-298 | After the wait they are exchanged exactly when the buffer is still empty |
| FileQueueImpl.Queue.Exchange | 3thrd/include/thrift/transport/TFileTransport.cpp:287-291 | Exchanging two pointers is exchanging the contents of two buffers |
| FileQueueImpl.Queue.DrainTurn | 3thrd/include/thrift/transport/TFileTransport.cpp:360-452 | One turn of the loop over the dequeue buffer takes the next event and has the writer put it into the file, or empties the buffer at its end; it ends the process exactly when the padding before that event comes out negative |
| FileQueueImpl.Queue.ReadForceFlushSection | 3thrd/include/thrift/transport/TFileTransport.cpp:464-482 | The writer sets out to answer a flush only when every accepted event has been handled and the file is the layout of all of them |
| FileQueueImpl.Queue.DecideSection | 3thrd/include/thrift/transport/TFileTransport.cpp:500-514 | A forced flush is answered; both assertions of the source hold |
| Base64.BlockRoundTrip | 3thrd/include/thrift/protocol/TBase64Utils.cpp:31-312 | Decoding undoes encoding on every block of one to three bytes, both taken as six-bit digits, and the code never contains the padding character |
| Base64.TablesInvert | 3thrd/include/thrift/protocol/TBase64Utils.cpp:28-302 | The two tables are inverse on all 64 digits |
| Base64.Halves | 3thrd/include/thrift/protocol/TBase64Utils.cpp:31-43 | The masks of the source cut out the digits, and the two halves that make up one never share a bit |
| Base64.EncodeDecode | 3thrd/include/thrift/protocol/TBase64Utils.cpp:31-312 | Decoding undoes encoding on strings of any length |
| Base64.TextRoundTrip | 3thrd/include/thrift/protocol/TJSONProtocol.cpp:805-833 | Any bytes come back from their base64 text, whether or not it was padded on the way (sections 3.2 and 4 of RFC 4648) |
| Base64.Capitals | 3thrd/include/thrift/protocol/TBase64Utils.cpp:28-30 | The first 26 digits, by their letters |
| Base64.SmallLetters | 3thrd/include/thrift/protocol/TBase64Utils.cpp:28-30 | The next 26 |
| Base64.Figures | 3thrd/include/thrift/protocol/TBase64Utils.cpp:28-30 | The last twelve |
| Base64.NoDigit | 3thrd/include/thrift/protocol/TBase64Utils.cpp:45-64 | A character that is none of these stands for no digit |
| Base64.DigitsOf | 3thrd/include/thrift/protocol/TBase64Utils.cpp:31-43 | Three bytes are written as the four digits to the base 64 of the number they make up, the highest first (section 4 of RFC 4648); one or two as those digits that they reach |
| Base64.Padded | 3thrd/include/thrift/protocol/TJSONProtocol.cpp:805-822 | At most two padding characters are taken off the end |
| Base64.EncodeInto | 3thrd/include/thrift/protocol/TBase64Utils.cpp:31-43 | The encoder, with the shifts, masks and ors of the source, writes those digits and nothing else in the buffer |
| Base64.DecodeInPlace | 3thrd/include/thrift/protocol/TBase64Utils.cpp:304-312 | Decoding over its own input, with the shifts, masks and ors of the source, gives the block: no byte is overwritten before its last use |
| JsonText.TypeNamesInvert | 3thrd/include/thrift/protocol/TJSONProtocol.cpp:73-215 | Type names and type ids are inverse to each other |
| JsonText.TextTail | 3thrd/include/thrift/protocol/TJSONProtocol.cpp:338-717 | The text of a value does not depend on what is written behind it |
| JsonPlain.WritesPlainJson | 3thrd/include/thrift/protocol/TJSONProtocol.cpp:338-717 | What the writer, whose contexts decide about separators and quotes one item at a time, produces for any tree is its JSON written down without contexts: fields as `"id":{"type":value}`, lists and sets as `["type",count,...]`, maps as `["type","type",count,{...}]`, numbers quoted as keys and nowhere else |
| JsonPlain.Writes | 3thrd/include/thrift/protocol/TJSONProtocol.cpp:338-717 | The same in every context, behind what that puts in front of its next item |
| JsonPlain.MessageHeads | 3thrd/include/thrift/protocol/TJSONProtocol.cpp:604-612 | The header of a message, spelled out |
| JsonPlain.EscapesAll | 3thrd/include/thrift/protocol/TJSONProtocol.cpp:435-474 | Text is escaped byte for byte as section 7 of RFC 8259 has it, with the short escapes where there are some |
| JsonPlain.Decimals | 3thrd/include/thrift/protocol/TJSONProtocol.cpp:507-524 | Numbers are spelled in decimal digits |
| JsonPlain.KindsSpelled | 3thrd/include/thrift/protocol/TJSONProtocol.cpp:73-102 | The type of each kind of value, by its name on the wire |
| JsonScalars.ReadsBody | 3thrd/include/thrift/protocol/TJSONProtocol.cpp:748-802 | Reading undoes writing on every string, except that bytes of value zero are lost, each of them |
| JsonScalars.ReadsString | 3thrd/include/thrift/protocol/TJSONProtocol.cpp:748-802 | A string written with context and quotes is read back, without its zero bytes, leaving what follows and the context after one item |
| JsonScalars.ReadsBinary | 3thrd/include/thrift/protocol/TJSONProtocol.cpp:805-833 | Binary comes back unchanged, zero bytes included |
| JsonScalars.ReadsInteger | 3thrd/include/thrift/protocol/TJSONProtocol.cpp:868-885 | A number of any of the widths comes back, quoted where it is a key; a negative one read as unsigned comes back modulo two to the 64th |
| JsonScalars.ReadsBool | 3thrd/include/thrift/protocol/TJSONProtocol.cpp:1081-1085 | Booleans come back |
| JsonScalars.ReadsI8 | 3thrd/include/thrift/protocol/TJSONProtocol.cpp:1087-1093 | Bytes come back through the 16-bit read, its assertion and the cast |
| JsonScalars.DigitsInvert | 3thrd/include/thrift/protocol/TJSONProtocol.cpp:507-524 | Decimal digits invert |
| JsonScalars.FromStringInverts | 3thrd/include/thrift/protocol/TJSONProtocol.cpp:853-862 | Converting the text of a number in range gives the number |
| JsonScalars.TakesNumeric | 3thrd/include/thrift/protocol/TJSONProtocol.cpp:837-850 | The longest run of numeric characters is taken, and the character behind it is left |
| JsonScalars.PlainBase64 | 3thrd/include/thrift/protocol/TJSONProtocol.cpp:478-505 | Base64 text holds no character that the string reader would treat specially |
| JsonRefusals.HexDigits | 3thrd/include/thrift/protocol/TJSONProtocol.cpp:247-257 | The hex digits in an escape are the lower-case ones and no others |
| JsonRefusals.HexEscapes | 3thrd/include/thrift/protocol/TJSONProtocol.cpp:734-744 | The four digits of an escape, most significant first |
| JsonRefusals.ShortEscapes | 3thrd/include/thrift/protocol/TJSONProtocol.cpp:216-230 | The seven characters that may follow a backslash, what they stand for, and that there are no others |
| JsonRefusals.EscapesAreUtf8 | 3thrd/include/thrift/protocol/TJSONProtocol.cpp:748-802 | An escaped code unit becomes its UTF-8 sequence (section 3 of RFC 3629), zero none |
| JsonRefusals.NumberCharacters | 3thrd/include/thrift/protocol/TJSONProtocol.cpp:271-292 | The characters a number is spelled with |
| JsonRefusals.TypeLetters | 3thrd/include/thrift/protocol/TJSONProtocol.cpp:104-158 | A type is told by the first two letters of its name, whatever follows |
| JsonRefusals.Separators | 3thrd/include/thrift/protocol/TJSONProtocol.cpp:306-412 | Where a context wants a separator it takes that one and refuses any other byte |
| JsonRefusals.Brackets | 3thrd/include/thrift/protocol/TJSONProtocol.cpp:929-953 | A bracket opens a context, its partner goes back to the one outside, and any other byte is refused |
| JsonRefusals.StringsEnd | 3thrd/include/thrift/protocol/TJSONProtocol.cpp:748-802 | A string begins and ends with a quote; without the first it is refused, without the second the input ends in it |
| JsonRefusals.BadEscapes | 3thrd/include/thrift/protocol/TJSONProtocol.cpp:748-802 | A backslash with anything else behind it is refused |
| JsonRefusals.Clamped | 3thrd/include/thrift/protocol/TJSONProtocol.cpp:853-885 | Digits beyond the range of the type give its nearest end |
| JsonRefusals.Fractions | 3thrd/include/thrift/protocol/TJSONProtocol.cpp:853-885 | A number with a point, an exponent or a sign inside it is refused where an integer is read |
| JsonRefusals.Ranges | 3thrd/include/thrift/protocol/TJSONProtocol.cpp:868-885 | The ranges of the integer types |
| JsonRefusals.Limits | 3thrd/include/thrift/protocol/TJSONProtocol.cpp:955-973 | A message of another version is refused, and so is a count of 2 to the 32nd or more |
| JsonRefusals.Mismatches | 3thrd/include/thrift/protocol/TJSONProtocol.cpp:955-1079 | A list or set of another type than the reader asks for is refused, and so is a message whose sequence number does not fit 32 bits |
| JsonRoundTrip.RoundTrip | 3thrd/include/thrift/protocol/TJSONProtocol.cpp:929-1079 | For every tree of booleans, integers, text, binary, structs, lists, sets and maps, in every context and with anything behind it: the reads give back the same tree, leave exactly what follows it and restore the contexts, if and only if it has no negative field id, no zero byte in a text, and, if it is a bare number that is no key, something behind it that ends it |
| JsonRoundTrip.ReadsText | 3thrd/include/thrift/protocol/TJSONProtocol.cpp:929-1079 | What the reads give for every tree, in every context and with anything behind it: the tree without the zero bytes of its texts, or a size-limit error for a negative field id; and for a bare number that nothing ends the number that it makes with the digits behind it, or the error that these make |
| JsonRoundTrip.NormalIsIdentity | 3thrd/include/thrift/protocol/TJSONProtocol.cpp:774-776 | Dropping zero bytes changes a tree exactly when one of its texts has one |
| JsonRoundTrip.ReadsFieldBegin | 3thrd/include/thrift/protocol/TJSONProtocol.cpp:988-1007 | A field header comes back, or is refused for a negative id, which reads back as a number above the limit |
| JsonRoundTrip.ReadsMapBegin | 3thrd/include/thrift/protocol/TJSONProtocol.cpp:1013-1031 | A map header comes back, with the contexts its entries need |
| JsonRoundTrip.ReadsListBegin | 3thrd/include/thrift/protocol/TJSONProtocol.cpp:1039-1054 | The header of a list or set comes back, with the contexts its elements need |
| JsonRoundTrip.MessageRoundTrip | 3thrd/include/thrift/protocol/TJSONProtocol.cpp:955-973 | A message header comes back, its name without zero bytes |
| JsonSkip.SkipsText | 3thrd/include/thrift/protocol/TProtocol.h:702-793 | What `skip` does with the text of any tree, with anything behind it, foretold by the first trouble in reading order: it passes over exactly that text and restores contexts and depth if and only if there is no trouble and something ends a bare number; a value nested deeper than the room left gives a depth error and leaves the counter one too high; a negative field id gives a size error, and the text `==` leaves the array, both with the counter as it was; a bare number that nothing ends is passed over with the digits behind it, or fails as these make it |
| JsonSkip.SkipKeepsDepth | 3thrd/include/thrift/protocol/TProtocol.h:687-695 | On any input at all, well-formed or not, `skip` leaves the depth counter as it was, or has failed for depth and leaves it one higher; which of the two a written text brings about is what `SkipsText` foretells |
| JsonSkip.SkipsTextLeaf | 3thrd/include/thrift/protocol/TJSONProtocol.cpp:805-833 | Reading a text as base64 fails exactly on `==`, where the index of the padding loop wraps; otherwise it stops behind the text |
| JsonSkip.DepthForetells | 3thrd/include/thrift/protocol/TProtocol.h:686-701 | `skip` has no trouble with a tree exactly when it has neither a negative field id nor a text `==`, and is nested no deeper than there is room; without these two the trouble is its depth |
| JsonProtocol.LookaheadReader.Read | 3thrd/include/thrift/protocol/TJSONProtocol.h:275-282 | The next byte of the input, taken from the lookahead if there is one; an error exactly at the end |
| JsonProtocol.LookaheadReader.Peek | 3thrd/include/thrift/protocol/TJSONProtocol.h:284-290 | The next byte, which stays unread |
| JsonProtocol.Protocol.WriteValue | 3thrd/include/thrift/protocol/TJSONProtocol.cpp:578-717 | The writing calls for a tree append its text and restore the contexts |
| JsonProtocol.Protocol.WriteFields | 3thrd/include/thrift/protocol/TJSONProtocol.cpp:619-644 | The loop over the fields of a struct appends the text of all fields, each with its header |
| JsonProtocol.Protocol.WriteElems | 3thrd/include/thrift/protocol/TJSONProtocol.cpp:663-683 | A list or set appends its header, the text of its elements and the closing bracket |
| JsonProtocol.Protocol.WriteEntries | 3thrd/include/thrift/protocol/TJSONProtocol.cpp:646-661 | The loop over a map appends the text of keys and values in turn |
| JsonProtocol.Protocol.WriteContext | 3thrd/include/thrift/protocol/TJSONProtocol.cpp:336-402 | The separator that the context asks for, and the state of the context after it |
| JsonProtocol.Protocol.WriteString | 3thrd/include/thrift/protocol/TJSONProtocol.cpp:463-476 | Appends the quoted, escaped text and counts its bytes |
| JsonProtocol.Protocol.WriteBinary | 3thrd/include/thrift/protocol/TJSONProtocol.cpp:478-505 | Appends the base64 text in blocks of three bytes and counts it |
| JsonProtocol.Protocol.WriteInteger | 3thrd/include/thrift/protocol/TJSONProtocol.cpp:507-524 | Appends the number, quoted where the context wants it |
| JsonProtocol.Protocol.WriteOpening | 3thrd/include/thrift/protocol/TJSONProtocol.cpp:578-596 | Appends the bracket and pushes the inner context |
| JsonProtocol.Protocol.WriteClosing | 3thrd/include/thrift/protocol/TJSONProtocol.cpp:585-602 | Appends the bracket and pops |
| JsonProtocol.Protocol.WriteFieldBegin | 3thrd/include/thrift/protocol/TJSONProtocol.cpp:628-636 | Appends id, brace and type name |
| JsonProtocol.Protocol.WriteListBegin | 3thrd/include/thrift/protocol/TJSONProtocol.cpp:663-668 | Appends bracket, type name and size |
| JsonProtocol.Protocol.WriteMapBegin | 3thrd/include/thrift/protocol/TJSONProtocol.cpp:646-655 | Appends bracket, both type names, size and brace |
| JsonProtocol.Protocol.WriteMapEnd | 3thrd/include/thrift/protocol/TJSONProtocol.cpp:657-661 | Appends both closings |
| JsonProtocol.Protocol.WriteMessageBegin | 3thrd/include/thrift/protocol/TJSONProtocol.cpp:604-613 | Appends the message header |
| JsonProtocol.Protocol.ReadContext | 3thrd/include/thrift/protocol/TJSONProtocol.cpp:336-402 | For every input: the value, the input left, the contexts and the number of bytes (modulo two to the 32nd) are those of the pure reader, or the error is; the separator is the one the context asks for |
| JsonProtocol.Protocol.ReadEscapeChar | 3thrd/include/thrift/protocol/TJSONProtocol.cpp:734-746 | Four hex digits, or the error |
| JsonProtocol.Protocol.ReadEscaped | 3thrd/include/thrift/protocol/TJSONProtocol.cpp:760-788 | One escape of any kind moves the string reader on by one piece |
| JsonProtocol.Protocol.ReadStringBody | 3thrd/include/thrift/protocol/TJSONProtocol.cpp:751-801 | For every input: the string without quotes and escapes, the input behind it and the count of bytes, or the error of the pure reader |
| JsonProtocol.Protocol.ReadString | 3thrd/include/thrift/protocol/TJSONProtocol.cpp:748-802 | For every input: the value, the input left, the contexts and the number of bytes (modulo two to the 32nd) are those of the pure reader, or the error is; quotes, escapes and plain characters |
| JsonProtocol.Protocol.ReadBinary | 3thrd/include/thrift/protocol/TJSONProtocol.cpp:805-833 | For every input: the value, the input left, the contexts and the number of bytes (modulo two to the 32nd) are those of the pure reader, or the error is; base64 in a string, padded or not |
| JsonProtocol.Protocol.DecodeBinary | 3thrd/include/thrift/protocol/TJSONProtocol.cpp:808-831 | The loops over the copy decode it in place as specified, or leave the array |
| JsonProtocol.Protocol.StripPadding | 3thrd/include/thrift/protocol/TJSONProtocol.cpp:811-819 | The loop with a `uint32_t` index removes at most two padding characters, and leaves the array exactly on `==` |
| JsonProtocol.Protocol.ReadNumericChars | 3thrd/include/thrift/protocol/TJSONProtocol.cpp:837-850 | For every input: the longest run of numeric characters, the input behind it and the count, or end of file when nothing ends it |
| JsonProtocol.Protocol.ReadInteger | 3thrd/include/thrift/protocol/TJSONProtocol.cpp:868-885 | For every input: the value, the input left, the contexts and the number of bytes (modulo two to the 32nd) are those of the pure reader, or the error is, for every target range and with the quotes of a key |
| JsonProtocol.Protocol.ReadI8 | 3thrd/include/thrift/protocol/TJSONProtocol.cpp:1087-1093 | For every input: the value, the input left, the contexts and the number of bytes (modulo two to the 32nd) are those of the pure reader, or the error is, through the 16-bit number |
| JsonProtocol.Protocol.ReadBool | 3thrd/include/thrift/protocol/TJSONProtocol.cpp:1081-1085 | For every input: the value, the input left, the contexts and the number of bytes (modulo two to the 32nd) are those of the pure reader, or the error is, every number but zero being true |
| JsonProtocol.Protocol.ReadOpening | 3thrd/include/thrift/protocol/TJSONProtocol.cpp:929-947 | For every input: the value, the input left, the contexts and the number of bytes (modulo two to the 32nd) are those of the pure reader, or the error is; the context is pushed after the bracket |
| JsonProtocol.Protocol.ReadClosing | 3thrd/include/thrift/protocol/TJSONProtocol.cpp:936-953 | For every input: the value, the input left, the contexts and the number of bytes (modulo two to the 32nd) are those of the pure reader, or the error is; the context is popped after the bracket |
| JsonProtocol.Protocol.ReadTypeName | 3thrd/include/thrift/protocol/TJSONProtocol.cpp:988-1007 | For every input: the value, the input left, the contexts and the number of bytes (modulo two to the 32nd) are those of the pure reader, or the error is; unknown names are refused |
| JsonProtocol.Protocol.ReadFieldBegin | 3thrd/include/thrift/protocol/TJSONProtocol.cpp:988-1007 | For every input: the value, the input left, the contexts and the number of bytes (modulo two to the 32nd) are those of the pure reader, or the error is; a stop is recognised without being consumed |
| JsonProtocol.Protocol.ReadListBegin | 3thrd/include/thrift/protocol/TJSONProtocol.cpp:1039-1075 | For every input: the value, the input left, the contexts and the number of bytes (modulo two to the 32nd) are those of the pure reader, or the error is; sizes beyond 32 bits are refused |
| JsonProtocol.Protocol.ReadMapBegin | 3thrd/include/thrift/protocol/TJSONProtocol.cpp:1013-1031 | For every input: the value, the input left, the contexts and the number of bytes (modulo two to the 32nd) are those of the pure reader, or the error is; sizes beyond 32 bits are refused, and the object of the entries is opened |
| JsonProtocol.Protocol.ReadMapEnd | 3thrd/include/thrift/protocol/TJSONProtocol.cpp:1033-1037 | For every input: the value, the input left, the contexts and the number of bytes (modulo two to the 32nd) are those of the pure reader, or the error is; both levels are closed |
| JsonProtocol.Protocol.ReadMessageBegin | 3thrd/include/thrift/protocol/TJSONProtocol.cpp:955-973 | For every input: the value, the input left, the contexts and the number of bytes (modulo two to the 32nd) are those of the pure reader, or the error is; version and range of the sequence number are checked |
| JsonProtocol.Protocol.Skip | 3thrd/include/thrift/protocol/TProtocol.h:702-793 | For every input: the input left, contexts, depth counter and number of bytes consumed (modulo two to the 32nd) are those of the pure `skip`, or the error is |
| JsonProtocol.Protocol.SkipBody | 3thrd/include/thrift/protocol/TProtocol.h:706-793 | For every input, the switch over the type does what the pure `skip` says, with the bytes counted |
| JsonProtocol.Protocol.SkipStruct | 3thrd/include/thrift/protocol/TProtocol.h:735-751 | For every input, the loop over the fields does what the pure `skip` of a struct says, with the bytes counted |
| JsonProtocol.Protocol.SkipList | 3thrd/include/thrift/protocol/TProtocol.h:765-786 | For every input, the loop over the elements of a list or set does what the pure `skip` says, with the bytes counted |
| JsonProtocol.Protocol.SkipMap | 3thrd/include/thrift/protocol/TProtocol.h:752-764 | For every input, the loop over the entries of a map does what the pure `skip` says, with the bytes counted |
| JsonTrees.ReadValue | 3thrd/include/thrift/protocol/TJSONProtocol.cpp:929-1117 | The calls that code for a type makes on the protocol object give the value and state, or the error, that the specification says, on every input |
| JsonTrees.ReadStruct | 3thrd/include/thrift/protocol/TJSONProtocol.cpp:979-1011 | The loop over fields until the stop reads the struct, state and errors that the pure reader gives, on every input |
| JsonTrees.ReadSequence | 3thrd/include/thrift/protocol/TJSONProtocol.cpp:1039-1079 | The calls for a list or set read the elements, state and errors that the pure reader gives, on every input |
| JsonTrees.ReadMap | 3thrd/include/thrift/protocol/TJSONProtocol.cpp:1013-1037 | The calls for a map read the entries, state and errors that the pure reader gives, on every input |
| JsonTrees.WriteAndRead | 3thrd/include/thrift/protocol/TJSONProtocol.cpp:929-1117 | What one protocol object writes of any tree another reads back as the same tree, leaving what follows, if and only if the tree has no negative field id, no zero byte in a text, and an end if it is a bare number |
| JsonTrees.WriteAndSkip | 3thrd/include/thrift/protocol/TProtocol.h:702-793 | `skip` over what was written of any tree returns the number of its bytes, in 32 bits, and leaves what follows, if and only if there is no trouble and something ends a bare number |
| HeaderFormat.RoundTrip | 3thrd/include/thrift/transport/THeaderTransport.cpp:437-528 | For all flags, sequence numbers, non-negative protocol ids, header maps in any order, payloads and bytes behind: `readFrame` on what a header `flush` sends restores all of them, the client type and what follows, if and only if the padded header section is below 65536 bytes and the frame within `MAX_FRAME_SIZE` |
| HeaderFormat.FramedRoundTrip | 3thrd/include/thrift/transport/THeaderTransport.cpp:529-535 | A payload sent in one of the framed formats comes back and its protocol is recognised, if and only if its size is from 4 to `MAX_FRAME_SIZE` and it starts like a message of that protocol |
| HeaderFormat.FramedMessages | 3thrd/include/thrift/transport/THeaderTransport.cpp:126-145 | A frame of 4 to `MAX_FRAME_SIZE` bytes that starts with 80 01 is known as one of the binary protocol, one with 82 and version 1 in the low five bits of the next byte as one of the compact protocol, and given back whole |
| HeaderFormat.UnframedMessages | 3thrd/include/thrift/transport/THeaderTransport.cpp:98-112 | The same bytes where the size would be tell an unframed message; its first four bytes are given back and the rest is left |
| HeaderFormat.OtherFrames | 3thrd/include/thrift/transport/THeaderTransport.cpp:113-168 | Any other frame is refused unless it starts with 0f ff, and then is a header frame of at least ten bytes |
| HeaderFormat.ShortAndLong | 3thrd/include/thrift/transport/THeaderTransport.cpp:85-168 | Sizes above 0x3fffffff are refused; a frame that breaks off is an end of file |
| HeaderFormat.VarintDigits | 3thrd/include/thrift/transport/THeaderTransport.cpp:585-605 | A varint is its number in digits of seven bits, the lowest first, of which all but the last have the high bit |
| HeaderFormat.FrameBytes | 3thrd/include/thrift/transport/THeaderTransport.cpp:457-525 | A header frame, byte for byte: size, 0f ff, flags, sequence number, number of words of its header section, that section padded by one to four zeros, payload |
| HeaderFormat.OneHeader | 3thrd/include/thrift/transport/THeaderTransport.cpp:477-500 | A header section with one short pair, byte for byte |
| HeaderFormat.OddHeaders | 3thrd/include/thrift/transport/THeaderTransport.cpp:224-277 | A block of an unknown kind ends the headers; a string longer than the section is an error |
| HeaderFormat.ShortHeads | 3thrd/include/thrift/transport/THeaderTransport.cpp:195-222 | Protocol id and number of transforms are cut to signed 16-bit numbers; transforms are an error of the model, and a negative number of them is none |
| HeaderFormat.HeaderSizes | 3thrd/include/thrift/transport/THeaderTransport.cpp:146-222 | A header section said to have 16384 words or more, or more than there are, is refused; otherwise flags, sequence number and payload are the bytes in their places; pairs end with the section however many were announced |
| HeaderFormat.VarintInverts | 3thrd/include/thrift/transport/THeaderTransport.cpp:560-605 | Reading undoes writing for varints, at every position of the loop |
| HeaderFormat.ReadsVarint | 3thrd/include/thrift/transport/THeaderTransport.cpp:560-605 | Every 32-bit number comes back |
| HeaderFormat.VarintLength | 3thrd/include/thrift/transport/THeaderTransport.cpp:585-605 | At most five bytes, so the buffer of the writer suffices |
| HeaderFormat.VarintEnds | 3thrd/include/thrift/transport/THeaderTransport.cpp:585-599 | The loop of `writeVarint32` comes to an end if and only if the number is not negative |
| HeaderFormat.ReadsStr | 3thrd/include/thrift/transport/THeaderTransport.cpp:180-193 | Strings come back |
| HeaderFormat.ReadsPairs | 3thrd/include/thrift/transport/THeaderTransport.cpp:243-254 | All key/value pairs come back, collected into the map |
| HeaderFormat.StopsAtPadding | 3thrd/include/thrift/transport/THeaderTransport.cpp:226-238 | Zero padding of any length is never read as a header |
| HeaderFormat.ReadsInfo | 3thrd/include/thrift/transport/THeaderTransport.cpp:226-257 | The info headers come back whatever padding follows |
| HeaderFormat.ReadsHead | 3thrd/include/thrift/transport/THeaderTransport.cpp:195-257 | Protocol id and headers come back |
| HeaderFormat.CollectsAll | 3thrd/include/thrift/transport/THeaderTransport.cpp:243-254 | Reading the pairs of a map in any order gives the map |
| HeaderFormat.EstimateSound | 3thrd/include/thrift/transport/THeaderTransport.cpp:437-512 | What `flush` assembles never exceeds the estimate it is checked with, if and only if the estimate has not wrapped round 32 bits; there is no other bound on ids or strings |
| HeaderFormat.EstimateWraps | 3thrd/include/thrift/transport/THeaderTransport.cpp:440-455 | Fifteen headers of just under 256 MiB and a payload of 256 MiB make the estimate 174 while more than 0xf0000000 bytes are assembled |
| HeaderFormat.PairsBounds | 3thrd/include/thrift/transport/THeaderTransport.cpp:402-411 | The sum that the estimate is made of is at least the length of the pairs and at most eight bytes more for each |
| HeaderFormat.KeysCost | 3thrd/include/thrift/transport/THeaderTransport.cpp:402-411 | A map has at most one empty key, so its headers cost at least eleven bytes each but for one |
| HeaderTransport.CheckedFits | 3thrd/include/thrift/transport/THeaderTransport.cpp:440-455 | A frame that passes the check fits the buffer, or its estimate has wrapped |
| HeaderTransport.Header.constructor | 3thrd/include/thrift/transport/THeaderTransport.h:75-87 | A new transport is empty, with a transform buffer for its write buffer |
| HeaderTransport.Header.ResizeTransformBuffer | 3thrd/include/thrift/transport/THeaderTransport.cpp:317-325 | The transform buffer is at least the write buffer and 512 bytes, modulo two to the 32nd, and never shrinks |
| HeaderTransport.Header.GetMaxWriteHeadersSize | 3thrd/include/thrift/transport/THeaderTransport.cpp:402-411 | The sum over the headers, or an error when it does not fit |
| HeaderTransport.Header.Put | 3thrd/include/thrift/transport/THeaderTransport.cpp:391-396 | Bytes are stored behind those already there, or it is refused for leaving the buffer |
| HeaderTransport.Header.WriteVarint32 | 3thrd/include/thrift/transport/THeaderTransport.cpp:585-605 | A number that is not negative is appended in its varint form if it fits; for a negative one a store leaves the buffer |
| HeaderTransport.Header.VarintDigits | 3thrd/include/thrift/transport/THeaderTransport.cpp:585-603 | For every signed number: the loop fills the buffer of five bytes with that form, and if and only if the number is negative its sixth store leaves the buffer |
| HeaderTransport.Header.WriteString | 3thrd/include/thrift/transport/THeaderTransport.cpp:391-396 | Length and bytes are appended; lengths beyond an `int32_t` are refused |
| HeaderTransport.Header.WritePairs | 3thrd/include/thrift/transport/THeaderTransport.cpp:493-498 | All pairs are appended in the order of the map |
| HeaderTransport.Header.WriteInfo | 3thrd/include/thrift/transport/THeaderTransport.cpp:485-500 | Id, count and pairs, or nothing for an empty map |
| HeaderTransport.Header.WriteHead | 3thrd/include/thrift/transport/THeaderTransport.cpp:477-500 | Protocol id, number of transforms and info; a negative id makes a store leave the buffer |
| HeaderTransport.Header.Assemble | 3thrd/include/thrift/transport/THeaderTransport.cpp:457-525 | The buffer holds size word, common part and padded header, the two late fields filled in; it goes wrong only for what does not fit and for a negative protocol id |
| HeaderTransport.Header.FlushHeader | 3thrd/include/thrift/transport/THeaderTransport.cpp:437-528 | Sends the frame as specified and clears the headers, or sends nothing and says why; a write beyond the buffer happens for a negative protocol id, which a received header can set, and otherwise only if the estimate has wrapped |
| HeaderTransport.Header.CheckEstimate | 3thrd/include/thrift/transport/THeaderTransport.cpp:437-456 | The check passes if and only if the estimate, computed in 32 bits, is within the buffer |
| HeaderTransport.Header.Flush | 3thrd/include/thrift/transport/THeaderTransport.cpp:417-543 | All client types and every protocol id: what is sent, what becomes of the headers, and that the write buffer is empty on every way out |
| HeaderTransport.Header.ReadVarint32 | 3thrd/include/thrift/transport/THeaderTransport.cpp:560-583 | For all bytes between pointer and boundary: the number and the position behind it, or an error when no varint ends before the boundary |
| HeaderTransport.Header.ReadString | 3thrd/include/thrift/transport/THeaderTransport.cpp:180-193 | For all bytes between pointer and boundary: the string and the position behind it, or the error of the pure parser, whose length test comes before the pointer moves |
| HeaderTransport.Header.ReadKeyValues | 3thrd/include/thrift/transport/THeaderTransport.cpp:243-254 | For all bytes between pointer and boundary: the headers collected from up to `count` pairs and the position behind them, or the error of the pure parser |
| HeaderTransport.Header.ReadInfoHeaders | 3thrd/include/thrift/transport/THeaderTransport.cpp:226-257 | For all bytes between pointer and boundary: the headers of all blocks up to padding or an unknown id, or the error of the pure parser |
| HeaderTransport.Header.ReadSection | 3thrd/include/thrift/transport/THeaderTransport.cpp:195-257 | For all bytes between pointer and boundary: protocol id and headers, the transforms being passed, or the error of the pure parser |
| HeaderTransport.Header.ReadHeaderFormat | 3thrd/include/thrift/transport/THeaderTransport.cpp:195-261 | For every frame in header format: protocol id, headers and payload are those of the pure parser, or the error is and nothing is there to read |
| HeaderTransport.Header.ReadSize | 3thrd/include/thrift/transport/THeaderTransport.cpp:76-98 | The size word, end of file, or an error in the middle of it |
| HeaderTransport.Header.ReadRest | 3thrd/include/thrift/transport/THeaderTransport.cpp:125-147 | The rest of the frame behind its first four bytes |
| HeaderTransport.Header.ReadHeaded | 3thrd/include/thrift/transport/THeaderTransport.cpp:141-162 | Flags, sequence number and the rest of the state are those of the frame |
| HeaderTransport.Header.ReadFramed | 3thrd/include/thrift/transport/THeaderTransport.cpp:113-168 | Recognises the format behind a size word and leaves the state of that format |
| HeaderTransport.Header.ReadFrame | 3thrd/include/thrift/transport/THeaderTransport.cpp:71-171 | On every input and every fragmentation agrees with the specification of a frame: the state restored, what is left, or the error |
| HeaderTransport.Header.EnsureReadBuffer | 3thrd/include/thrift/transport/THeaderTransport.cpp:64-69 | The read buffer has the size asked for and never shrinks |
| BufferedTransport.MisjudgedExactly | 3thrd/include/thrift/transport/TBufferTransports.cpp:64-111 | When the 32-bit comparison of `writeSlow` takes the copying path for bytes that do not fit: the sum wraps to less than two buffers |
| BufferedTransport.MisjudgedOnce | 3thrd/include/thrift/transport/TBufferTransports.cpp:88-98 | One byte in the default buffer and a write of 0xffffffff bytes do it |
| BufferedTransport.Buffered.constructor | 3thrd/include/thrift/transport/TBufferTransports.h:278-284 | Nothing is buffered either way |
| BufferedTransport.Buffered.Write | 3thrd/include/thrift/transport/TBufferTransports.h:96-105 | The bytes sent and buffered grow by those written, in order; the assertion fails exactly where the comparison is misjudged |
| BufferedTransport.Buffered.WriteSlow | 3thrd/include/thrift/transport/TBufferTransports.cpp:64-111 | On the slow path the bytes sent and buffered grow by those written, in order; it fails exactly where the comparison is misjudged |
| BufferedTransport.Buffered.WriteThrough | 3thrd/include/thrift/transport/TBufferTransports.cpp:90-98 | Two writes below keep the order |
| BufferedTransport.Buffered.FillUp | 3thrd/include/thrift/transport/TBufferTransports.cpp:100-111 | One write of a full buffer; the rest fits what was freed |
| BufferedTransport.Buffered.FlushOut | 3thrd/include/thrift/transport/TBufferTransports.cpp:121-135 | Everything buffered is below, in order |
| BufferedTransport.Buffered.Run | 3thrd/include/thrift/transport/TBufferTransports.cpp:64-135 | Over any run of writes and flushes, sent and buffered bytes are the bytes written, in order; no run fails for buffers below 2 GiB and writes of at most 2 GiB |
| BufferedTransport.Buffered.Read | 3thrd/include/thrift/transport/TBufferTransports.h:63-75 | Bytes delivered and bytes still buffered or below are the bytes there were, in order; nothing is returned only at the end |
| BufferedTransport.Buffered.ReadSlow | 3thrd/include/thrift/transport/TBufferTransports.cpp:32-62 | On the slow path nothing is lost or reordered; what is buffered is given first, without reading |
| BufferedTransport.Buffered.ReadAll | 3thrd/include/thrift/transport/TBufferTransports.h:77-93 | Exactly the number asked for, or an error exactly when there are fewer or the buffer is of size zero |
| BufferedTransport.Buffered.Peek | 3thrd/include/thrift/transport/TBufferTransports.h:228-233 | Whether there is another byte; none is lost |
| FramedTransport.FrameRoundTrip | 3thrd/include/thrift/transport/TBufferTransports.cpp:172-218 | A frame comes back with what follows it exactly when the reader allows its size |
| FramedTransport.FrameBytes | 3thrd/include/thrift/transport/TBufferTransports.cpp:252-274 | A frame, byte for byte: its size with the highest byte first, then the payload |
| FramedTransport.NoFrames | 3thrd/include/thrift/transport/TBufferTransports.cpp:172-218 | A size with the high bit and a size or payload that breaks off are refused |
| FramedTransport.WireRoundTrip | 3thrd/include/thrift/transport/TBufferTransports.cpp:137-218 | Reading any sequence of frames to the end delivers the payloads, in order |
| FramedTransport.PayloadsAreWrites | 3thrd/include/thrift/transport/TBufferTransports.cpp:252-286 | Over any run the payloads flushed and what is pending are the bytes written: one frame for each flush that is not empty |
| FramedTransport.Double | 3thrd/include/thrift/transport/TBufferTransports.cpp:220-250 | The doubling loop ends without leaving 32 bits for every size that is let through |
| FramedTransport.OutgrowsExactly | 3thrd/include/thrift/transport/TBufferTransports.cpp:220-250 | A buffer that starts with a given size can come to hold a payload above an `int32_t` if and only if the size is not zero, no power of two up to 2 GiB, and none of 0x40000001, 0x7fffffff, 0x80000001, 0x80000002 and 0x80000003 |
| FramedTransport.PayloadNotSent | 3thrd/include/thrift/transport/TBufferTransports.cpp:220-286 | From each size that can, two writes and a flush make a run that takes a payload of 2 GiB and reports that it has flushed it, but sends nothing |
| FramedTransport.FreshBufferTooSmall | 3thrd/include/thrift/transport/TBufferTransports.h:416-422 | The assertion of `flush` fails on a fresh buffer exactly for sizes 0, 1, 2 and 4 |
| FramedTransport.Framer.constructor | 3thrd/include/thrift/transport/TBufferTransports.h:416-422 | Four bytes are kept for the size word |
| FramedTransport.Framer.Write | 3thrd/include/thrift/transport/TBufferTransports.h:96-105 | Bytes join the pending payload, or it is refused beyond 2 GiB and nothing changes; the size of the buffer is the doubled one |
| FramedTransport.Framer.WriteSlow | 3thrd/include/thrift/transport/TBufferTransports.cpp:220-250 | On the slow path the bytes join the pending payload in a buffer of the doubled size, or it is refused beyond 2 GiB and nothing changes |
| FramedTransport.Framer.FlushOut | 3thrd/include/thrift/transport/TBufferTransports.cpp:252-286 | The pending payload goes out as one frame, an empty one not at all, and the pad is reserved again; a payload above an `int32_t` is not sent |
| FramedTransport.Framer.Run | 3thrd/include/thrift/transport/TBufferTransports.cpp:220-286 | Over any run of writes and flushes that gets to its end the output grows by the frames of the payloads; a run ends early with a refused write, never when payloads stay below 2 GiB; with the assertion of `flush`, never on a buffer larger than four bytes; or with a payload not sent, never on a buffer that does not outgrow 2 GiB |
| FramedTransport.Framer.ReadSize | 3thrd/include/thrift/transport/TBufferTransports.cpp:172-196 | The loop over fragments of the size word |
| FramedTransport.Framer.ReadFrame | 3thrd/include/thrift/transport/TBufferTransports.cpp:172-218 | For every input below and every fragmentation: the payload in the buffer and the input left are those of the pure parser, or nothing at end of file, or the error |
| FramedTransport.Framer.Read | 3thrd/include/thrift/transport/TBufferTransports.h:63-75 | The bytes delivered are the next of what the frames hold, in order |
| FramedTransport.Framer.ReadSlow | 3thrd/include/thrift/transport/TBufferTransports.cpp:137-170 | On the slow path the bytes delivered are the next of what the frames hold, in order; nothing only at the end or at an empty frame |
| FramedTransport.Framer.ReadPieces | 3thrd/include/thrift/transport/TBufferTransports.cpp:137-170 | Any run of reads delivers consecutive pieces |
| FramedTransport.Framer.ReadToEnd | 3thrd/include/thrift/transport/TBufferTransports.cpp:137-218 | Reading to the end of well-formed frames, under every fragmentation, delivers everything they hold |
| FramedTransport.SendAndReceive | 3thrd/include/thrift/transport/TBufferTransports.cpp:137-286 | What any run of writes and flushes sends is read back to the end as the concatenated payloads, by a reader that allows their sizes; no run whose payloads stay below 2 GiB fails, whatever the size of the buffer, but for 0, 1, 2 and 4 |
| FramedTransport.Framer.ReadEnd | 3thrd/include/thrift/transport/TBufferTransports.cpp:301-312 | The size of the frame, and when the buffer is given back |
| MemoryBuffer.CeilPow2IsLeast | 3thrd/include/thrift/transport/TBufferTransports.cpp:379-383 | The new size is the least power of two that suffices |
| MemoryBuffer.GrowsTo | 3thrd/include/thrift/transport/TBufferTransports.cpp:372-383 | The new size is that power, or the maximum if it is above it |
| MemoryBuffer.MemoryBuffer.constructor | 3thrd/include/thrift/transport/TBufferTransports.h:465-490 | An owned empty buffer |
| MemoryBuffer.MemoryBuffer.On | 3thrd/include/thrift/transport/TBufferTransports.h:547-567 | The bytes given, owned or observed as the policy says; a copy leaves the read bound behind |
| MemoryBuffer.MemoryBuffer.ComputeRead | 3thrd/include/thrift/transport/TBufferTransports.cpp:314-326 | The next bytes, as many as asked for or as there are, with the stale bound corrected |
| MemoryBuffer.MemoryBuffer.Read | 3thrd/include/thrift/transport/TBufferTransports.h:63-75 | A queue of bytes: the next min(len, unread), whichever path is taken and however stale the bound |
| MemoryBuffer.MemoryBuffer.ReadSlow | 3thrd/include/thrift/transport/TBufferTransports.cpp:328-337 | On the slow path a read gives the next min(len, unread) bytes of the queue |
| MemoryBuffer.MemoryBuffer.Borrow | 3thrd/include/thrift/transport/TBufferTransports.cpp:410-418 | A view of the next bytes if and only if there are enough |
| MemoryBuffer.MemoryBuffer.Consume | 3thrd/include/thrift/transport/TBufferTransports.h:122-129 | What was borrowed is taken off, no more |
| MemoryBuffer.MemoryBuffer.ReadEnd | 3thrd/include/thrift/transport/TBufferTransports.h:659-667 | An emptied buffer starts over; otherwise nothing changes |
| MemoryBuffer.MemoryBuffer.EnsureCanWrite | 3thrd/include/thrift/transport/TBufferTransports.cpp:355-392 | Growth keeps contents and offsets and gives the power of two capped at the maximum; refused exactly for a buffer not owned, or when used and new bytes exceed the maximum |
| MemoryBuffer.MemoryBuffer.Write | 3thrd/include/thrift/transport/TBufferTransports.h:96-105 | The bytes join the queue, or it is refused and nothing changes |
| MemoryBuffer.MemoryBuffer.WriteSlow | 3thrd/include/thrift/transport/TBufferTransports.cpp:394-400 | On the slow path the bytes join the queue after it has grown, or it is refused and nothing changes |
| MemoryBuffer.MemoryBuffer.WriteThrough | 3thrd/include/thrift/transport/TBufferTransports.h:687-693 | Storing through the write pointer and `wroteBytes` is a write |
| MemoryBuffer.MemoryBuffer.WroteBytes | 3thrd/include/thrift/transport/TBufferTransports.cpp:402-408 | The write position moves within what was made room for |
| MemoryBuffer.MemoryBuffer.SetMaxBufferSize | 3thrd/include/thrift/transport/TBufferTransports.h:717-723 | Refused exactly below the current size |
| MemoryBuffer.MemoryBuffer.Reset | 3thrd/include/thrift/transport/TBufferTransports.h:609-618 | Empty; memory of somebody else is not written again |
| MemoryBuffer.MemoryBuffer.ResetOn | 3thrd/include/thrift/transport/TBufferTransports.h:621-639 | The new bytes, but the old maximum |
| MemoryBuffer.MemoryBuffer.ResetSize | 3thrd/include/thrift/transport/TBufferTransports.h:642-648 | An empty buffer of the new size, with the old maximum |
| MemoryBuffer.MemoryBuffer.Swap | 3thrd/include/thrift/transport/TBufferTransports.h:726-737 | The two exchange contents, all but the maximum size |
| MemoryBuffer.MemoryBuffer.GetBuffer | 3thrd/include/thrift/transport/TBufferTransports.h:584-598 | The bytes of the queue, which stay |
| BridgeTransport.RequestsAreWrites | thrift_bridge.c:296-410 | Over every run of calls, with a processor that may answer each call differently, the requests of the successful flushes and what is still in `wBuf` are the bytes written, in order: a failed flush loses nothing, a successful one repeats nothing |
| BridgeTransport.ReadsArePieces | thrift_bridge.c:331-371 | Over every run, `rBuf` is the response of the processor to the last successful flush, and the reads since then returned consecutive pieces of it, up to `rBufPos`, which stays within it |
| BridgeTransport.VisibleExactly | thrift_bridge.c:155-156 | The processor sees the whole request exactly below 4 GiB; the size is cut to 32 bits |
| BridgeTransport.FlushAnswers | thrift_bridge.c:140-190 | A flush calls the processor of the service with all the bytes written, and the response is all that it writes |
| BridgeTransport.FlushFails | thrift_bridge.c:140-190 | It fails, and changes no buffer, exactly without an initialized core, a service of that name or a processor behind it, or when the processor declines, throws, or replies with 4 GiB or more |
| BridgeTransport.ReadsAndWrites | thrift_bridge.c:296-371 | A read gives the next bytes, as many as asked for or as there are; it fails exactly where something is asked for and nothing is left; a write appends |
| BridgeTransport.RunsAreDirect | thrift_bridge.c:296-410 | The runs of a service with a processor are those in which it is called with what was written since its last reply, and its reply is what is read |
| BridgeTransport.Gather | thrift_bridge.c:156-177 | The response is what the processor wrote, in order, in an output buffer that grows |
| BridgeTransport.ProcessGeneric | thrift_bridge.c:140-180 | The call as a whole: the processor of that name, in its own state, on the bytes of the request, or no response |
| BridgeTransport.Bridge.constructor | thrift_bridge.c:256-275 | Nothing written, nothing to read |
| BridgeTransport.Bridge.Write | thrift_bridge.c:296-328 | The bytes join `wBuf`; nothing else changes |
| BridgeTransport.Bridge.Read | thrift_bridge.c:332-371 | The next bytes of the response, or an exception without one or at its end; negative lengths are taken as huge |
| BridgeTransport.Bridge.Flush | thrift_bridge.c:374-410 | On success response and position are replaced and `wBuf` is empty; a failure changes none of them |
| BridgeTransport.Bridge.Perform | thrift_bridge.c:296-410 | Any run of calls on one object is a run of the specification |
| HttpTransport.BodyRoundTrip | 3thrd/include/thrift/transport/THttpTransport.cpp:76-143 | For every well-formed chunked body (section 7.1 of RFC 9112), with extensions and trailers, decoding gives the concatenated chunk data and stops exactly behind the final blank line |
| HttpTransport.ReadsChunk | 3thrd/include/thrift/transport/THttpTransport.cpp:108-122 | One chunk is read with whatever follows it left |
| HttpTransport.ReadsEnd | 3thrd/include/thrift/transport/THttpTransport.cpp:124-133 | The last chunk and its trailers are passed |
| HttpTransport.ReadsTrailers | 3thrd/include/thrift/transport/THttpTransport.cpp:124-133 | Trailer lines up to the blank one are passed |
| HttpTransport.ReadsSize | 3thrd/include/thrift/transport/THttpTransport.cpp:135-143 | The chunk size is read whatever extension follows |
| HttpTransport.FindsLine | 3thrd/include/thrift/transport/THttpTransport.cpp:169-188 | A line is found at its first line end |
| HttpTransport.FindInPrefix | 3thrd/include/thrift/transport/THttpTransport.cpp:169-188 | A line end found in what is buffered is the one found in the whole, so that readers may stop early |
| HttpPlain.ReadsChunked | 3thrd/include/thrift/transport/THttpTransport.cpp:76-143 | Pieces written as chunks, each with its size in hex on a line of its own and a line end behind it, then a size of zero, any trailer lines and a blank line, byte for byte, are decoded to the pieces put together |
| HttpPlain.HexDigits | 3thrd/include/thrift/transport/THttpTransport.cpp:135-143 | Hex digits are read in either case, and nothing else is one |
| HttpPlain.Scans | 3thrd/include/thrift/transport/THttpTransport.cpp:135-143 | White space, a sign and a hex prefix in front of a size are taken; sizes wrap to 32 bits, and beyond 64 bits stand for the largest |
| HttpPlain.NoSize | 3thrd/include/thrift/transport/THttpTransport.cpp:135-143 | A size that begins with anything else is zero |
| HttpPlain.FirstLineEnd | 3thrd/include/thrift/transport/THttpTransport.cpp:169-188 | A line ends at the first carriage return with a line feed behind it, and is not found behind a zero byte |
| HttpPlain.BreaksOff | 3thrd/include/thrift/transport/THttpTransport.cpp:108-122 | A body that breaks off in a size, in data or behind it is malformed |
| HttpReader.Reader.constructor | 3thrd/include/thrift/transport/THttpTransport.cpp:34-56 | The bounds and the terminating zero hold, nothing is read |
| HttpReader.Reader.Shift | 3thrd/include/thrift/transport/THttpTransport.cpp:190-201 | What is unread moves to the front; nothing is lost |
| HttpReader.Reader.Refill | 3thrd/include/thrift/transport/THttpTransport.cpp:203-222 | More bytes from below, in a buffer doubled when at most a quarter is free; the doubling leaves 32 bits exactly for the sizes given, and never with less than 1.5 GiB in the buffer; while the first 1.5 GiB hold no line end and come first, it leads on to that |
| HttpReader.Reader.ReadMore | 3thrd/include/thrift/transport/THttpTransport.cpp:215-222 | One read into the free part, and the terminating zero |
| HttpReader.Reader.Grow | 3thrd/include/thrift/transport/THttpTransport.cpp:203-214 | The buffer doubles and keeps what is unread |
| HttpReader.Reader.FindEol | 3thrd/include/thrift/transport/THttpTransport.cpp:169-174 | The search stops at the first zero byte, at the latest the terminating one |
| HttpReader.Reader.TakeLine | 3thrd/include/thrift/transport/THttpTransport.cpp:174-188 | The line leaves the buffer |
| HttpReader.Reader.ReadLine | 3thrd/include/thrift/transport/THttpTransport.cpp:169-188 | The first line of what is unread, however the reads below cut it up |
| HttpReader.Reader.GiveSome | 3thrd/include/thrift/transport/THttpTransport.cpp:145-167 | One round of copying into the read buffer |
| HttpReader.Reader.ReadContent | 3thrd/include/thrift/transport/THttpTransport.cpp:145-167 | Exactly `size` bytes are delivered across any number of refills |
| HttpReader.Reader.ReadChunkedFooters | 3thrd/include/thrift/transport/THttpTransport.cpp:124-133 | The lines up to the blank one are passed |
| HttpReader.Reader.ReadData | 3thrd/include/thrift/transport/THttpTransport.cpp:108-122 | The data of a chunk and the line behind it |
| HttpReader.Reader.ReadPiece | 3thrd/include/thrift/transport/THttpTransport.cpp:108-122 | What follows a size line |
| HttpReader.Reader.ReadChunked | 3thrd/include/thrift/transport/THttpTransport.cpp:108-122 | The next piece of the body as specified, under every fragmentation |
| HttpReader.Reader.ReadMoreData | 3thrd/include/thrift/transport/THttpTransport.cpp:86-106 | The next piece of the body joins the read buffer, after a refill when everything buffered was consumed, under every fragmentation |
| HttpReader.Reader.Fetch | 3thrd/include/thrift/transport/THttpTransport.cpp:64-70 | The next chunk into an emptied read buffer |
| HttpReader.Reader.Read | 3thrd/include/thrift/transport/THttpTransport.cpp:64-74 | The next bytes of the chunk; a read that returns nothing has stopped exactly behind the body; a well-formed piece is refused only for want of room, and only with 1.5 GiB in the line buffer and to come, and a byte more besides what follows the piece, or three at the end of the body; and it is refused whenever the reads below bring 1.5 GiB without a line end first |
| HttpReader.Reader.ReadBody | 3thrd/include/thrift/transport/THttpTransport.cpp:64-74 | Any run of reads, under every fragmentation, delivers consecutive pieces of a well-formed body; one that ends has delivered all of it and left what follows; none fails with less than 1.5 GiB and three bytes in the line buffer and to come, which is exact by `HttpOverflow.LargeFails` |
| HttpReader.Reader.ReadEnd | 3thrd/include/thrift/transport/THttpTransport.cpp:76-84 | What is left of the body is read, footers included, and what follows stays; it fails on a malformed body, on one of 1.5 GiB and three bytes or more for want of room, or from 4 GiB of content; and it fails whenever the reads below bring 1.5 GiB without a line end first |
| HttpOverflow.SmallDecodes | 3thrd/include/thrift/transport/THttpTransport.cpp:64-222 | Every well-formed chunked body that is, with what follows it, below 1.5 GiB and three bytes is decoded by reads of any sizes, under every fragmentation |
| HttpOverflow.LargeFails | 3thrd/include/thrift/transport/THttpTransport.cpp:64-222 | For every size from 1.5 GiB and three bytes on there is a well-formed body of that size and a fragmentation of it on which the first read fails, because the doubling of the line buffer leaves 32 bits |
| HttpOverflow.StallsOn | 3thrd/include/thrift/transport/THttpTransport.cpp:169-222 | So does any body, well-formed or not, without a line end in its first 1.5 GiB, on a transport that brings these first |
| HttpOverflow.ShortLinesFail | 3thrd/include/thrift/transport/THttpTransport.cpp:86-222 | There is a well-formed body of 1.5 GiB and five bytes, no line of which is longer than eight bytes, that fails on a transport each read of which brings one chunk: the buffer, always used up to its end, is never shifted to its front |
| NonblockingConnection.FramesOf | 3thrd/include/thrift/server/TNonblockingServer.cpp:421-578 | Whole frames and an incomplete rest determine the frames of a stream |
| NonblockingConnection.GrowthEnds | 3thrd/include/thrift/server/TNonblockingServer.cpp:749-762 | The 32-bit doubling of the read buffer ends if and only if the frame is of at most 2 GiB less four bytes, or so large that the four bytes added to its size wrap round |
| NonblockingConnection.DoublingStalls | 3thrd/include/thrift/server/TNonblockingServer.cpp:758-761 | Beyond 31 doublings the size is zero for ever |
| NonblockingConnection.Socket.Read | 3thrd/include/thrift/server/TNonblockingServer.cpp:502-515 | A read delivers any non-empty part of what was asked for, or end of file, retry or failure |
| NonblockingConnection.Socket.WritePartial | 3thrd/include/thrift/server/TNonblockingServer.cpp:551-560 | A write takes any part of its bytes, or fails |
| NonblockingConnection.TaskAnswersAll | 3thrd/include/thrift/server/TNonblockingServer.cpp:330-361 | A task answers every message in a frame, in order, when each call takes one message and asks for more |
| NonblockingConnection.CallsInTurn | 3thrd/include/thrift/server/TNonblockingServer.cpp:330-361 | A task ends with a call that throws or whose output does not fit, that does not ask for more, or that leaves no input, and otherwise calls again with the input that is left; the I/O thread calls once, and closes if that throws |
| NonblockingConnection.KeepsPrefix | 3thrd/include/thrift/server/TNonblockingServer.cpp:330-361 | The output keeps the longest run of written pieces for which there is room |
| NonblockingConnection.FramesInTurn | 3thrd/include/thrift/server/TNonblockingServer.cpp:421-538 | The frames of a stream, one at a time: an empty one, one above the maximum and one that breaks off end them |
| NonblockingConnection.Connection.constructor | 3thrd/include/thrift/server/TNonblockingServer.cpp:374-416 | The initial state |
| NonblockingConnection.Connection.Serve | 3thrd/include/thrift/server/TNonblockingServer.cpp:421-790 | Over any number of socket events and notifications, in any fragmentation, with tasks that finish, fail or are given up: the requests handed over are the frames of the bytes received, in order; the bytes sent are the start of the framed non-empty responses, and with the unsent rest exactly these while it is open; each response is what the processor made of its request, by one call in the I/O thread and by the loop of a task in a thread pool |
| NonblockingConnection.Connection.ValidHistory | 3thrd/include/thrift/server/TNonblockingServer.cpp:421-578 | In every legal state the requests are the frames received and what was sent is a prefix of the framed responses |
| NonblockingConnection.Connection.PartialHasNoFrame | 3thrd/include/thrift/server/TNonblockingServer.cpp:421-578 | What has been read of the current frame is never a frame already |
| NonblockingConnection.Connection.WorkSocket | 3thrd/include/thrift/server/TNonblockingServer.cpp:421-578 | One call, with further rounds while data is pending, takes legal states to legal ones: requests, responses and sent bytes only grow, and received and unread bytes together stay the same |
| NonblockingConnection.Connection.FramingEvent | 3thrd/include/thrift/server/TNonblockingServer.cpp:427-492 | Bytes of the size word, in any pieces |
| NonblockingConnection.Connection.TakeSize | 3thrd/include/thrift/server/TNonblockingServer.cpp:427-461 | Bytes of the size word are kept in `readWant_` until all four are there; then they are the word received, in whatever pieces |
| NonblockingConnection.Connection.GotSizeWord | 3thrd/include/thrift/server/TNonblockingServer.cpp:463-479 | A frame above the maximum closes, any other is awaited |
| NonblockingConnection.Connection.RecvEvent | 3thrd/include/thrift/server/TNonblockingServer.cpp:494-538 | Bytes of a frame, in any pieces; an empty frame closes the connection |
| NonblockingConnection.Connection.RecvBytes | 3thrd/include/thrift/server/TNonblockingServer.cpp:517-533 | The bytes received are appended to the buffer, and a complete frame is handed over |
| NonblockingConnection.Connection.SendEvent | 3thrd/include/thrift/server/TNonblockingServer.cpp:540-570 | Any part of the response is sent, the rest stays outstanding |
| NonblockingConnection.Connection.GotRequest | 3thrd/include/thrift/server/TNonblockingServer.cpp:600-676 | The payload is handed to the processor once, here or through the queue; the connection stays open if and only if the queue takes it or, here, the call returns and its output fits |
| NonblockingConnection.Connection.TaskDone | 3thrd/include/thrift/server/TNonblockingServer.cpp:682-713 | The response becomes outstanding with its size in front, or reading starts again if it is empty |
| NonblockingConnection.Connection.StartSending | 3thrd/include/thrift/server/TNonblockingServer.cpp:694-709 | The size goes to the place kept for it |
| NonblockingConnection.Connection.SentResult | 3thrd/include/thrift/server/TNonblockingServer.cpp:715-726 | Reading starts again; at every so many responses a read buffer above its limit is given back, and otherwise never |
| NonblockingConnection.Connection.BackToStart | 3thrd/include/thrift/server/TNonblockingServer.cpp:730-747 | The state between two exchanges |
| NonblockingConnection.Connection.GotFrameSize | 3thrd/include/thrift/server/TNonblockingServer.cpp:749-779 | Room for the frame, with the size word in front |
| NonblockingConnection.Connection.GrowReadBuffer | 3thrd/include/thrift/server/TNonblockingServer.cpp:754-770 | The doubling gives room for the frame and less than twice as much, and keeps the bytes |
| NonblockingConnection.Connection.MakeRoom | 3thrd/include/thrift/server/TNonblockingServer.cpp:754-773 | The size word is in place |
| NonblockingConnection.Connection.Close | 3thrd/include/thrift/server/TNonblockingServer.cpp:851-871 | Nothing more is handed over or sent |
| NonblockingConnection.Connection.Notified | 3thrd/include/thrift/server/TNonblockingServer.cpp:682-784 | The end of a task, or of a forced close |
| NonblockingConnection.Connection.RunTask | 3thrd/include/thrift/server/TNonblockingServer.cpp:330-361 | The loop of the task: the processor is called again while it returns, asks for more and input is left, and the output is all that these calls wrote, up to a write for which there is no room |
| NonblockingConnection.Connection.ForceClose | 3thrd/include/thrift/server/TNonblockingServer.cpp:292-299 | The connection closes at the notification, or at once if there is none |
| NonblockingConnection.Connection.Turn | 3thrd/include/thrift/server/TNonblockingServer.cpp:592-784 | A start, a finished or given up task, or a forced close takes legal states to legal ones and reads nothing |
| NonblockingPool.EveryRun | 3thrd/include/thrift/server/TNonblockingServer.cpp:912-953 | In every run connections in use and stacked ones are disjoint, `numTConnections_` is the sum of their numbers, a non-zero stack limit holds, and `numActiveProcessors_` is the number of connections with a counted request |
| NonblockingPool.StepKeeps | 3thrd/include/thrift/server/TNonblockingServer.cpp:618-687 | Every step, including the task, expiry, drain and exception paths, keeps disjointness, the sum, the stack limit and the processor count |
| NonblockingPool.CountIsTally | 3thrd/include/thrift/server/TNonblockingServer.cpp:1064-1081 | The counter is the number of requests accepted less those finished, over the history of the run |
| NonblockingPool.NotZero | 3thrd/include/thrift/server/TNonblockingServer.h:464-469 | The guard of the decrement never stops it: a counted request keeps the counter above zero |
| NonblockingPool.RequestComesBack | 3thrd/include/thrift/server/TNonblockingServer.cpp:618-687 | A request on its way through the task queue, or straight to the processor, is counted while it is in hand, and afterwards everything is as before |
| NonblockingPool.CutShort | 3thrd/include/thrift/server/TNonblockingServer.cpp:292-299 | Whatever cuts a request short takes its connection out of use and its count off |
| NonblockingPool.Reuses | 3thrd/include/thrift/server/TNonblockingServer.cpp:942-957 | The connection given back last is the next to be used again, unless the stack is at its limit; then it is gone |
| NonblockingPool.InTurn | 3thrd/include/thrift/server/TNonblockingServer.cpp:912-940 | New clients go to the I/O threads in turn, with a new connection only if none is stacked |
| NonblockingPool.Pool.constructor | 3thrd/include/thrift/server/TNonblockingServer.h:278-300 | An empty pool |
| NonblockingPool.Pool.CreateConnection | 3thrd/include/thrift/server/TNonblockingServer.cpp:912-940 | The connection comes from the stack or is new, and goes to the next I/O thread in turn |
| NonblockingPool.Pool.ReturnConnection | 3thrd/include/thrift/server/TNonblockingServer.cpp:942-957 | The connection leaves the set in use and is stacked or destroyed, as the limit says |
| NonblockingPool.Pool.IncrementActiveProcessors | 3thrd/include/thrift/server/TNonblockingServer.h:458-462 | When the request of a connection is counted the counter is the number of requests in hand, and the invariant is kept |
| NonblockingPool.Pool.DecrementActiveProcessors | 3thrd/include/thrift/server/TNonblockingServer.h:464-469 | When a request is over the counter is the number of the other requests in hand; the guard never stops it |
| NonblockingPool.Pool.CountInUse | 3thrd/include/thrift/server/TNonblockingServer.cpp:1041-1042 | The connections in use, computed as all less the stacked ones |
| ThreadManager.EveryRun | 3thrd/include/thrift/concurrency/ThreadManager.cpp:257-328 | In every run of the operations that hold the mutex each accepted task has one status; the pending ones are those in the queue, in the order of `add`; tasks leave its front in that order, each once; no task is with two workers; and a fixed positive limit is never exceeded |
| ThreadManager.RunKeeps | 3thrd/include/thrift/concurrency/ThreadManager.cpp:257-328 | The invariant, which also counts workers, is kept from any state that has it |
| ThreadManager.StepTasks | 3thrd/include/thrift/concurrency/ThreadManager.cpp:453-551 | Every step keeps the queue in order and exactly the pending tasks, what left its front in order, one worker to each executing task, and the limit |
| ThreadManager.StepWorkers | 3thrd/include/thrift/concurrency/ThreadManager.cpp:220-337 | Every step keeps `workerCount_` the number of admitted threads and its relation to `workerMaxCount_` while workers are added, removed, or neither |
| ThreadManager.RemovalBounds | 3thrd/include/thrift/concurrency/ThreadManager.cpp:411-445 | In every run `workerCount_` is never below `workerMaxCount_` while workers are removed, never above while they are added, and equal when no change is under way |
| ThreadManager.LoopWorkers | 3thrd/include/thrift/concurrency/ThreadManager.cpp:257-337 | A worker leaves the loop only when there are too many, and while joining only when the queue is empty |
| ThreadManager.BeginAdmits | 3thrd/include/thrift/concurrency/ThreadManager.cpp:250-256 | A worker that was started is always admitted |
| ThreadManager.TakesInOrder | 3thrd/include/thrift/concurrency/ThreadManager.cpp:276-290 | The task a worker runs was the first in the queue that had not expired: it has no time to expire at or the clock is not past it, and the clock is past those of all tasks in front of it |
| ThreadManager.WorkerTurn | 3thrd/include/thrift/concurrency/ThreadManager.cpp:257-328 | What a worker does with the first task, with the clock spelled out: it runs one that the clock is not past, and hands one that it is past to the callback, or drops it; with more workers than wanted it leaves, with nothing to do it waits |
| ThreadManager.RemovesLate | 3thrd/include/thrift/concurrency/ThreadManager.cpp:527-551 | `removeExpired` keeps exactly the tasks that the clock is not past, in order, and counts the others |
| ThreadManager.RemovesFirstLate | 3thrd/include/thrift/concurrency/ThreadManager.cpp:527-551 | For just one it takes the first task that the clock is past |
| ThreadManager.AddsTask | 3thrd/include/thrift/concurrency/ThreadManager.cpp:453-488 | A task of that runnable and expiry joins the queue as pending when there is room, or when the first task that the clock is past can be dropped for it; otherwise the call waits |
| ThreadManager.RemovesTask | 3thrd/include/thrift/concurrency/ThreadManager.cpp:491-525 | `remove` takes out the first task with that runnable, `removeNextPending` the first of all, and every other task keeps its place and status |
| ThreadManager.ChangeReturns | 3thrd/include/thrift/concurrency/ThreadManager.cpp:345-445 | Whatever happens meanwhile, `addWorker` returns with as many more workers as it was asked for, `removeWorker` with as many fewer, and `stop` with none |
| ThreadManager.RunOnward | 3thrd/include/thrift/concurrency/ThreadManager.cpp:257-328 | A status only moves on: no task runs twice, after it was removed, or after it expired |
| ThreadManager.StartsOnce | 3thrd/include/thrift/concurrency/ThreadManager.cpp:257-328 | Over the history of any run a task is started exactly once if it has come to be executing or complete, and not at all otherwise; so not at all once it was started, removed or found expired |
| ThreadManager.StopFinishes | 3thrd/include/thrift/concurrency/ThreadManager.cpp:389-404 | After `stop` with no blocked `add`, and with a worker if there is a task and no second call: when the last worker has gone the queue is empty, and when `stop` returns every task was completed, expired or removed |
| ThreadManager.StopSettles | 3thrd/include/thrift/concurrency/ThreadManager.cpp:389-404 | For every state in which `stop` can be called: every run after it with no second call that stops leaves an empty queue and no task pending, if and only if no `add` is blocked and there is a worker or nothing to do |
| ThreadManager.SecondStopSettles | 3thrd/include/thrift/concurrency/ThreadManager.cpp:389-404 | For every state in which `stop` can be called: every run after it, also with further calls of `stop`, leaves nothing behind once the first has returned, if and only if no `add` is blocked and no task is queued |
| ThreadManager.CutShort | 3thrd/include/thrift/concurrency/ThreadManager.cpp:389-404 | From every state with a queued task there is a run with a second call after which the first returns with that task pending |
| ThreadManager.LeavesTask | 3thrd/include/thrift/concurrency/ThreadManager.cpp:411-445 | In each of the other states there is a run that leaves a task behind: the workers drain away, `stop` returns, and the blocked call goes on |
| ThreadManager.Drains | 3thrd/include/thrift/concurrency/ThreadManager.cpp:257-337 | From every joining state there is a run in which all workers leave, whatever they were doing |
| ThreadManager.BlockedAddOutlivesStop | 3thrd/include/thrift/concurrency/ThreadManager.cpp:453-488 | Such a state is reached from the start: some run ends stopped with a task left behind, although there was a worker |
| ThreadManager.SecondStop | 3thrd/include/thrift/concurrency/ThreadManager.cpp:389-404 | In every run after a second call, as long as no worker is added, all that is queued stays queued and pending, in its place: no worker takes it and nobody removes it |
| ThreadManager.UnlockedScan | 3thrd/include/thrift/concurrency/ThreadManager.cpp:129-131 | `removeExpiredTasks` scans without the mutex. Whatever happens between the test of the task at a position and the removal of what is there: it removes the task that it tested if and only if this and all in front of it are still pending; otherwise a later one, or there is none |
| ThreadManager.ScanRemovesAnother | 3thrd/include/thrift/concurrency/ThreadManager.cpp:129-131 | For instance, a worker takes the expired task that was tested, and the scan removes another one, which has not expired and is never run |
| ThreadManagerImpl.Impl.constructor | 3thrd/include/thrift/concurrency/ThreadManager.cpp:56-65 | The initial state of the state machine |
| ThreadManagerImpl.Impl.WorkerLoop | 3thrd/include/thrift/concurrency/ThreadManager.cpp:257-300 | The loop under the mutex, with its expiry of tasks, is the step of the state machine |
| ThreadManagerImpl.Impl.WorkerBegin | 3thrd/include/thrift/concurrency/ThreadManager.cpp:250-256 | The admission of a worker, in the fields, is the step of the state machine |
| ThreadManagerImpl.Impl.WorkerFinish | 3thrd/include/thrift/concurrency/ThreadManager.cpp:304-328 | The return from a task or from the callback, in the fields, is the step of the state machine |
| ThreadManagerImpl.Impl.RemoveExpiredTasks | 3thrd/include/thrift/concurrency/ThreadManager.cpp:527-551 | The loop over the queue, under the mutex, removes the expired tasks, or the first, as the state machine says |
| ThreadManagerImpl.Impl.Add | 3thrd/include/thrift/concurrency/ThreadManager.cpp:453-488 | `add` up to its wait is the step of the state machine: refused when not started, waiting exactly when the queue is full after an expired task was removed |
| ThreadManagerImpl.Impl.AddWakes | 3thrd/include/thrift/concurrency/ThreadManager.cpp:467-488 | A waiting `add` goes on without looking at the state again |
| ThreadManagerImpl.Impl.Remove | 3thrd/include/thrift/concurrency/ThreadManager.cpp:491-507 | The first pending task with that runnable goes |
| ThreadManagerImpl.Impl.TakeNextPending | 3thrd/include/thrift/concurrency/ThreadManager.cpp:509-525 | The first pending task goes to the caller |
| TimerManager.EveryRun | 3thrd/include/thrift/concurrency/TimerManager.cpp:79-139 | In every run: `taskCount_` is the size of `taskMap_` while started; the entries are exactly the pending timers; no timer runs before its deadline; a sleeping dispatcher that was not notified wakes at most 1 ms after the earliest deadline |
| TimerManager.RunsNotBefore | 3thrd/include/thrift/concurrency/TimerManager.cpp:245-279 | In every run after `add` of a runnable with a deadline, the timer is there with that runnable, and has neither been run nor been taken to run before that deadline |
| TimerManager.AddsTimer | 3thrd/include/thrift/concurrency/TimerManager.cpp:245-279 | `add` is refused for a deadline before the clock it reads; otherwise the new timer stands behind all that are not later, and a sleeping dispatcher is notified if it is now the first |
| TimerManager.Dispatches | 3thrd/include/thrift/concurrency/TimerManager.cpp:91-139 | The dispatcher takes to run exactly the pending timers whose deadline the clock has reached, all of them; if there is none it sleeps until within a millisecond of the earliest |
| TimerManager.RemovesTimer | 3thrd/include/thrift/concurrency/TimerManager.cpp:296-314 | `remove` of a handle marks that timer, which must be pending, and no other |
| TimerManager.RemovesRunnable | 3thrd/include/thrift/concurrency/TimerManager.cpp:276-294 | `remove` of a runnable leaves exactly the entries of other runnables, in order, and counts the rest off |
| TimerManager.RunKeeps | 3thrd/include/thrift/concurrency/TimerManager.cpp:79-139 | The invariant on map, batch, sleep and states is kept over runs from any state that has it |
| TimerManager.StepKeeps | 3thrd/include/thrift/concurrency/TimerManager.cpp:245-314 | Every step keeps the map ordered and exactly the pending timers, the batch due, the sleep short enough and the count right |
| TimerManager.SectionKeeps | 3thrd/include/thrift/concurrency/TimerManager.cpp:91-122 | A section of the dispatcher leaves nothing in the map that is due |
| TimerManager.WakesInTime | 3thrd/include/thrift/concurrency/TimerManager.cpp:93-109 | The wait computed in whole milliseconds ends after now and at most 1 ms after the deadline |
| TimerManager.TakeMap | 3thrd/include/thrift/concurrency/TimerManager.cpp:111-122 | All due entries leave the map together and it holds exactly the pending ones again |
| TimerManager.TakeBatch | 3thrd/include/thrift/concurrency/TimerManager.cpp:111-122 | The timers taken were due, and they are exactly those that execute |
| TimerManager.RunBatch | 3thrd/include/thrift/concurrency/TimerManager.cpp:125-127 | Running one timer of the batch, in whatever order, leaves exactly the others executing |
| TimerManager.RunOnward | 3thrd/include/thrift/concurrency/TimerManager.cpp:79-314 | A status only moves on: no timer runs twice, or after it was removed |
| TimerManager.RunsOnce | 3thrd/include/thrift/concurrency/TimerManager.cpp:79-139 | Over the history of any run a timer is executed exactly once if it has come to be complete, and not at all otherwise; so not at all once it was executed, removed or dropped |
| TimerManager.RemovedStays | 3thrd/include/thrift/concurrency/TimerManager.cpp:296-314 | After a successful `remove` of a timer it never runs, in any run |
| TimerManager.RemoveAllRemoves | 3thrd/include/thrift/concurrency/TimerManager.cpp:276-294 | `remove` of a runnable removes each of its pending timers |
| TimerManager.Uncancellable | 3thrd/include/thrift/concurrency/TimerManager.cpp:296-314 | A timer can be removed if and only if it is pending |
| TimerManagerImpl.Impl.constructor | 3thrd/include/thrift/concurrency/TimerManager.cpp:151-156 | The initial state of the state machine |
| TimerManagerImpl.Impl.DispatcherSection | 3thrd/include/thrift/concurrency/TimerManager.cpp:91-123 | A section of the dispatcher, in the fields, is the step of the state machine |
| TimerManagerImpl.Impl.TakeDue | 3thrd/include/thrift/concurrency/TimerManager.cpp:111-122 | The loop over the due entries moves them to the set of expired tasks and counts them off |
| TimerManagerImpl.Impl.RunTimer | 3thrd/include/thrift/concurrency/TimerManager.cpp:125-127 | A timer that is run is due and was taken to be run, and no run from there executes it again |
| TimerManagerImpl.Impl.Add | 3thrd/include/thrift/concurrency/TimerManager.cpp:245-274 | Refused before now or when not started; otherwise the step of the state machine, the dispatcher being told when it would sleep too long |
| TimerManagerImpl.Impl.RemoveRunnable | 3thrd/include/thrift/concurrency/TimerManager.cpp:276-294 | The loop removes what has the runnable; an error exactly when nothing has it |
| TimerManagerImpl.Impl.RemoveTimer | 3thrd/include/thrift/concurrency/TimerManager.cpp:296-314 | Succeeds if and only if started and the timer is pending; otherwise which error |
| TimerManagerImpl.Impl.Stop | 3thrd/include/thrift/concurrency/TimerManager.cpp:202-225 | The first section of `stop` is the step of the state machine; only one caller is to clean up |

## Left out

- TFileTransport: corruption recovery, seeking, truncation on reopening, I/O errors and their retries, the processor called for each event and the chunk-wise loop of `TFileProcessor`, and the endless wait for more data at the end of a file. Where the reader would recover, the model stops with the position of the corruption.
- FileQueue.EveryRunConserves: its runs end where the process does, with the exception that a negative padding throws in the writer thread; `FileLog.WriterStopsByAny` says for which configurations there are such runs.
- FileQueue.RunInv: does not say that a waiting thread is ever woken; the runs include all that the waits and wake-ups allow, and more.
- JSON: doubles, UUIDs, surrogate escapes, text that begins a number without ending it (stream extraction leaves its value open), strings of 4 GiB and more, and the size budgets asked of the transport. The model fails where the source would go on with one of these.
- JsonSkip.SkipsText: does not speak of trees with doubles, for the same reason; there is no case for UUIDs in `skip` itself.
- THeaderTransport: transforms (the library is not part of the source), other protocols' `getProtocolId`, `resetProtocol`, and string lengths on malformed input that leave the header section, which are an error in the model.
- HeaderTransport.Header.Assemble: the bytes are stored in the order of the source, but a store outside the buffer is an error of the model and not a change of other memory.
- TBufferedTransport, TFramedTransport, TMemoryBuffer: `borrow` on the first two, `readAppendToString`, message-size budgets, failed allocations, and exceptions thrown by the transport below.
- HTTP: parsing of the header lines, the branch of `readMoreData` for bodies with a content length, and what client and server write.
- HttpReader.Reader.ReadBody: what the source does after its doubling has wrapped is an error of the model and not a change of other memory. The condition is exact by size; of the larger bodies many are decoded, depending on how the reads fall.
- Bridge: plugin loading, the registry of processors, reference counting and argument parsing of PHP, the protocols a processor speaks over the two buffers, and failed allocations. What a processor writes may depend in any way on the request and on the number of the call, which covers a service with a state, also one that other objects call in between.
- Nonblocking server: header-transport mode, giving back large write buffers, overload hysteresis, accepting and listening, notification pipes, and libevent. Requests and notifications arrive one at a time, as the I/O thread takes them.
- NonblockingConnection.Connection.RunTask: each call of the processor is taken to read at least one byte of the input, as every protocol does, since otherwise the loop need not end; event handlers around the calls are left out.
- NonblockingConnection.Connection.Serve: says nothing of how long a connection waits, and its task either runs or is given up.
- ThreadManager: `removeExpiredTasks` called from outside is not among the steps of the runs; `UnlockedScan` takes its iterator for a position, where the source has an iterator that another thread may have made invalid.
- ThreadManager: calls that add or remove workers are taken one after the other, as its users make them; sleeping, waking and joining of threads, time limits of `add`, `canSleep`, and thread factories are left out. That a waiting thread is woken is not proved; that nothing goes wrong whenever one wakes is.
- ThreadManager.StopFinishes: says what holds when `stop` gets there, and not that it does.
- TimerManager: that a notification arrives, and exceptions thrown by a timer; a section of the dispatcher takes no time between reading the clock and waiting.
- The binary and compact protocols, whose bodies are not part of the source; concurrent clients, whose loop is generated code; sockets, SSL, pipes, Qt, factories, decorators and logging, which forward calls.
