# A verified model of the server framework's algorithmic cores

The framework is a set of C++ modules for network servers. This project models the five parts of
it that are algorithms rather than wiring, and proves what they are for:

* **the CRC-32 engine** (`Crc32`, `CrcBurst`, `FastCrc32`): one bitwise reference and seven faster
  forms, proved equal on every input; the checksum composes over any chunking and detects every
  error burst of at most 32 bits;
* **the message codec and the server's framing loop** (`MsgCodec`, `Framing`, `ProtoLogic`):
  length-prefixed frames with a checksum, encoded in place, decoded from a byte stream cut at
  arbitrary points, with a time-out record for every connection that waits for the rest of a frame;
* **the streaming multipart parser** (`Multipart`, `MultipartParser`, `MultipartChunks`,
  `MultipartValues`, `MultipartSearch`, `MultipartRoundTrip`, `MultipartGrammar`,
  `MultipartLanguage`, `MultipartSession`): a resumable state machine with a lookbehind buffer, following the grammar of section 5.1.1 of RFC 2046;
* **the cross-thread notification protocol** (`ThreadProtocol`, `ThreadCenter`): producers, a task
  queue, a bounded pipe of one-byte tokens, a pending list retried by a timer, one consumer;
* **the multi-index tables** (`SeqNums`, `RecordTimeout`, `TransCenter`, `ConnCenter`,
  `NormalConn`): id allocation, time-out records, transactions, connections and send lists, whose
  several maps must agree after every operation.

Code that computes by loops over mutable state is modelled by methods and classes. Each is tied by
its postcondition to a function on values (`Checksum`, `Loop`, `Execute`, `WriteList`, `Apply`,
`Opened`, ...), and the theorems are about those functions. System calls, clocks and handlers are
parameters: `now`, the outcome of a write, whether the pipe takes a byte, whether a socket
initialises. `NormalConn` takes its write outcomes as a sequence, `ThreadProtocol` takes them as
part of each step, and a theorem for every such sequence covers every behaviour of the outside.

What the proofs found out about the code:

* Header names reported by the multipart parser depend on how the input is cut exactly when a
  header line breaks off inside a name (`NamesIndependentIff`). Notifications, part data, header
  values, final state and consumed count never do (`SameNotificationsAndBodies`,
  `ValuesIndependent`).
* The framing loop reads a length field also from a remainder of 1 to 3 bytes, completed by whatever
  lies behind the buffer. If that length is out of range the connection is closed (`ShortCut`):
  a read that ends three bytes into a frame always sees a zero byte there, and closes the connection
  if and only if the frame's length is below 256 (`ThirdByteCut`). Framing is exact if and only if
  no read is refused in this way (`FramingAnyCut`).
* A frame with a wrong checksum is answered but stays at the front of the connection's buffer, so
  nothing behind it is ever delivered: the messages of a stream all arrive if and only if no read is
  refused and checksums are off or every stored checksum is right (`DeliversAllIffIntact`), and every
  change of at most four consecutive bytes behind the checksum field has this effect
  (`ChangedFrameBlocks`).
* The length field holds 32 bits: a message is recognised by the receiver if and only if it is
  within the configured limit and its length fits (`RecognisedIffInLimit`).
* `RecordTimeoutMgr::OnTimer` has a `continue` that does not advance. The loop hangs exactly when it
  reaches an entry without a record (`ScanEndsIffNoOrphan`); the agreement of the two maps, kept by
  every operation, rules that out (`AgreeHasNoOrphan`).
* An empty item queued by `Send` makes the write callback loop for ever while writes succeed
  (`SpinsIffEmpty`), and it and everything behind it stay queued whatever happens
  (`EmptyItemBlocks`).
* Creating a connection on a socket that is still in the table breaks the correspondence of the
  indexes (`OpenedCorresponds`); closing a connection whose socket is not in the table breaks the
  online count (`OnClientClosed`). The callers in the source do neither: they destroy a leftover
  first (tcp_threads/src/thread_sink.cpp:534-540), and look the connection up before they close it
  (tcp_threads/src/normal_conn.cpp:60, tcp_threads/src/scheduler.cpp:91).
* An exit notification can overtake a task whose own notification found the pipe full, and the task
  is then never executed (`ExitOvertakesTask`). Everything queued is executed if and only if it
  comes up, or a first stop drains it, before an exit in the order of hand, pipe and pending list
  (`EveryMaximalRunExecutesAll`).

## Model

| member | source | states |
|---|---|---|
| `Crc32.StepByMask` | base/src/fast_crc32.cpp:84-85 | the branch-free mask-and-xor step is the conditional polynomial feedback step, for every register |
| `Crc32.StepByProduct` | base/src/fast_crc32.cpp:433-440 | so is the multiply form of the table generator |
| `Crc32.BitsLinear` | base/src/fast_crc32.cpp:72-95 | any number of steps is linear over xor |
| `Crc32.BitsInjective` | base/src/fast_crc32.cpp:72-95 | any number of steps is injective, because the polynomial's top bit is set |
| `Crc32.Bits4Split` | base/src/fast_crc32.cpp:98-118 | four steps are one look-up of the low nibble xored with the shifted register |
| `Crc32.Bits8Split` | base/src/fast_crc32.cpp:121-132 | eight steps are one look-up of the low byte xored with the shifted register |
| `Crc32.LookupIsBits` | base/src/fast_crc32.cpp:433-445 | row s of the table, as generated by the recurrence, is 8(s+1) one-bit steps of its index |
| `Crc32.WordLookup` | base/src/fast_crc32.cpp:135-168 | four look-ups in consecutive rows replace 32 + 8k steps of a whole word |
| `Crc32.AbsorbWord` | base/src/fast_crc32.cpp:135-168 | xoring up to four little-endian bytes in at once and stepping equals feeding them one by one |
| `Crc32.ChecksumConcat` | base/src/fast_crc32.cpp:271-340 | crc(a ++ b, p) = crc(b, crc(a, p)) for all a, b, p |
| `FastCrc32.EightBits` | base/src/fast_crc32.cpp:81-85 | the inner loop performs exactly eight reference steps |
| `FastCrc32.Bitwise` | base/src/fast_crc32.cpp:72-95 | the bitwise loop computes the reference checksum continued from the previous one |
| `FastCrc32.Lookup16IsBits` | base/src/fast_crc32.cpp:103-108 | each of the sixteen literals is what four steps make of its index |
| `FastCrc32.TwoNibbles` | base/src/fast_crc32.cpp:98-118 | two half-byte rounds are eight steps with the byte xored in |
| `FastCrc32.HalfByte` | base/src/fast_crc32.cpp:98-118 | the half-byte form returns the reference checksum on every input |
| `FastCrc32.ByteStepIsBits` | base/src/fast_crc32.cpp:121-132 | one table round is eight steps with the byte xored in |
| `FastCrc32.TailBytes` | base/src/fast_crc32.cpp:332-337 | the tail loop continues the reference run to the end of the data |
| `FastCrc32.OneByte` | base/src/fast_crc32.cpp:121-132 | the one-byte form returns the reference checksum on every input |
| `FastCrc32.SliceBy4` | base/src/fast_crc32.cpp:135-168 | slicing-by-4 returns the reference checksum on every input |
| `FastCrc32.EightBytesStep` | base/src/fast_crc32.cpp:191-200 | one round of eight look-ups advances the reference run by exactly eight bytes |
| `FastCrc32.SliceBy8` | base/src/fast_crc32.cpp:171-214 | slicing-by-8 returns the reference checksum on every input |
| `FastCrc32.SliceBy4x8` | base/src/fast_crc32.cpp:217-268 | the four-times unrolled form returns the reference checksum on every input |
| `FastCrc32.SixteenBytesStep` | base/src/fast_crc32.cpp:306-325 | one round of sixteen look-ups advances the reference run by exactly sixteen bytes |
| `FastCrc32.SliceBy16` | base/src/fast_crc32.cpp:271-340 | slicing-by-16 returns the reference checksum on every input |
| `FastCrc32.SliceBy16Prefetch` | base/src/fast_crc32.cpp:343-417 | so does the prefetching form, for every look-ahead |
| `FastCrc32.FileChecksum` | base/src/fast_crc32.cpp:1016-1044 | the file's checksum depends on its bytes only, not on how much each fread returns; 0 when it cannot be opened |
| `FastCrc32.CheckValue` | base/src/fast_crc32.cpp:50 | the checksum of "123456789" is 0xCBF43926, the check value of the CRC of section 8 of RFC 1952 |
| `CrcBurst.WindowInjective` | base/src/fast_crc32.cpp:84-85 | two different windows of at most 32 bits never lead one register to the same value |
| `CrcBurst.RunIsBitRun` | base/src/fast_crc32.cpp:72-95 | the byte-wise run is the run over the message bits, least significant first |
| `CrcBurst.BurstDetected` | base/src/fast_crc32.cpp:72-95 | every non-empty change within 32 consecutive bits, at any bit offset of a message of any length, changes the checksum |
| `MsgCodec.GetPutLen` | proto_msg_codec/inc/proto_msg_codec.h:32-52 | the receiver reads the length modulo 2^32 |
| `MsgCodec.FrameBytes` | proto_msg_codec/inc/proto_msg_codec.h:87-112 | what stands at every place of a frame, as numbers: bytes 0-3 the length modulo 2^32, 4-7 the checksum field, 8-11 the passback, 12-15 the message id, each with its most significant byte first, then the body |
| `MsgCodec.IsWholeBytes` | proto_msg_codec/inc/proto_msg_codec.h:32-52 | the first decision from the first four bytes as a number n: refused if and only if n is below 12 or above 12 plus the limit, incomplete if and only if fewer than 4 + n bytes are there |
| `MsgCodec.DecodeBytes` | proto_msg_codec/inc/proto_msg_codec.h:54-85 | passback, message id and body from the given bytes as numbers; a mismatch if and only if checksums are on and the first four bytes are not the checksum of the rest |
| `MsgCodec.DecodeFrameWith` | proto_msg_codec/inc/proto_msg_codec.h:54-85 | a frame is decoded to its message whatever its checksum field holds, except with checksums on and a field that is not the checksum of the payload |
| `MsgCodec.DecodeEncode` | proto_msg_codec/inc/proto_msg_codec.h:54-112 | decode(encode(m)) = m for every message, checksums on or off |
| `MsgCodec.EncodeDecode` | proto_msg_codec/inc/proto_msg_codec.h:54-112 | encode(decode(f)) = f, if and only if checksums are on or the checksum field is zero; the covered bytes always come back |
| `MsgCodec.WholeFrame` | proto_msg_codec/inc/proto_msg_codec.h:32-52 | in front of any continuation and with any checksum field, an in-limit frame is recognised as soon as, and only when, all of it is there |
| `MsgCodec.RecognisedIffInLimit` | proto_msg_codec/inc/proto_msg_codec.h:32-52 | a frame is recognised with its true length if and only if it is within the limit and its length fits 32 bits |
| `MsgCodec.BurstRejected` | proto_msg_codec/inc/proto_msg_codec.h:59-69 | with checksums on, every change of the covered bytes within 32 consecutive bits is rejected |
| `MsgCodec.FourByteChangeRejected` | proto_msg_codec/inc/proto_msg_codec.h:59-69 | in particular every non-empty change within four consecutive bytes after the checksum field, for every message length |
| `MsgCodec.StoreBytes` | proto_msg_codec/inc/proto_msg_codec.h:87-112 | a field store changes its own bytes and no other |
| `MsgCodec.EncodeMsg` | proto_msg_codec/inc/proto_msg_codec.h:87-112 | the caller's buffer afterwards, byte by byte as numbers with their most significant byte first, checksum included; a null body leaves the bytes already there as the body; everything behind the frame is untouched |
| `MsgCodec.StoreFrame` | proto_msg_codec/inc/proto_msg_codec.h:87-112 | the stores in the order of the source leave exactly the frame and then the old contents |
| `Framing.LoopMore` | proto_tcp_threads/src/tcp_logic/proto_logic.cpp:230-299 | for arbitrary bytes: after more bytes the loop goes on from what it had left, and an invalid length stays where it is |
| `Framing.ReceiveIsLoop` | proto_tcp_threads/src/tcp_logic/proto_logic.cpp:230-299 | for arbitrary bytes, every cut into reads and whatever lies behind the buffer at each, receiving is one run of the loop over all the reads up to the first refused short look |
| `Framing.CutsDoNotMatter` | proto_tcp_threads/src/tcp_logic/proto_logic.cpp:230-299 | for arbitrary bytes, invalid lengths and wrong checksums included, two cuts deliver, keep and end alike unless a short look is refused |
| `Framing.LoopPastFrame` | proto_tcp_threads/src/tcp_logic/proto_logic.cpp:234-299 | a whole frame in front is delivered and the loop goes on behind it as on a fresh buffer, or, if its stored checksum is wrong, stays with everything behind it |
| `Framing.LoopInFrame` | proto_tcp_threads/src/tcp_logic/proto_logic.cpp:240-261 | part of a frame in front is kept untouched; the loop waits, or looks at too few bytes if it has 1 to 3 |
| `Framing.LoopOnStream` | proto_tcp_threads/src/tcp_logic/proto_logic.cpp:230-299 | on the first n bytes of any stream of in-limit frames, right or wrong checksums, the loop delivers the complete frames before the first wrong one and keeps everything behind them |
| `Framing.FramingAnyCut` | proto_tcp_threads/src/tcp_logic/proto_logic.cpp:230-299 | for every stream of in-limit frames, every cut into reads and whatever lies behind the buffer at each: exactly the messages complete before the first wrong checksum, in order, with the rest kept, if and only if no read is refused; otherwise the connection is closed with the messages complete up to the refused read |
| `Framing.DeliverableExactly` | proto_tcp_threads/src/tcp_logic/proto_logic.cpp:230-299 | which messages those are: right checksums, all there, up to a frame that is not all there or has a wrong checksum |
| `Framing.DeliversAllIffIntact` | proto_tcp_threads/src/tcp_logic/proto_logic.cpp:230-299 | when the reads carry the whole stream, all messages are delivered if and only if no read is refused and checksums are off or every stored checksum is that of its payload; unless a read is refused, exactly those before the first wrong one |
| `Framing.FramingComplete` | proto_tcp_threads/src/tcp_logic/proto_logic.cpp:230-299 | what the encoder sends arrives completely, in order, with nothing left over, checksums on or off and whatever lies behind the buffer, if no read ends 1 to 3 bytes into a frame |
| `Framing.ShortCut` | proto_msg_codec/inc/proto_msg_codec.h:36-41 | a frame cut after 1 to 3 bytes: the connection is closed if and only if the length that the bytes behind the buffer complete is out of range |
| `Framing.ThirdByteCut` | proto_msg_codec/inc/proto_msg_codec.h:36-41 | the string ends in a zero byte, so a frame cut after its third byte closes the connection if and only if its length is below 256 |
| `Framing.ThirdByteRefused` | proto_msg_codec/inc/proto_msg_codec.h:36-41 | the same inside a stream: a read that ends three bytes into a frame is refused if and only if that frame is shorter than 256 |
| `Framing.CorruptFrameBlocks` | proto_tcp_threads/src/tcp_logic/proto_logic.cpp:269-276 | a frame answered with a mismatch is answered again after the next read, whatever it brings |
| `Framing.CorruptFrameBlocksForever` | proto_tcp_threads/src/tcp_logic/proto_logic.cpp:269-276 | and no later sequence of reads ever delivers a message; the buffer only grows |
| `Framing.ChangedFrameBlocks` | proto_tcp_threads/src/tcp_logic/proto_logic.cpp:269-276 | with checksums on, every in-limit frame with a non-empty change within four consecutive bytes behind its checksum field blocks its connection in this way, whatever is queued behind it and read later |
| `ProtoLogic.LoopRest` | proto_tcp_threads/src/tcp_logic/proto_logic.cpp:240-298 | the loop ends waiting, or looking at too few bytes, if and only if what it leaves starts with an incomplete frame or part of a length field |
| `ProtoLogic.SettledRest` | proto_tcp_threads/src/tcp_logic/proto_logic.cpp:240-261 | after a read the loop waits if and only if the buffer it leaves is incomplete, and closes the connection if and only if it met an invalid length or a short look was refused |
| `ProtoLogic.DoneIsConsistent` | proto_tcp_threads/src/tcp_logic/proto_logic.cpp:240-298 | after any outcome of the loop, records and incomplete buffers correspond again |
| `ProtoLogic.ProtoLogic.OnClientClosed` | proto_tcp_threads/src/tcp_logic/proto_logic.cpp:192-216 | clears the buffer and the record, keeping the correspondence, also inside an expiry batch |
| `ProtoLogic.ProtoLogic.OnRecvClientData` | proto_tcp_threads/src/tcp_logic/proto_logic.cpp:218-300 | for every non-empty read: deliveries, buffer, answers and records afterwards; a record of the time of this read and the configured life if the loop waits, none otherwise, all other connections untouched; a connection has a record exactly when its buffer is incomplete |
| `ProtoLogic.ProtoLogic.ReceiveStep` | proto_tcp_threads/src/tcp_logic/proto_logic.cpp:234-299 | one iteration delivers one message from the front, or ends the loop with the outcome of the specification, time and life of the record included |
| `ProtoLogic.ProtoLogic.ReceiveAll` | proto_tcp_threads/src/tcp_logic/proto_logic.cpp:218-300 | after any sequence of reads, with whatever lies behind the buffer at each, the object has delivered and kept what the framing loop makes of them; a refused read closes the connection |
| `ProtoLogic.ProtoLogic.ReceiveStream` | proto_tcp_threads/src/tcp_logic/proto_logic.cpp:218-300 | a new connection that receives a stream, cut in any way: the handlers get exactly the messages before the first wrong checksum and the rest is kept, unless a read is refused; then they get those complete up to it and the connection is gone |
| `ProtoLogic.ProtoLogic.Refuse` | proto_tcp_threads/src/tcp_logic/proto_logic.cpp:242-256 | an invalid length is answered, and the connection loses its buffer and its record |
| `ProtoLogic.ProtoLogic.OnPartMsgTimer` | proto_tcp_threads/src/tcp_logic/part_msg_mgr.cpp:18-22 | an expiry batch closes a connection if and only if it has a record whose upsert time plus life is not after now, and leaves the others unchanged |
| `ProtoLogic.ProtoLogic.ReceiveThenTimer` | proto_tcp_threads/src/tcp_logic/proto_logic.cpp:218-300 | a connection left waiting by a read is closed by a later timer if and only if that read is at least the configured life ago |
| `Multipart.StepValid` | web_threads/src/tcp_logic/multipart_parser.c:103-289 | every pass through the switch keeps the lookbehind within bounds and equal to CR LF plus the matched prefix, and lowers the rank when it does not advance |
| `Multipart.Loop` | web_threads/src/tcp_logic/multipart_parser.c:103-292 | the loop ends although it steps back, in a valid state, having consumed no more than the chunk |
| `MultipartLanguage.RefusedBytes` | web_threads/src/tcp_logic/multipart_parser.c:106-286 | in every state exactly which byte values stop a call, given as numbers; in a header name all but CR, ':', '-' and letters |
| `MultipartLanguage.AcceptsExactly` | web_threads/src/tcp_logic/multipart_parser.c:97-292 | for every input and cut, a new parser ends in s_end if and only if the input is boundary CR LF, then parts of header lines, a last line of letters and hyphens, data up to the first CR LF boundary, then CR LF and the next part or -- and anything |
| `MultipartLanguage.WholeBody` | web_threads/src/tcp_logic/multipart_parser.c:97-292 | one body given byte by byte, cut in any way, and exactly what is reported of it |
| `MultipartParser.MultipartParser.constructor` | web_threads/src/tcp_logic/multipart_parser.c:66-83 | a fresh parser is valid, in its start state, with an empty trace |
| `MultipartParser.MultipartParser.BoundaryByte` | web_threads/src/tcp_logic/multipart_parser.c:110-134 | the object's state and trace after one byte of the opening boundary line |
| `MultipartParser.MultipartParser.FieldByte` | web_threads/src/tcp_logic/multipart_parser.c:141-162 | the same for one byte of a header name |
| `MultipartParser.MultipartParser.ValueByte` | web_threads/src/tcp_logic/multipart_parser.c:183-192 | the same for one byte of a header value |
| `MultipartParser.MultipartParser.DataByte` | web_threads/src/tcp_logic/multipart_parser.c:208-220 | the same for one byte of part data, with the new mark and lookbehind |
| `MultipartParser.MultipartParser.MatchByte` | web_threads/src/tcp_logic/multipart_parser.c:222-248 | the same while a delimiter is being matched, including the step back |
| `MultipartParser.MultipartParser.Switch` | web_threads/src/tcp_logic/multipart_parser.c:106-286 | one pass through the switch, for every state |
| `MultipartParser.MultipartParser.Parse` | web_threads/src/tcp_logic/multipart_parser.c:97-292 | the in-place loop leaves the state, lookbehind, trace and consumed count of the specification, for every chunk |
| `MultipartChunks.RefConcat` | web_threads/src/tcp_logic/multipart_parser.c:97-292 | the byte-at-a-time reference composes over concatenation |
| `MultipartChunks.LoopSim` | web_threads/src/tcp_logic/multipart_parser.c:103-289 | from any position the loop, with its mark and its stepping back, does what the reference does once the pending bytes are counted |
| `MultipartChunks.FeedIsRef` | web_threads/src/tcp_logic/multipart_parser.c:97-292 | however the input is cut, feeding it ends in the reference's state, consumes as much, and reports the same up to joining |
| `MultipartChunks.ChunkIndependence` | web_threads/src/tcp_logic/multipart_parser.c:97-292 | for every input two ways of cutting it give the same final state, consumed count and joined trace once header names are left out (values of neighbouring headers are then joined too; for their division see ValuesIndependent) |
| `MultipartChunks.SameNotificationsAndBodies` | web_threads/src/tcp_logic/multipart_parser.c:97-292 | in plain terms: the same notifications in order and the same data for every part |
| `MultipartChunks.SinglesAreRef` | web_threads/src/tcp_logic/multipart_parser.c:97-292 | fed byte by byte the parser makes exactly the callbacks of the reference |
| `MultipartChunks.LoopLosesNames` | web_threads/src/tcp_logic/multipart_parser.c:141-162 | fed in one piece, a name that breaks off is not reported: fewer name bytes come out than went in |
| `MultipartChunks.NamesIndependentIff` | web_threads/src/tcp_logic/multipart_parser.c:136-162 | for every parser and input, header names are independent of the cuts if and only if no header line breaks off inside a name the input has begun or gone on with |
| `MultipartChunks.BrokenNameDependsOnCuts` | web_threads/src/tcp_logic/multipart_parser.c:136-162 | the header line "a" CR is an input on which they are not |
| `MultipartValues.FeedSeen` | web_threads/src/tcp_logic/multipart_parser.c:97-292 | however the input is cut, the parser shows the header values of the reference, header by header and part by part |
| `MultipartValues.ValuesIndependent` | web_threads/src/tcp_logic/multipart_parser.c:97-292 | for every input, also where names do depend on the cuts, the list of header values of every part does not |
| `MultipartSearch.MatchBreaks` | web_threads/src/tcp_logic/multipart_parser.c:222-248 | with a CR-free boundary a failed partial match hides no later match: only the failing byte can begin one |
| `MultipartSearch.SearchByte` | web_threads/src/tcp_logic/multipart_parser.c:202-248 | for one byte, what is reported followed by what is held is what was held followed by the byte |
| `MultipartSearch.NoDelimiter` | web_threads/src/tcp_logic/multipart_parser.c:202-248 | over data without a delimiter, reported bytes plus held bytes are the input, and the held ones are its longest end that begins a delimiter |
| `MultipartSearch.NoDelimiterAnyCut` | web_threads/src/tcp_logic/multipart_parser.c:202-248 | for every cut of such data all of it is accepted, and everything is reported but its longest end that begins a delimiter |
| `MultipartSearch.DataUntilDelimiter` | web_threads/src/tcp_logic/multipart_parser.c:202-248 | whatever follows, the data reported up to the end of the first CR LF boundary are exactly the input before it, and the parser goes on behind it |
| `MultipartSearch.PartDataExact` | web_threads/src/tcp_logic/multipart_parser.c:202-248 | for every cut and whatever follows the delimiter: after the headers the trace is headers_complete, exactly the bytes before the first CR LF boundary, part_data_end, and then what the bytes behind the delimiter give |
| `MultipartRoundTrip.PrintedDelimiterIsFirst` | web_threads/src/tcp_logic/multipart_parser.c:222-248 | behind a body that does not contain the delimiter, the printed delimiter is the first occurrence |
| `MultipartRoundTrip.HeaderParses` | web_threads/src/tcp_logic/multipart_parser.c:136-200 | a printed header, its name of the bytes 45, 65 to 90 and 97 to 122, is reported as its name and value, whatever number of spaces precedes the value |
| `MultipartRoundTrip.BodyParses` | web_threads/src/tcp_logic/multipart_parser.c:202-248 | a body and its delimiter are reported as one part's data and end |
| `MultipartRoundTrip.PartsParse` | web_threads/src/tcp_logic/multipart_parser.c:136-282 | a non-empty list of printed parts is reported in order and ends in s_end |
| `MultipartRoundTrip.RoundTrip` | web_threads/src/tcp_logic/multipart_parser.c:97-292 | parse(print(parts)), cut in any way, reports exactly those parts in order, consumes every byte and ends in s_end |
| `MultipartGrammar.StepFits` | web_threads/src/tcp_logic/multipart_parser.c:106-286 | every pass through the switch makes only callbacks the grammar allows at that point |
| `MultipartGrammar.TraceShape` | web_threads/src/tcp_logic/multipart_parser.c:97-292 | for every input, however cut or malformed, the trace is a prefix of a sentence (begin, headers, complete, data*, end)+ body_end, and a whole one if and only if the state is s_end |
| `MultipartSession.FeedParser` | web_threads/src/tcp_logic/multipart_parser.c:97-292 | a parser object fed chunk after chunk ends in the state, count and trace that the specification gives for the sequence |
| `MultipartSession.ParsePrinted` | web_threads/src/tcp_logic/multipart_parser.c:66-292 | the round trip said of a new parser object: its trace reports exactly the printed parts and it is in s_end |
| `MultipartSession.ParseAnything` | web_threads/src/tcp_logic/multipart_parser.c:66-292 | the grammar said of a new parser object, for every input and cut |
| `ThreadProtocol.StepKeepsInv` | thread_center/src/thread.cpp:236-415 | every step of every thread keeps: executed ++ in flight ++ queue = pushed; wake-ups at least the queue length, and equal to it before OnStop; issued = read + piped + pending; pending implies the timer; OnStop at most once |
| `ThreadProtocol.RunKeepsInv` | thread_center/src/thread.cpp:236-415 | so does every state of every interleaving |
| `ThreadProtocol.StopAfterEverything` | thread_center/src/thread.cpp:332-354 | in every run the sink's OnStop is called at most once, when everything pushed before it has been executed |
| `ThreadProtocol.FlagsTell` | thread_center/src/thread.cpp:332-402 | in every run a reload has finished, the thread is stopping or the loop has ended if and only if a reload, stop or exit token has been handled |
| `ThreadProtocol.InternalStepWorks` | thread_center/src/thread.cpp:26-79 | every consumer step lowers the amount of outstanding work |
| `ThreadProtocol.InternalRunBounded` | thread_center/src/thread.cpp:26-79 | no run of consumer steps is longer than the work outstanding at its start |
| `ThreadProtocol.QuiescentMeansDone` | thread_center/src/thread.cpp:236-278 | a consumer with nothing left to do has executed every pushed task: no wake-up was lost, however many writes failed |
| `ThreadProtocol.StepKeepsDraining` | thread_center/src/thread.cpp:26-79 | no consumer step changes whether everything queued comes up before an exit token in the order in which the consumer reads |
| `ThreadProtocol.EveryMaximalRunExecutesAll` | thread_center/src/thread.cpp:236-415 | every maximal run of consumer steps is bounded, and executes everything if and only if in its first state everything queued comes up, or is drained by a first stop token, before an exit token |
| `ThreadProtocol.NoExitDrains` | thread_center/src/thread.cpp:236-415 | in particular if no exit token is in the pipe, pending or in hand |
| `ThreadProtocol.ExitOvertakesTask` | thread_center/src/thread.cpp:236-259 | a run from the initial state in which a task is lost: its token is pending while an exit token is written and read |
| `ThreadProtocol.AllTasksCanRun` | thread_center/src/thread.cpp:236-415 | from every state with the invariant there is a maximal run, and it executes everything under the same condition |
| `ThreadCenter.TaskQueue.PushBack` | thread_center/src/task_queue.cpp:23-35 | appends, with the count equal to the length and the maximum its high-water mark |
| `ThreadCenter.TaskQueue.PopFront` | thread_center/src/task_queue.cpp:51-64 | takes the oldest task, or nothing from an empty queue |
| `ThreadCenter.TaskQueue.IsEmpty` | thread_center/src/task_queue.cpp:66-69 | true if and only if no task is queued |
| `ThreadCenter.Thread.WriteOrPend` | thread_center/src/thread.cpp:250-258 | the token goes to the end of the pipe, or to the end of the pending list with the timer set |
| `ThreadCenter.Thread.PushTask` | thread_center/src/thread.cpp:236-259 | the task joins the end of the queue and its token the end of pipe or pending list; refines the protocol's push step and keeps the invariant |
| `ThreadCenter.Thread.NotifyThread` | thread_center/src/thread.cpp:316-330 | refines the notify step for the stop, reload and exit bytes |
| `ThreadCenter.Thread.OnTimer` | thread_center/src/thread.cpp:261-278 | refines the retry step: one token a tick, and the timer stops only when nothing is pending |
| `ThreadCenter.Thread.ReadByte` | thread_center/src/thread.cpp:26-79 | refines the read step |
| `ThreadCenter.Thread.TakeTask` | thread_center/src/thread.cpp:404-408 | refines the pop step, under the lock |
| `ThreadCenter.Thread.ExecuteTask` | thread_center/src/thread.cpp:410-414 | refines the execute step, outside the lock |
| `ThreadCenter.Thread.OnStopBegin` | thread_center/src/thread.cpp:332-339 | a second stop token does nothing |
| `ThreadCenter.Thread.ExecuteQueue` | thread_center/src/thread.cpp:343-351 | executes everything queued, in order, and leaves the queue empty |
| `ThreadCenter.Thread.OnStopDrain` | thread_center/src/thread.cpp:341-354 | refines the drain step; afterwards everything ever pushed has been executed |
| `ThreadCenter.Thread.OnReload` | thread_center/src/thread.cpp:372-376 | refines the reload step |
| `ThreadCenter.Thread.OnExit` | thread_center/src/thread.cpp:399-402 | refines the exit step |
| `RecordTimeout.InsertAgrees` | timer_axis/inc/record_timeout_mgr.h:229-266 | inserting a record with its entry keeps exactly one entry (upsert time + timeout, key) per record |
| `RecordTimeout.EraseAgrees` | timer_axis/inc/record_timeout_mgr.h:268-291 | so does erasing a record with its entry |
| `RecordTimeout.AgreeSameSize` | timer_axis/inc/record_timeout_mgr.h:229-291 | the two indexes then have the same size |
| `RecordTimeout.EntryPosition` | timer_axis/inc/record_timeout_mgr.h:268-291 | a record's entry lies within the equal range of its expiry time |
| `RecordTimeout.StuckForever` | timer_axis/inc/record_timeout_mgr.h:72-116 | an entry without a record at the front makes no number of iterations progress |
| `RecordTimeout.ScanEndsIffNoOrphan` | timer_axis/inc/record_timeout_mgr.h:72-116 | for arbitrary indexes the expiry loop ends if and only if it reaches no entry without a record |
| `RecordTimeout.AgreeHasNoOrphan` | timer_axis/inc/record_timeout_mgr.h:72-116 | agreement of the indexes implies that it ends |
| `RecordTimeout.RecordTimeoutMgr.EraseEntry` | timer_axis/inc/record_timeout_mgr.h:268-291 | the walk of the equal range erases the key's entry and no other |
| `RecordTimeout.RecordTimeoutMgr.UpsertRecord` | timer_axis/inc/record_timeout_mgr.h:229-266 | a new record, or new times for an existing one whose value stays; the indexes agree |
| `RecordTimeout.RecordTimeoutMgr.RemoveRecord` | timer_axis/inc/record_timeout_mgr.h:268-291 | the record is gone if it was there; the indexes agree |
| `RecordTimeout.RecordTimeoutMgr.OnTimer` | timer_axis/inc/record_timeout_mgr.h:72-116 | ends, removes and reports exactly the records whose upsert time plus timeout is not after now, each with its stored value, and leaves the others unchanged |
| `SeqNums.NextFreeUnique` | base/inc/seq_num.h:90-115 | there is at most one cyclically next free number |
| `SeqNums.FullIffCount` | base/inc/seq_num.h:92-95 | comparing counts tells exactly whether every number is in use |
| `SeqNums.SearchStep` | base/inc/seq_num.h:97-112 | one increment moves the cursor one cyclic place, over numbers in use only, or finds the next free number |
| `SeqNums.RecycledLast` | base/inc/seq_num.h:90-129 | in every history of allocations, releases and resets: between two allocations of one number with no reset between them, every other number was issued, or was in use when passed over |
| `SeqNums.ResetRecyclesAtOnce` | base/inc/seq_num.h:59-64 | with a reset between them this fails: the first number can be issued twice in a row |
| `SeqNums.SeqNum.constructor` | base/inc/seq_num.h:41-49 | a fresh allocator has nothing in use |
| `SeqNums.SeqNum.Reset` | base/inc/seq_num.h:59-64 | nothing is in use and the cursor stands before the first number: a reset step of a history |
| `SeqNums.SeqNum.Alloc` | base/inc/seq_num.h:90-115 | ends; 0 if and only if all numbers are in use, and then nothing changes; otherwise a free number such that all numbers above the cursor and below it, around the end of the range if need be, are in use: an allocation step of a history |
| `SeqNums.SeqNum.Advance` | base/inc/seq_num.h:97-112 | the search loop ends at the cyclically next free number and takes it |
| `SeqNums.SeqNum.Free` | base/inc/seq_num.h:122-129 | exactly that number is free again: a release step of a history |
| `TransCenter.AtMostOneTerminal` | trans_center/src/trans_center.cpp:251-300 | in every log the object can have, between two terminal callbacks of one id it was freed and issued anew |
| `TransCenter.RemovedAgrees` | trans_center/src/trans_center.cpp:268-280 | removing a transaction keeps map, ids, peer sets, records and log in agreement, also inside an expiry batch |
| `TransCenter.AddedAgrees` | trans_center/src/trans_center.cpp:111-172 | adding one under an id not in use does too |
| `TransCenter.AddedAndRemoved` | trans_center/src/trans_center.cpp:164-169 | a transaction without a sink leaves map, ids and records as they were |
| `TransCenter.BatchStarts` | trans_center/src/trans_center.cpp:282-300 | taking the due records out leaves agreement up to the batch, whose members are all live |
| `TransCenter.TransCenter.RecordTransCtx` | trans_center/src/trans_center.cpp:111-172 | fails if and only if there is no context, no object or no free id; otherwise the id is the next free one and in every index; it has a record of now and its timeout if and only if it has a sink and a positive timeout |
| `TransCenter.TransCenter.CancelTrans` | trans_center/src/trans_center.cpp:174-188 | the transaction is gone from every index and its id freed, without a callback |
| `TransCenter.TransCenter.RemoveTrans` | trans_center/src/trans_center.cpp:268-280 | frees the id and forgets it in the map and in its peer's set; unknown ids change nothing |
| `TransCenter.TransCenter.OnRecvRsp` | trans_center/src/trans_center.cpp:251-266 | one response callback for a live id, none for an unknown one, and the id is free afterwards |
| `TransCenter.TransCenter.OnTimeout` | trans_center/src/trans_center.cpp:282-300 | one timeout callback for a live id of the batch, every centre-wide sink told once, also for an id that is not live, then the id is freed |
| `TransCenter.TransCenter.TellSinks` | trans_center/src/trans_center.cpp:294-297 | every registered sink is told of the id exactly once, and nothing else is said |
| `TransCenter.TransCenter.OnTimer` | trans_center/src/trans_center.cpp:282-300 | an expiry batch ends exactly the due transactions, each with its callback and one word to every centre-wide sink; the others keep their records |
| `TransCenter.TransCenter.Release` | trans_center/src/trans_center.cpp:25-39 | every transaction is cancelled without a callback; no id, record, peer or sink stays |
| `ConnCenter.SameCount` | tcp_threads/src/conn_center.cpp:85-274 | matching socket and id maps have equally many entries |
| `ConnCenter.OpenedCorresponds` | tcp_threads/src/conn_center.cpp:125-176 | opening a connection under a new id keeps sockets, ids, allocated ids and idle records in one-to-one correspondence if and only if its socket is not in the table |
| `ConnCenter.WithoutSocketCorresponds` | tcp_threads/src/conn_center.cpp:153-165 | a set-up that fails late keeps it under the same condition: it erases the socket entry, whoever it belonged to |
| `ConnCenter.LookupsInverse` | tcp_threads/src/conn_center.cpp:243-263 | a connection is found under its socket if and only if it is found under its id |
| `ConnCenter.ClosedCorresponds` | tcp_threads/src/conn_center.cpp:178-197 | so does closing one, also inside an expiry batch |
| `ConnCenter.TouchedCorresponds` | tcp_threads/src/conn_center.cpp:199-241 | counting received data creates no socket entry and keeps the correspondence |
| `ConnCenter.BatchMember` | tcp_threads/src/conn_center.cpp:276-280 | what the batch reports for an id is the connection that still holds it |
| `ConnCenter.ConnCenter.CreateConn` | tcp_threads/src/conn_center.cpp:85-176 | fails if and only if object, id, initialisation or activation fails; otherwise the connection is in every index under a new id, with its start time, a zero count and an idle record of now and the configured life; the indexes correspond afterwards if and only if the socket had no entry or nothing changed |
| `ConnCenter.ConnCenter.DestroyConn` | tcp_threads/src/conn_center.cpp:178-197 | the connection on the socket is gone from every index; an unknown socket changes nothing |
| `ConnCenter.ConnCenter.Clear` | tcp_threads/src/conn_center.cpp:265-274 | the socket and the id are forgotten and the id is free again |
| `ConnCenter.ConnCenter.UpdateConnStatus` | tcp_threads/src/conn_center.cpp:199-241 | -1 if and only if the id is live, data came, the interval is over and this receive reaches the threshold; counter and start time case by case; the idle record is refreshed unless -1; no socket entry is ever created |
| `ConnCenter.CountsSinceStart` | tcp_threads/src/conn_center.cpp:205-235 | over any history of receives the counter is the number of receives since its start, and its start is the opening or the last receive that found the interval over with fewer receives than the threshold |
| `ConnCenter.ThreadSink.OnAccept` | tcp_threads/src/thread_sink.cpp:10-49 | refuses while stopping or at the limit, and otherwise accepts exactly when the connection can be set up and an id is free; the online count stays the number of live connections and within a positive limit |
| `ConnCenter.ThreadSink.OnClientConnected` | tcp_threads/src/thread_sink.cpp:532-568 | -1 exactly when set-up fails or no id is free; a leftover on the socket is gone either way; the count is the number of live connections, and the limit holds exactly if the count is within it |
| `ConnCenter.ThreadSink.DropStale` | tcp_threads/src/thread_sink.cpp:534-540 | afterwards the socket is unused; a connection that was on it is gone from every index and counted off |
| `ConnCenter.ThreadSink.OnClientClosed` | tcp_threads/src/thread_sink.cpp:372-388 | whatever is on the socket is gone from every index and the count is one lower; it is still the number of live connections if and only if there was something |
| `ConnCenter.ThreadSink.OnTimer` | tcp_threads/src/conn_center.cpp:276-280 | an idle batch closes exactly the connections with due records; the count drops by their number |
| `NormalConn.EmptyItemNeverCompletes` | tcp_threads/src/normal_conn.cpp:137-203 | no outcomes ever complete an empty item, and the inner loop uses up any number of successful or interrupted writes without leaving |
| `NormalConn.SpinsIffEmpty` | tcp_threads/src/normal_conn.cpp:144-152 | the callback never returns as long as no write fails if and only if the item is empty |
| `NormalConn.EmptyItemBlocks` | tcp_threads/src/normal_conn.cpp:137-203 | whatever write returns, an empty item and everything queued behind it stay; in front, nothing goes out at all |
| `NormalConn.CompletableIffNonEmpty` | tcp_threads/src/normal_conn.cpp:137-203 | an item can be completed if and only if it is not empty |
| `NormalConn.ListDrains` | tcp_threads/src/normal_conn.cpp:124-222 | if each write takes at least one byte, as many writes as there are bytes put the whole list on the wire, in order |
| `NormalConn.BalancedList` | tcp_threads/src/normal_conn.cpp:124-222 | conservation over a callback for all outcomes: bytes written, less those a reset will repeat, followed by the list are everything accepted |
| `NormalConn.KeepsNonEmpty` | tcp_threads/src/normal_conn.cpp:137-203 | trimming never leaves an empty item behind |
| `NormalConn.NextOutcome` | tcp_threads/src/normal_conn.cpp:137-203 | the whole behaviour outcome by outcome: bytes taken move from the list to the wire, an interrupted write changes nothing; EAGAIN and other errors end the callback with the list trimmed, a reset with the item whole; nothing behind an error is looked at |
| `NormalConn.EmptiedIsDone` | tcp_threads/src/normal_conn.cpp:137-203 | once the list is empty nothing more is written, whatever the socket would take |
| `NormalConn.NoResetNoRepeat` | tcp_threads/src/normal_conn.cpp:137-203 | without a reset no byte is ever written twice |
| `NormalConn.NormalConn.Send` | tcp_threads/src/normal_conn.cpp:301-364 | the data joins the end of the list with the write event armed, or -1 is returned with nothing queued, exactly when a needed event call fails |
| `NormalConn.NormalConn.WriteFirst` | tcp_threads/src/normal_conn.cpp:144-190 | the inner loop follows the item specification, whose outcomes NextOutcome pins one by one |
| `NormalConn.NormalConn.WriteItems` | tcp_threads/src/normal_conn.cpp:137-203 | the outer loop writes, keeps and repeats what the specification says, for all outcomes |
| `NormalConn.NormalConn.WriteCallback` | tcp_threads/src/normal_conn.cpp:124-222 | in every state, also after resets: settled bytes followed by the list are everything accepted, settled is everything written unless a reset made an item repeat, and the event is armed while something is queued; it is disarmed exactly when the list is empty, if event_del succeeds |

## Left out

- libevent, sockets, pipes, pthreads, dlopen, logging, TLS, XML and the wall clock: parameters or outcomes, never code. A pipe read that is interrupted consumes nothing and is no step of the protocol.
- Module loading and lifecycle, configuration, schedulers, dispatchers, `TimerAxis`, `udp_threads` and the utility functions in `base`: wiring and getters, which would only add easy members.
- Big-endian branches of the CRC and the table literals beyond the sixteen-entry one: the large table is defined by the recurrence that generates it.
- Client-side framing, the HTTP client and reconnecting: the framing theorems are for the server loop.
- `MPartBodyProcessor`: the model stops at the parser's trace. Callbacks return 0, so the early exits for a non-zero result and the never-entered s_uninitialized state are not modelled.
- Re-entrant handlers: a handler that opens or closes connections, or pushes to its own thread, from inside a callback. Sinks are called at the places of the source but do nothing to the tables.
- The private copy of a transaction's asynchronous data, and the memory management of connections and transactions.
- `BufferEventConn`: its send list is libevent's.
- FastCrc32.SliceBy16Prefetch: the look-ahead is an unbounded number. In the source 64 + look-ahead wraps in size_t for a look-ahead within 64 of its maximum, and the loop then reads past the data.
- FastCrc32.FileChecksum: a read error that never sets end-of-file, on which the source loop does not end, is not represented.
- MsgCodec.IsWholeMsg: needs four bytes, because the source reads them unconditionally. The framing loop and OnRecvClientData take the bytes that happen to lie behind a shorter buffer as a parameter; that two bytes behind it are readable at all is not questioned.
- MsgCodec.EncodeMsg: needs a buffer large enough for the frame, as the source demands of its caller.
- ProtoLogic.ProtoLogic.OnRecvClientData: the read is non-empty, as the caller's read loop ensures.
- MultipartSearch.PartDataExact: the boundary is non-empty and free of CR, as section 5.1.1 of RFC 2046 prescribes; so for DataUntilDelimiter, NoDelimiter, NoDelimiterAnyCut and RoundTrip.
- MultipartParser.MultipartParser.constructor: the boundary is non-empty, for the same reason. With an empty one the source compares part data with the bytes behind the boundary's terminator.
- SeqNums.SeqNum.constructor: the source throws outside the stated range, so no allocator exists there.
- ThreadCenter.Thread.PushTask: models the write to the pipe as failing or, when there is room, succeeding; other errors of write count as failing.
- ThreadCenter.Thread.OnTimer: the timer exists from the start; before the timer module is loaded the source sets none.
- TransCenter.TransCenter.OnTimer: the order in which the members of one batch are called back is left open, as iterating a hash map leaves it.
- NormalConn.NormalConn.WriteFirst: a sequence of outcomes that runs out stands for a socket that would block; that an empty item never gets there is what SpinsIffEmpty says.
