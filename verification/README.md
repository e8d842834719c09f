# A verified model of the S7 variable service

This project models the core of an S7comm library in Dafny and proves what it promises: the S7 variable service from
the client's chunked transfers through both codecs to the server's shared memory and back, the reassembly of recorded
traffic, and four smaller algorithms around them. `dafny verify dfyconfig.toml` checks everything.

Each operation is modelled in the form it has in the library. Objects that change are classes (`Memory.Store`,
`Session.Connection`, `Client.S7Client`), loops are methods with invariants, and each such method is proved equal to a
function on values; the properties are then proved of those functions. Concurrency is a transition system over all
sequences of events.

| file | part of the system |
|---|---|
| `Octets.dfy`, `Message.dfy` | bytes, 16-bit fields, bits; the S7 header and the split of a PDU into its sections |
| `VarSpecs.dfy`, `WriteData.dfy`, `Requests.dfy` | the job side of the codec: item lists, write data, the client's encoders |
| `Answers.dfy` | the answer side: the server's encoders and the client's parsers |
| `Memory.dfy`, `VarItems.dfy`, `Session.dfy` | areas, one read or write item, one connection of the server |
| `ServerProperties.dfy`, `Concurrent.dfy` | every answer, every run of PDUs, every interleaving under the lock |
| `Client.dfy`, `ClientProperties.dfy` | exchanges and chunked transfers against any peer |
| `EndToEnd.dfy`, `Transfers.dfy` | the client against the server: transfers refine flat reads and writes |
| `WireFormat.dfy` | the octets of every message, in numbers |
| `Stream.dfy`, `Tpkt.dfy`, `Tsdus.dfy` | TCP reassembly, TPKT splitting (RFC 1006, section 6), COTP DT joining (RFC 905, section 13.7) |
| `Userdata.dfy`, `UserdataProperties.dfy` | multi-packet user data and SZL lists |
| `Spans.dfy`, `Lifecycle.dfy`, `Discover.dfy` | span consolidation, the connection limit and Close, host addresses of a network |

A peer is any function from everything it was sent to its reply, so a statement for all peers covers every way a
device may answer. The server as a peer is the fold of its own handler over the PDUs it was sent.

## Results worth knowing

- A chunked write succeeds exactly when its data fit an area that takes writes and every chunk can be sent
  (`Transfers.WriteSucceedsIff`). With an odd PDU size a full chunk is padded to one byte more than the PDU, so the write
  fails as soon as one chunk is full, and nothing is written.
- A read of a range inside its area succeeds for every PDU size from 25 on, and below that exactly for up to six bytes
  with a PDU size of 24 (`Transfers.ReadSucceedsIff`).
- An answer shorter than its chunk moves the later bytes of a read (`ClientProperties.ShortChunkShifts`). The bytes of a
  read, also of one that stops midway and keeps what it has, are in place if and only if none follows a short answer
  (`ClientProperties.ReadPlacedIff`), which a success guarantees.
- A reply in order whose section lengths add up to 65536 or more, and no other, makes the client's slice expression fail,
  because the end of the data section is computed in 16 bits (`ClientProperties.InterpretIff`). So reads and SZL lists
  crash on such a reply (`ClientProperties.ReadCrashes`, `UserdataProperties.SzlCrashes`), and reads, writes and SZL
  lists on nothing else (`ClientProperties.ReadCrashesOnlyOnOverflow`, `ClientProperties.WriteCrashesOnlyOnOverflow`,
  `UserdataProperties.SzlCutIsSafe`).
- With steps longer than a probe, spans claim bytes that were never probed, exactly when the gap between two probes of
  one status that lie one step apart has such a byte (`Spans.LongStepsOverclaim`); in a range scan that is when two
  neighbouring probes have the same status (`Spans.GridOverclaim`).
- ARCHITECTURE.md says Close waits for every connection goroutine. In the code it does not wait for one whose connection
  is in the map and whose goroutine is not started yet (`Lifecycle.CloseMayReturnEarly`). Close is certain to leave no
  connection behind if and only if there is none such when it is called (`Lifecycle.CloseLeavesNoneIff`).
- Where recorded segments overlap with different bytes, the first in order of offset and recording wins
  (`Stream.FirstSegmentWins`).
- The comments on the CIDR functions speak of /24 and larger; the code leaves out network and broadcast address of every
  network with more than two addresses, and the model follows the code.

## Model

| member | source | states |
|---|---|---|
| `Octets.NumberIsItsBits` | server/session.go:220 | The bits of a number are its binary digits, bit 0 the last |
| `Message.ReceiveUndoesEncode` | wire/s7.go:115-124 | The server's header split gives back type, reference, parameter and data of every message that can be encoded |
| `Message.ParseUndoesAckData` | wire/s7.go:127-160 | The client's header parser gives back reference, error and both sections of every Ack-Data answer |
| `Message.ReceiveExact` | server/session.go:38-50 | The server takes exactly the PDUs of one layout, given byte by byte |
| `Message.HeaderExact` | wire/s7.go:127-160 | What is wrong with each header the client cannot read, and byte by byte what it reads of any other |
| `VarSpecs.ParseVarSpecs` | wire/pdu_server.go:141-192 | The decoding loop computes the reference decoding of an item list, refusals included |
| `VarSpecs.ParseIffWellFormed` | wire/pdu_server.go:138-192 | The decoder accepts exactly the parameter sections that are a function code, a count and that many valid items, and finds those items |
| `VarSpecs.OneItemAccepted` | wire/pdu_server.go:119-192 | An item body is taken exactly when it is S7ANY of 10 bytes, DBREAD of 2 bytes and 5 for each of its ranges, or of another syntax |
| `VarSpecs.DbReadBodyDecodes` | wire/pdu_server.go:119-136 | A DBREAD body laid out as length, data block and start of up to 50 ranges is decoded to exactly these |
| `VarSpecs.ParseReadVarDBRead` | wire/pdu_server.go:202-217 | The second pass over a Read Var job computes the ranges of every DBREAD item |
| `VarSpecs.RangesAtDBReadItems` | wire/pdu_server.go:199-217 | The two passes accept the same jobs; ranges come with exactly the DBREAD items, at most 50 to an item |
| `WriteData.ParseWriteVarRequest` | wire/pdu_server.go:246-281 | The decoding loop computes the reference decoding of a Write Var job |
| `WriteData.ParsedDataIffLaidOut` | wire/pdu_server.go:244-281 | The decoder accepts exactly the data sections in which n whole items are laid out, with a fill byte after each odd one but the last and at most one byte left over |
| `WriteData.WriteLengths` | wire/pdu_server.go:230-242 | Which transport sizes a write item may have, and whether its length is in bytes or whole bytes in bits |
| `Requests.EncodeReadVarRequest` | wire/pdu_rw.go:307-324 | The encoding loop builds the message with the joined items, or refuses an address that does not fit |
| `Requests.FieldRanges` | wire/pdu_rw.go:228-264 | The numbers that fit the fields of an address |
| `Requests.ReadRequestDecodes` | wire/pdu_rw.go:209-324 | A request is encoded for up to 255 addresses in range and no others, and the server decodes it to exactly these addresses; the one for no address it refuses |
| `Requests.WriteRequestDecodes` | wire/pdu_rw.go:461-483 | For up to 8191 bytes and an address in range, and no others, the server decodes a byte write to exactly its address and payload; the request is 28 bytes and the padded payload long |
| `Requests.BitRequestsDecode` | wire/pdu_rw.go:252-296 | The server decodes a bit read and a bit write to exactly the bit address and value |
| `Answers.EncodeReadVarResponse` | wire/pdu_server.go:305-320 | The encoding loop builds the answer with all items and their fill bytes |
| `Answers.EncodedSize` | wire/pdu_server.go:295-301 | The items take exactly the bytes the size function counts for them |
| `Answers.ParseReadVarResponse` | wire/pdu_rw.go:434-457 | The parsing loop computes the reference parse of an answer |
| `Answers.ParsedItemsIff` | wire/pdu_rw.go:360-457 | The client accepts exactly the answers in which the announced number of items is laid out, payloads of refused items skipped, and finds those items |
| `Answers.AnswerLengths` | wire/pdu_rw.go:341-350 | Which transport sizes an answer item may have, and whether its length is in bytes or bits rounded up |
| `Answers.ParseUndoesReadVarResponse` | wire/pdu_rw.go:360-457 | The client reads back every list of up to 255 results whose length field says their data length or that are bare refusals, across all fill-byte patterns |
| `Answers.ParseWriteVarResponse` | wire/pdu_rw.go:505-519 | A write answer counts as success only if every item code is 0xFF; otherwise the first refusal is reported |
| `Answers.ParseUndoesWriteVarResponse` | wire/pdu_server.go:324-330 | The client reads back the codes of 1 to 255 items |
| `Memory.KeyExact` | server/memory.go:37-102 | The areas there are, by their codes, and that only data blocks have a number |
| `Memory.HostReadExact` | server/memory.go:121-144 | The host reads exactly the spans inside an area that is there, byte for byte |
| `Memory.RegisterThenRead` | server/memory.go:104-119 | An area is added exactly when its key is valid and new and its size from 1 to 2097152; then all of it is read back and every other area is as before, otherwise nothing changes and the error is the first that applies |
| `Memory.HostWriteThenRead` | server/memory.go:136-155 | A host write is read back, every host read that does not touch it is as before, and no area appears or changes size |
| `Memory.Store.RegisterArea` | server/memory.go:104-119 | Registering adds exactly the new area, or changes nothing and says why |
| `Memory.Store.Read` | server/memory.go:136-144 | The host reads exactly the bytes of the span |
| `Memory.Store.Write` | server/memory.go:146-155 | The host writes exactly the span |
| `VarItems.ReadAnyIsHostRead` | server/session.go:157-233 | An item is read exactly when it is acceptable and the host could read the same bytes, and gives those bytes or the addressed bit; otherwise its code is 0x0A, 0x06 or 0x05 by what is wrong |
| `VarItems.ReadAnyExact` | server/session.go:127-233 | In numbers: which items are read and which code refuses each other, how many bytes an element has, and transport size and length field of the answer |
| `VarItems.BitReadIsBitOfByteRead` | server/session.go:215-233 | In every memory a bit read is that bit of the byte read |
| `VarItems.DbReadIsByteReads` | server/session.go:295-309 | A DBREAD item is answered as the byte reads of its ranges: same bytes, each slice recoverable, or the code of the first range refused |
| `VarItems.ReadItemFaithful` | server/session.go:203-233 | Every result the server builds for a DBREAD item, or for an item of up to 8191 bytes, is one the client reads back without loss; a DBREAD answer has at most 12800 bytes |
| `VarItems.WriteCodeExact` | server/session.go:330-340 | A write item is refused as the read of the same item is, with 0x07 for data of another length than that read gives, and with 0x03 for a protected area, timers and counters |
| `VarItems.WriteItemFrame` | server/session.go:330-352 | A write item keeps every area and size and changes only its addressed bytes, for a bit only that bit, and nothing when refused |
| `VarItems.WriteThenRead` | server/session.go:330-352 | What a write item put into memory the same item reads back |
| `Session.FastReadIsSimpleRead` | server/session.go:249-286 | Counting the answer's size item by item with early exits gives the answer of reading everything first |
| `Session.LimitExact` | server/server.go:19-54 | The PDU sizes that can be configured, and the default |
| `Session.SetupExact` | server/session.go:108-117 | Which setup jobs are understood, and that they are granted the smaller of the size asked for and the limit |
| `Session.Connection.Setup` | server/session.go:108-117 | Setup changes the PDU size to the smaller of the one asked for and the limit and nothing else, and answers as specified |
| `Session.Connection.DbRead` | server/session.go:295-309 | The loop over the ranges computes the reference answer of byte reads |
| `Session.Connection.Read` | server/session.go:238-287 | The Read Var loop gives the simple form's answer and changes nothing |
| `Session.Connection.Write` | server/session.go:316-328 | The Write Var loop leaves memory and answers as the item-by-item reference does |
| `Session.Connection.WriteOne` | server/session.go:330-352 | The in-place byte and bit changes are the reference effect of one item |
| `Session.Connection.Handle` | server/session.go:38-76 | One PDU takes memory, PDU size and answer to what the reference says |
| `ServerProperties.ReadAnswerExact` | server/session.go:238-287 | A Read Var job is refused with 0x8500 exactly when its answer would exceed the PDU size; otherwise the answer has exactly the counted length, no length field overflows, and the client reads back every item |
| `ServerProperties.NotImplementedAnswers` | server/session.go:80-87 | The refusal is header error 0x8104 with the job's function code |
| `ServerProperties.NotImplementedIff` | server/session.go:51-76 | Header error 0x8104 goes to exactly the readable PDUs that are neither a decodable setup, Read Var or Write Var job nor a user data request |
| `ServerProperties.HandleAnswersEveryReadablePdu` | server/session.go:34-117 | Exactly the PDUs with an unreadable header drop the connection; every other gets one well-formed answer with its reference; an answer with a header error and an answer to anything but a job changed nothing; the PDU size stays within the limit |
| `ServerProperties.WriteJobIsFold` | server/session.go:316-352 | A Write Var job is the left fold of the effects of exactly the items with code 0xFF, each with the code it would get alone |
| `ServerProperties.WriteJobServed` | server/session.go:38-76 | A Write Var job sent to the server has that effect and is answered with those codes |
| `ServerProperties.ReadJobServed` | server/session.go:38-76 | A Read Var job sent to the server changes nothing and is answered with the results of its items, each by its ranges or its address, or refused |
| `ServerProperties.RunKeeps` | server/session.go:38-117 | Over every run of client PDUs on any number of sessions, areas and sizes never change, protected areas, timers and counters keep their content, and PDU sizes stay at or below the limit of at most 4096 |
| `ServerProperties.SessionsApart` | server/session.go:24-117 | The PDU size of a session depends only on the PDUs it was sent itself, whatever other sessions do |
| `ServerProperties.MemoryShared` | server/session.go:38-76 | All sessions work on one memory, as if one session had sent all PDUs in their order |
| `Concurrent.Serializable` | server/memory.go:80-85 | In every item-level interleaving of jobs and host calls, the answers are those of running the jobs one after the other in the order they were answered, and memory without a writer is what that run leaves |
| `Concurrent.InterleavedKeeps` | server/memory.go:80-85 | At every moment of every item-level interleaving of client jobs and host reads, areas and sizes are unchanged and protected areas, timers and counters keep their content |
| `Concurrent.NoDeadlock` | server/session.go:238-328 | While any job is under way, one of them can go on |
| `Concurrent.LockExact` | server/memory.go:80-155 | Reading jobs share the lock and all others have it alone; a waiting job gets it exactly then |
| `Concurrent.JobsConserved` | server/session.go:238-328 | In every interleaving each job begun is under way or was answered to the one who began it, once |
| `Concurrent.HostJobs` | server/memory.go:104-155 | Host-side writes and registered areas are read back by the next host-side read |
| `Client.PlanReadChunks` | client/readwrite.go:308-324 | The planning loop computes the chunks of a transfer |
| `Client.S7Client.NextPduRef` | client/client.go:201-207 | The next reference, never 0 |
| `Client.S7Client.Exchange` | client/client.go:211-260 | Sending and judging a reply, against any peer |
| `Client.S7Client.Read` | client/readwrite.go:68-181 | The read loop computes the chunked read, against any peer |
| `Client.S7Client.Write` | client/readwrite.go:200-259 | The write loop computes the chunked write, against any peer |
| `ClientProperties.RefsDistinct` | client/client.go:199-207 | Any 65535 references in a row are different and none is 0, also where the counter wraps |
| `ClientProperties.InterpretIff` | client/client.go:234-259 | A reply is in order exactly when its header can be read, its reference matches and it reports no error; then its sections are those declared, and the client crashes exactly when their lengths add up to 65536 or more |
| `ClientProperties.HugeReplyCrashes` | client/client.go:256-259 | A concrete reply on which the client crashes |
| `ClientProperties.ReadCrashesOnlyOnOverflow` | client/readwrite.go:95-181 | A read crashes only when the last reply's section lengths overflow |
| `ClientProperties.ReadCrashes` | client/readwrite.go:95-181 | A read of one byte that crashes on such a reply |
| `ClientProperties.WriteCrashesOnlyOnOverflow` | client/readwrite.go:200-259 | A write crashes only when the last reply's section lengths overflow; its slices of the data stay in bounds |
| `ClientProperties.ChunksShape` | client/readwrite.go:308-324 | The chunks add up to the whole, and every one but the last has the full size |
| `ClientProperties.ReadAreaAnyPeer` | client/readwrite.go:95-181 | For any peer no outcome holds more bytes than asked for, and a success holds exactly as many, each chunk the reply to the request for just that range |
| `ClientProperties.ReadPlacedIff` | client/readwrite.go:147-169 | The data of a read are the peer's answers to its chunks, joined, all of them exactly when no chunk ended it, or nothing; each byte is at the address it was sent for if and only if no byte came after an answer shorter than its chunk |
| `ClientProperties.ReadEndsExact` | client/readwrite.go:95-181 | How every read that does not get all its chunks ends: with which status, code and data for each kind of reply, and when without sending |
| `ClientProperties.ChunkSizes` | client/readwrite.go:90-93 | The bytes one chunk may carry for every PDU size |
| `ClientProperties.WriteAreaAnyPeer` | client/readwrite.go:217-259 | For any peer some leading chunks were sent, each with exactly its range and bytes, and accepted by a reply whose codes are all 0xFF; success exactly when that is every chunk; otherwise the next chunk was not sent, or the reply to it says which failure or refused item is reported |
| `ClientProperties.ShortChunkShifts` | client/readwrite.go:167-168 | A concrete short answer that moves a later byte |
| `ClientProperties.ValidatedReadFits` | client/validation.go:25-51 | A read is invalid exactly when, in numbers, its data block, start or end is out of range: no chunk of any other wraps |
| `ClientProperties.ValidatedWriteFits` | client/validation.go:25-51 | A write is invalid exactly when, in numbers, its data block, start or end is out of range, or its first chunk exceeds 8191 bytes |
| `EndToEnd.SetupAgrees` | client/handshake.go:83-119 | After setup, client and server work with the same PDU size, the smaller of both wishes, and the number of parallel jobs is the one asked for cut to 1 or 2 |
| `EndToEnd.ReadServed` | server/session.go:238-287 | What one chunk of a read gives against the server, for every PDU size |
| `EndToEnd.WriteServed` | server/session.go:316-352 | What one chunk of a write does against the server, for every PDU size |
| `Transfers.ReadAreaEndToEnd` | client/readwrite.go:68-181 | For every validated range and PDU size from 25 on, the data are the server's bytes in the whole chunks inside the area, success exactly if that is all of them, else rejected with the item's code |
| `Transfers.ReadSucceedsIff` | client/readwrite.go:90-93 | The PDU sizes with which a read inside its area succeeds |
| `Transfers.WriteAreaEndToEnd` | client/readwrite.go:200-259 | For every validated address, data and PDU size, memory is afterwards as by one flat write of a prefix in whole chunks, all of the data exactly when the client reports success |
| `Transfers.WriteSucceedsIff` | client/readwrite.go:218-222 | The PDU sizes with which a write that fits succeeds |
| `Transfers.WrittenIsHostWrite` | server/memory.go:146-155 | The flat write is the host's own write |
| `Transfers.FitExact` | client/readwrite.go:308-324 | The prefix is everything if it fits, otherwise the largest number of full chunks that do |
| `Transfers.WriteThenReadArea` | client/readwrite.go:68-259 | What a successful write put into the server a read of the same range gives back |
| `Stream.SeqDiffExact` | internal/capture/capture.go:298-304 | Serial arithmetic gives back every offset within 2^31 of the base |
| `Stream.SortSorts` | internal/capture/capture.go:317-318 | The sorted copy holds the same segments in offset order |
| `Stream.SortStable` | internal/capture/capture.go:317-318 | Segments at one offset keep the order they were recorded in |
| `Stream.Reassemble` | internal/capture/capture.go:309-341 | The reassembly loop computes the reference runs |
| `Stream.FirstSegmentWins` | internal/capture/capture.go:306-341 | Whatever the segments hold, the runs are the maximal ones carried, and where segments overlap byte and frame are of the first in order of offset and recording |
| `Stream.StreamIsRuns` | internal/capture/capture.go:306-341 | Segments that agree with one stream give exactly the maximal runs of carried offsets from 0 on, each byte once, with the frame of a segment that carried it |
| `Stream.SentIsRuns` | internal/capture/capture.go:298-341 | Pieces of a stream sent with 32-bit sequence numbers, beginning within 2^31 of its base, give exactly the maximal runs of the offsets sent, with the stream's bytes, also where the numbers wrap |
| `Stream.SameCarriedSameRuns` | internal/capture/capture.go:306-341 | Two recordings that carry the same offsets give the same runs, however cut, ordered or repeated |
| `Tpkt.Pdus` | internal/capture/capture.go:345-390 | The splitting loop computes the reference split |
| `Tpkt.PacketExact` | internal/capture/capture.go:347-366 | Which error a whole packet gives, by the numbers in it, or that it is taken |
| `Tpkt.TakeExact` | internal/capture/capture.go:367-382 | What each kind of TPDU changes |
| `Tpkt.PrefixParses` | internal/capture/capture.go:345-390 | On any prefix of a stream of packets the parser gives exactly the whole packets in it and never an error |
| `Tpkt.ConnectsCounted` | internal/capture/capture.go:367-371 | On a whole stream of packets of any kind, connect requests and confirms are counted as many as there are |
| `Tsdus.CutAndJoin` | internal/capture/capture.go:345-390 | TSDUs cut into DT TPDUs and packets come back: on every prefix a prefix of the S7 ones, on the whole stream all of them with nothing dropped |
| `Tsdus.CutShort` | internal/capture/capture.go:345-390 | A stream that ends inside a TSDU gives the TSDUs before it, and counts as dropped the packet cut and the TSDU begun |
| `Tsdus.ReadFlow` | internal/capture/capture.go:393-406 | The loop over the runs adds up their PDUs and counts |
| `Tsdus.FlowOfOne` | internal/capture/capture.go:393-406 | What no run and one run give |
| `Tsdus.FlowAppend` | internal/capture/capture.go:393-406 | With any number of gaps: the first run's error, or the PDUs of all runs one after the other, counts added up, and a gap between every two |
| `Tsdus.RecordedTsdus` | internal/capture/capture.go:298-406 | TSDUs, packed, cut into segments and recorded in any order without a gap, come back exactly |
| `Userdata.CollectUserdata` | client/szl.go:24-57 | The collecting loop computes the reference exchange, against any peer |
| `Userdata.ReadSzlList` | client/szl.go:61-73 | Reading an SZL list computes the reference |
| `Userdata.SzlRecords` | client/szl.go:77-91 | Record i is the i-th slice behind the list header; as many as announced or, if fewer, as arrived whole |
| `UserdataProperties.FollowUpAsks` | wire/pdu_szl.go:125-131 | A follow-up is read as user data with the group, subfunction and sequence number it was made for |
| `UserdataProperties.SzlRequestAsks` | wire/pdu_szl.go:175-190 | A list request is read as user data for exactly that ID and index |
| `UserdataProperties.ParamExact` | wire/pdu_szl.go:143-156 | Which response parameters are taken, and what is read from which byte |
| `UserdataProperties.DataExact` | wire/pdu_szl.go:159-173 | A data section has a payload exactly when it reports success, its length and holds it |
| `UserdataProperties.SzlHeadExact` | wire/pdu_szl.go:198-215 | ID and index are taken from exactly the first packets that report success and hold them |
| `UserdataProperties.CollectAnyPeer` | client/szl.go:16-57 | For every peer at most 257 packets: the reply to the request, then replies to follow-ups that the receiver reads as echoing the sequence number of the packet before; the payloads are joined in order |
| `UserdataProperties.CollectEndsExact` | client/szl.go:24-57 | How every collection that does not succeed ends: after exactly 257 packets, or with a request not sent or a reply that fails or crashes it, for each kind of reply |
| `UserdataProperties.CollectCrashesOnlyOnOverflow` | client/szl.go:24-57 | Collecting crashes only when the last reply's section lengths overflow |
| `UserdataProperties.SzlCutIsSafe` | client/szl.go:61-73 | The cut behind SZL ID and index cannot underflow: reading a list crashes exactly when collecting it does, on a last reply whose section lengths overflow, and fails as collecting does |
| `UserdataProperties.SzlCrashes` | client/szl.go:61-73 | A list read that crashes on such a reply |
| `UserdataProperties.SzlCutIndependent` | client/szl.go:24-73 | However a CPU cuts a list into up to 257 packets the client reads the same list; a longer response is given up |
| `UserdataProperties.ServerRefusesUserdata` | server/session.go:94-103 | The client's parsers read the server's user data refusal with the request's group, subfunction and sequence number and error 0x8104 |
| `Spans.ConsolidateSpans` | client/rangescan.go:230-302 | The nested loops compute the reference spans and summary |
| `Spans.ConsolidatedIntoRuns` | client/rangescan.go:246-292 | The spans cut the probes, in order and without loss, into the maximal runs of one status and consecutive offsets |
| `Spans.SpansCoverProbes` | client/rangescan.go:246-292 | The spans of a status cover exactly the bytes probed with it and the gaps between probes of it one step apart; with a step no longer than a probe there are no gaps |
| `Spans.LongStepsOverclaim` | client/rangescan.go:246-292 | Exactly when, for any list of probes, spans cover a byte that was not probed |
| `Spans.GridOverclaim` | client/rangescan.go:74-104 | In a range scan with longer steps that is when two neighbouring probes have the same status |
| `Spans.SummaryHoldsEachOnce` | client/rangescan.go:294-299 | The summary holds every span exactly once |
| `Spans.SummaryByStatus` | client/rangescan.go:294-299 | Which statuses go into which list of the summary, each in the order of the spans |
| `Spans.MergeExact` | client/rangescan.go:257-288 | Merged flags: a value exactly when some probe has it and none contradicts; a difference exactly when two do |
| `Spans.SpanFlagsExact` | client/rangescan.go:257-292 | Every span's flags and notes are exactly what the probes of its maximal run say |
| `Spans.PlanProbes` | client/rangescan.go:74-91 | The grid of probes and their size, with the defaults; with steps no longer than a probe, so always without a given step, every byte of the range is probed |
| `Spans.ScanCovered` | client/rangescan.go:74-104 | Such a scan leaves no byte out of the spans |
| `Lifecycle.LimitHolds` | server/server.go:168-185 | In every interleaving, tracked connections do not exceed held slots, nor these the limit; each slot is given back at most once, after its connection left the map, and without blocking |
| `Lifecycle.SlotsExact` | server/server.go:168-174 | In every interleaving an accepted connection gets a slot exactly when fewer than the limit are held, else it is hung up; with no connection under way no slot is held |
| `Lifecycle.WorkerEnds` | server/server.go:175-184 | In every interleaving what adding, turning away, serving and ending a connection do to the map, its slot and its worker |
| `Lifecycle.CloseIsFinal` | server/server.go:190-240 | After Close no connection is added and all tracked ones are hung up |
| `Lifecycle.CloseLeavesNoneIff` | server/server.go:190-207 | Whenever Close is called: in every continuation it returns with no connection left, if and only if none is between being added and its worker's start at the call |
| `Lifecycle.CloseMayReturnEarly` | server/server.go:175-184 | A run in which Close returns before a worker starts |
| `Discover.IncIP` | client/discover.go:280-287 | Counting an address up in place |
| `Discover.IncValue` | client/discover.go:280-287 | Counting up adds one to the number, and wraps from the last address to 0 |
| `Discover.StreamCIDR` | client/discover.go:221-254 | The addresses sent are a prefix of the hosts, all of them when never stopped; networks of more than 20 host bits are refused |
| `Discover.ExpandCIDR` | client/discover.go:259-278 | The list is the same hosts, also for networks that end at 255.255.255.255 |
| `Discover.ContainsIsInterval` | client/discover.go:259-278 | The mask comparison of a network whose first address is masked is an interval of addresses, which does not run past the last one |
| `Discover.HostsAreTheNetwork` | client/discover.go:212-278 | The hosts are distinct and exactly the network's addresses, without the ends when there are more than two |
| `WireFormat.MessageOctets` | wire/s7.go:103-124 | Every byte of a message |
| `WireFormat.AnswerOctets` | wire/pdu_server.go:80-88 | Every byte of an answer |
| `WireFormat.AddressOctets` | wire/pdu_rw.go:209-249 | The 12 bytes of an address |
| `WireFormat.BitAddressOctets` | wire/pdu_rw.go:252-264 | The 12 bytes of a bit address |
| `WireFormat.ReadRequestOctets` | wire/pdu_rw.go:307-324 | Every byte of a request to read one range |
| `WireFormat.WriteRequestOctets` | wire/pdu_rw.go:461-483 | Every byte of a write request, with its length in bits and its fill byte |
| `WireFormat.BitRequestOctets` | wire/pdu_rw.go:267-296 | Every byte of the requests to read and write one bit |
| `WireFormat.ReadAnswerOctets` | wire/pdu_server.go:305-320 | Every byte of a Read Var answer, with its fill bytes |
| `WireFormat.WriteAnswerOctets` | wire/pdu_server.go:324-330 | Every byte of a Write Var answer |
| `WireFormat.SetupOctets` | wire/pdu_setup.go:9-29 | Every byte of the setup job and of its answer |
| `WireFormat.RefusalOctets` | server/session.go:80-103 | Every byte of the refusals |

## Left out

- Client.S7Client.Read: contexts, deadlines, rate limits and logging are not modelled; an operation that a context ends early is a reply that is lost.
- Client.S7Client.Exchange: dialling, the COTP handshake and reconnecting are not part of this model; the connection does not change during an operation, as the request lock ensures.
- Discover.ExpandCIDR: starts at /1, because on a /0 the loop never ends (`Discover.SlashZeroNeverEnds`).
- Discover.StreamCIDR: parsing and printing of addresses and masks; a network is its first address and its number of host bits.
- Lifecycle.LimitHolds: listeners and the return values of the accept loop.
- Memory.Store.Write: areas are values in a map field that each write replaces; aliasing of the byte slices does not arise, because the library copies them in and out.
- UserdataProperties.CollectEndsExact: the kinds of failure of a packet are not told apart.
- Single-bit client calls, block lists and uploads, device identification, rack and slot probing, read comparison: straight-line exchanges over the same codec.
- Capture file containers, Ethernet, IPv4 and TCP headers, and the merge of the two directions: the model starts at the segments of one direction.
- Name tables, error texts, typed decoding of values and TSAP packing: finite tables and fixed-width conversions.
