# A model of irpc

irpc is an RPC framework in Go. This project models the parts of it that carry an algorithm or a
protocol and proves what they promise for every input, every run or every reachable state:

- `WeightedRoundRobin.dfy`: the smooth weighted round robin selector. Its schedule is fair in every
  prefix and has period W, the total weight.
- `RoundRobin.dfy`: the plain round robin selector.
- `Bits.dfy`, `Varint.dfy`, `Skipper.dfy`, `ArithService.dfy`, `Malformed.dfy`: the generated Protocol
  Buffers code for a message of two int32 fields (Protocol Buffers Encoding, sections "Base 128 Varints"
  and "Message Structure"), including the skipper for unknown fields and nested groups. `Malformed` says
  exactly which bytes fail, and how. Machine integers are integers modulo
  2^32 or 2^64; where the code adds indices that may wrap around, so does the model. `Bits` has the
  bitwise operations those loops use, defined bit by bit.
- `PendingCalls.dfy`, `ClientSections.dfy`: the client's pending-call protocol. Any number of calling
  goroutines, the reader and `Close` interleave; each mutex section is one step, and the `done` that a
  goroutine owes the call it removed is a later step of its own. `ClientSections` has the sections as
  code on an object, counting locks and unlocks; `PendingCalls` has the runs.
- `OnewayCalls.dfy`: the same protocol with the pooled messages that requests are built in. Its runs
  are runs of the protocol, and it says what the read of a freed message's one-way bit can find.
- `Header.dfy`, `Wire.dfy`, `Message.dfy`, `FrameFormat.dfy`, `Codec.dfy`: the wire format. `Message` has
  encoding and decoding as functions with the round trips; `FrameFormat` has the layout of a frame and
  exactly which bytes are accepted and refused; `Codec` has the code that fills recycled buffers at
  offsets, streams to a writer, and decodes into an object, each proved against those functions.
- `MessagePool.dfy`: the pool of messages, with everything a message goes through between being handed
  out and being handed out again.
- `ServerResponse.dfy`: the handling of a request over the registered services, codecs and plugins, the
  responses a server builds and how the client's reader classifies them.
- `EndToEnd.dfy`: from a registered call to the server and back to that call, and what the client then
  learns of a failure.
- `BufferPool.dfy`: the levelled buffer pool.
- `JumpHash.dfy`: jump consistent hashing, for every jump that goes forward and for the code's
  floating-point jump under every monotone rounding.
- `CircuitBreaker.dfy`: the consecutive-failure circuit breaker, with the clock readings as inputs.
- `Retry.dfy`, `ClientCache.dfy`: the retry loops of the multi-server client, with the servers they try,
  and the clients it keeps, each in its state of the pending-call protocol.
- `Common.dfy`: shared types.

Inputs that stand for the outside: the order in which a `range` visits a map (any order), the
compressors (any pair of functions of which the second undoes what the first produces; the first may
fail), the payload codecs, the registered methods and functions and the plugins around them (any
functions), the parsers of a server's weight, the clock, the choices of `sync.Pool`, and the outcome of
every network operation. Go strings are byte sequences.

Where the code does something other than its comments or names suggest, the model follows the code:

- A message's `SetMessageType` can only make it a response, never a request again (`Header.ResponseIff`).
- `Reset` leaves the first header byte. So a message that a wrong first byte was read into comes back
  from the pool without the magic byte, and what is sent in it is refused (`MessagePool.HandedOut`,
  `MessagePool.FrameAcceptedIff`, `MessagePool.RefusedAfterReuse`).
- `FreeMsg` resets and pools a message only when its buffer is small (`MessagePool.ReleasedIsReset`).
- The encoder's fallback to no compression changes the header its caller holds
  (`Message.Zipped`, `Message.KeptIff`).
- `WriteTo` returns the count of the header's or of the payload's write. That is the count of what it
  wrote exactly when nothing beyond the header was written: the writer has room for twelve bytes at
  most, or the compressor is missing or fails (`Codec.Msg.WriteTo`).
- `send` reads the one-way bit after it has freed the message, so it never sees its own. A one-way call
  stays pending unless another user of the pool has taken and marked the message meanwhile, and then
  any call is removed, one-way or not (`OnewayCalls.LateReadIff`, `OnewayCalls.RemovedAfterSendIff`,
  `OnewayCalls.OnewayStaysPending`, `OnewayCalls.CompletedWithoutReply`).
- A call can complete more than once: `PendingCalls.CompletionCount` says exactly how often,
  `PendingCalls.CompletedTwice` and `PendingCalls.CompletedTwiceByEncoding` are runs in which it happens,
  `PendingCalls.AtMostOnce` says which runs exclude it.
- A refused call's cancellation can remove the call numbered 0 (`PendingCalls.CancelTouchesAnotherIff`).
- `Close` on a client that is closing or shut down unlocks its mutex twice. Locks and unlocks balance
  exactly in the runs that close the client once at most, and not after its reader has exited
  (`PendingCalls.LocksBalanceIff`); otherwise the program may crash (`PendingCalls.ClosedTwice`) or go on
  with a mutex that no longer excludes, which changes nothing (`PendingCalls.SectionsAreInert`).
- Removing a client closes it twice while it is cached, so that every retry owes the removed client's
  mutex an unlock (`ClientCache.RemoveOwes`, `ClientCache.EveryRetryOwes`); so does finding a cached client
  that has ended (`ClientCache.GetOwes`).
- `handleRequest` defers `HandleError` with the values its results have at the start, nil and nil. So a
  response is marked as an error only when there was nothing to call or the request already was so marked
  (`ServerResponse.ErrorStatusIff`, `EndToEnd.ErrorReportedIff`), and a method that fails is answered like
  one that succeeds (`ServerResponse.FailureLooksLikeSuccess`, `ServerResponse.SilentFailure`).
- With a negative number of retries, a retrying call returns nil without any attempt
  (`Retry.NilMeansSuccessIff`).
- The top level of a buffer pool whose maximum is not its minimum times a power of two never gets a
  buffer back (`BufferPool.TopLevelRecyclesIff`).
- Weights are parsed from text and may be negative; the period law needs that none is
  (`WeightedRoundRobin.PeriodIffNonNegative`).

## Model

| member | source | states |
|---|---|---|
| WeightedRoundRobin.Best | client/selector_weighted_round_robin.go:92-94 | the server kept by the loop has the greatest raised weight and is the first with it |
| WeightedRoundRobin.ChosenIsFirstGreatest | client/selector_weighted_round_robin.go:92-94 | the server a call chooses has the greatest sum of current and effective weight and is the first with it |
| WeightedRoundRobin.GainAll | client/selector_weighted_round_robin.go:75-96 | every non-nil server gains its effective weight once, the total is their sum, nil entries are skipped |
| WeightedRoundRobin.NextWeighted | client/selector_weighted_round_robin.go:75-104 | in the fields: the returned server has the greatest sum of current and effective weight and is the first with it, every server gains its effective weight, which ramps up to its weight, and the returned one pays the total; nil exactly when there is none |
| WeightedRoundRobin.StepConservesSum | client/selector_weighted_round_robin.go:78-102 | for arbitrary weights and ramping effective weights a call conserves the sum of current weights |
| WeightedRoundRobin.RunFormula | client/selector_weighted_round_robin.go:75-104 | after k calls every current weight is k times its weight less its picks times the total |
| WeightedRoundRobin.RunSumIsZero | client/selector_weighted_round_robin.go:75-104 | the current weights sum to zero in every reachable state |
| WeightedRoundRobin.RunBounds | client/selector_weighted_round_robin.go:75-104 | every current weight lies between 1 - W and (n - 1)(W - 1) at every prefix |
| WeightedRoundRobin.PrefixFairness | client/selector_weighted_round_robin.go:75-104 | at every prefix no server is ahead of its share by a whole turn or behind by more than n - 1, and zero weights are never chosen |
| WeightedRoundRobin.OnePeriod | client/selector_weighted_round_robin.go:46-104 | W calls from the initial state choose each server exactly its weight's number of times and restore the state |
| WeightedRoundRobin.EveryWindow | client/selector_weighted_round_robin.go:46-104 | from any point of a run the next W calls do the same, so the schedule repeats with period W |
| WeightedRoundRobin.PeriodIffNonNegative | client/selector_weighted_round_robin.go:54-57 | for a non-negative total, W calls serve every server its weight exactly when no weight is negative |
| WeightedRoundRobin.NoOverflow | client/selector_weighted_round_robin.go:86-102 | every value formed, the running total included, lies between -W and nW, so it fits 64 bits when nW does |
| WeightedRoundRobin.CreateWeighted | client/selector_weighted_round_robin.go:46-65 | distinct fresh servers with zero current weight and effective weight equal to the parsed weight or 1 |
| WeightedRoundRobin.Selector.UpdateServer | client/selector_weighted_round_robin.go:36-39 | the new list is in the initial state from which the period law holds |
| WeightedRoundRobin.Selector.Select | client/selector_weighted_round_robin.go:24-34 | the name of the first server with the greatest sum of current and effective weight, or the empty name when there is none |
| RoundRobin.TurnLaw | client/selector_round_robin.go:11-22 | after any number of calls from any cursor, each server's turns have come exactly n calls apart |
| RoundRobin.EveryServerOnce | client/selector_round_robin.go:11-22 | any n consecutive calls, whatever cursor an earlier list left, select every server once |
| RoundRobin.CountsDifferByAtMostOne | client/selector_round_robin.go:11-22 | after any number of calls two servers' counts differ by at most one |
| RoundRobin.Selector.Select | client/selector_round_robin.go:11-22 | the server at the cursor but for whole rounds, the cursor moving on; nothing on an empty list |
| RoundRobin.Selector.UpdateServer | client/selector_round_robin.go:23-30 | replaces the list in any order of its keys and leaves the cursor |
| Varint.ReadAtIff | _testutils/arith_service.go:197-211 | the read loop accepts exactly the varints of at most ten bytes, with their value modulo 2^64 and their end |
| Varint.CutIff | _testutils/arith_service.go:202-204 | a read ends with an unexpected end exactly when fewer than ten bytes are left and all go on; what it has accumulated is their value |
| Varint.OverlongIff | _testutils/arith_service.go:199-201 | it overflows exactly when ten bytes go on |
| Bits.BitOrIsUnion | _testutils/arith_service.go:207 | the union of two words has exactly the bits of either |
| Bits.BitAndIsIntersection | _testutils/arith_service.go:207 | the intersection has exactly the bits of both |
| Bits.OrIsPlus | _testutils/arith_service.go:207 | the union of a word with bits above all of its own is their sum |
| Varint.OrGroupIsSum | _testutils/arith_service.go:207 | or-ing a masked and shifted group into an accumulator below it is addition modulo the word, also where the shift cuts it off |
| Varint.EncodeIsVarint | _testutils/arith_service.go:149-157 | every uint64 is written as a varint of at most ten bytes with that value |
| Varint.EncodeSize | _testutils/arith_service.go:179-188 | the size loop counts exactly the bytes that are written |
| Varint.EncodeVarint | _testutils/arith_service.go:149-157 | writes exactly those bytes at the offset and no others, each formed by the mask and the top bit |
| Varint.SovLoop | _testutils/arith_service.go:179-188 | returns the length of the encoding |
| Varint.ReadUvarint | _testutils/arith_service.go:197-211 | the loop with its shift counter and its bitwise accumulator refines the read function, errors included |
| Varint.ReadInt32 | _testutils/arith_service.go:225-239 | the loop that accumulates bitwise in an int32 ends alike with the low 32 bits |
| Skipper.SkipsField | _testutils/arith_service.go:349-447 | on any well-formed field, with groups nested to any depth, the skipper returns exactly its length |
| Skipper.Parses | _testutils/arith_service.go:349-447 | whatever it skips within bounds, other than a stray end tag, is a well-formed field |
| Skipper.SkipIff | _testutils/arith_service.go:349-447 | it ends within the buffer exactly at the end of a well-formed field or a stray end tag |
| Skipper.SkipArithService | _testutils/arith_service.go:349-447 | the recursive code terminates and refines the skip function, including wrap-around, errors and panics |
| Malformed.SkipReports | _testutils/arith_service.go:349-447 | every flaw at any depth of groups is reported with its error: a cut or overlong varint, a negative length, an illegal wire type, a group that ends early |
| Malformed.SkipFails | _testutils/arith_service.go:349-447 | every error the skipper returns stands for such a flaw |
| Malformed.SkipErrorIff | _testutils/arith_service.go:349-447 | so it returns an error exactly for the flaws that the error stands for |
| ArithService.Unmarshals | _testutils/arith_service.go:192-279 | a message of acceptable fields is applied field by field |
| ArithService.UnmarshalsMessage | _testutils/arith_service.go:192-279 | a message of acceptable fields sets A to the last value of field 1 and B to that of field 2, each as before without one, and ignores the rest |
| ArithService.LastIs | _testutils/arith_service.go:220-258 | the last value is that of the field behind which no other gives one |
| ArithService.UnmarshalsOnly | _testutils/arith_service.go:192-279 | bytes that unmarshal successfully are such a message with that meaning |
| ArithService.UnknownFieldsAreIgnored | _testutils/arith_service.go:259-271 | unknown fields of every wire type anywhere in a message never change what it unmarshals to |
| Malformed.UnmarshalFailsIff | _testutils/arith_service.go:192-279 | unmarshalling fails with a status exactly when acceptable fields are followed by what it stands for: a bad tag, an end group, an illegal number, a wrong wire type, an unreadable value, a flawed or short unknown field |
| Malformed.LeftByFailure | _testutils/arith_service.go:220-258 | a failure leaves the fields so far, and in a known field whose value cannot be read the bits read of it |
| ArithService.SignExtensionIsUndone | _testutils/arith_service.go:96-101 | truncating the sign-extended value gives back every int32 |
| ArithService.ConversionsAreCongruent | _testutils/arith_service.go:96-101 | both conversions keep the number modulo the smaller word |
| ArithService.MarshalledTags | _testutils/arith_service.go:93-102 | A is marshalled under tag 0x08 and B under 0x10, A first, and zero not at all |
| ArithService.Documented | _testutils/arith_service.go:78-104 | the examples of the format's documentation |
| ArithService.UnmarshalOfMarshal | _testutils/arith_service.go:78-104 | unmarshalling a marshalled message over any other yields its non-zero fields over the other's |
| ArithService.RoundTripIff | _testutils/arith_service.go:78-279 | it yields the message itself exactly when no zero field meets a non-zero one |
| ArithService.SizeIsMarshalLength | _testutils/arith_service.go:158-168 | the size is the number of bytes marshalled |
| ArithService.ProtoArgs.SizeLoop | _testutils/arith_service.go:158-168 | computes that size |
| ArithService.ProtoArgs.MarshalTo | _testutils/arith_service.go:88-104 | writes exactly the marshalled bytes at the front of the buffer, within its size |
| ArithService.ProtoArgs.MarshalBytes | _testutils/arith_service.go:78-86 | the allocated buffer is filled completely |
| ArithService.ProtoArgs.UnmarshalBytes | _testutils/arith_service.go:192-279 | the code refines the unmarshal function, with every error and the fields it leaves behind |
| PendingCalls.StepKeepsInvariant | client/client_call.go:102-214 | every step of every goroutine keeps numbers, books and flags consistent |
| PendingCalls.ReachableInvariant | client/client.go:168-192 | the invariant holds in every reachable state with at most 2^64 sends, also in runs that go on after a second unlock |
| PendingCalls.NoCallIsLost | client/client_call.go:129-214 | every registered call is pending, owed a done or completed, and these add up to one plus its surplus |
| PendingCalls.RefusedCallsCompleteOnce | client/client_call.go:105-123 | a refused call gets exactly one done |
| PendingCalls.QuietMeansComplete | client/client.go:275-304 | once the client is closing or shut down and nothing is owed to a call, it has completed |
| PendingCalls.StepPending | client/client_call.go:129-214 | a step leaves a call in the map exactly if it registers it, or it was there and the step is none of those that take it out |
| PendingCalls.PendingIff | client/client_call.go:129-214 | over every run a call is pending exactly when it was registered and since then no reply with its number, own failed encoding or write, own one-way read of a mark, cancellation with its number, or close has come |
| PendingCalls.TakenOutIsOwed | client/client_call.go:191-214 | a call that is taken out is owed a done by the goroutine that took it, one more than before, or gets it from the close on the spot |
| PendingCalls.StepFollows | client/client_call.go:102-214 | each goroutine goes its way from send to return in the order of the code, moved by its own steps only |
| PendingCalls.FlagsIff | client/client.go:178-179 | in every run shutdown means that the reader has exited, and closing that a close came before that |
| PendingCalls.NothingRegistersAfterwards | client/client_call.go:104-110 | from then on no run registers a call, changes a number or adds to the map |
| PendingCalls.RepliesReachTheirCall | client/client.go:88-95 | a reply is only ever handed to the one call that was sent under its number |
| PendingCalls.NextNumberIsFree | client/client_call.go:129-131 | the next number is unused and not pending, so registering overwrites nothing |
| PendingCalls.CancelTouchesAnotherIff | client/client_call.go:32-40 | a cancellation removes another's call exactly when the caller was never registered and number 0 is pending |
| PendingCalls.CompletionCount | client/client.go:187-190 | the exact number of dones a run brings a call: one, plus reader exits while it was pending and failed encodings after its removal |
| PendingCalls.AtMostOnce | client/client_call.go:161-167 | without a reader exit and failed encodings every call completes at most once |
| PendingCalls.CompletedTwice | client/client.go:187-190 | a reachable state in which one call has completed twice |
| PendingCalls.CompletedTwiceByEncoding | client/client_call.go:161-167 | a reachable state in which one call has completed twice while the reader still reads |
| PendingCalls.CancelledForAnother | client/client_call.go:32-40 | a reachable state in which a refused call is about to complete another |
| PendingCalls.UnlockCount | client/client.go:296-299 | in every run the unlocks beyond the locks, owed or fatal, are as many as the closes of a client that was closing or shut down |
| PendingCalls.LocksBalanceIff | client/client.go:275-304 | they are none exactly when no close comes after another or after the reader's exit |
| PendingCalls.SectionsAreInert | client/client.go:275-304 | once an unlock is owed no section finds, registers, completes or changes anything but the shutdown flag, so that overlapping sections do not matter |
| PendingCalls.ClosedTwice | client/client.go:296-299 | a reachable state in which an unlocked mutex was unlocked |
| ClientSections.SweepVisitsPending | client/client.go:279-285 | a range over the map visits every pending call once and no other |
| ClientSections.Client.SendSection | client/client_call.go:104-132 | refuses without effect, or registers under the next number; locks and unlocks once |
| ClientSections.Client.TakeSection | client/client.go:92-95 | returns and deletes what is pending under a number; locks and unlocks once |
| ClientSections.Client.Close | client/client.go:275-304 | empties the map, completes each entry once in visiting order, sets the flag only the first time; it unlocks as often as it locks exactly when the client was neither closing nor shut down |
| ClientSections.Client.ExitSection | client/client.go:168-192 | sets shutdown and completes every entry without deleting it; locks and unlocks once |
| OnewayCalls.RefinesPendingCalls | client/client_call.go:102-214 | with messages and one-way calls, every reachable state is one of the protocol |
| OnewayCalls.StepKeepsPool | client/client_call.go:138-204 | every step keeps that a call has its message to itself until it is written, or until a failed write is cleaned up, and that a message is marked as its user asks and unmarked in the pool |
| OnewayCalls.LateReadIff | client/client_call.go:204-206 | the one-way bit read after the free is set exactly when another user has taken the message since and marked it |
| OnewayCalls.RemovedAfterSendIff | client/client_call.go:206-214 | a pending call is removed after its write exactly then, whether or not it is one-way |
| OnewayCalls.OnewayStaysPending | client/client_call.go:204-214 | a reachable state in which the send of a one-way call has returned and the call is still pending |
| OnewayCalls.CompletedWithoutReply | client/client_call.go:204-214 | a reachable state in which a call that waits for a reply has completed without one |
| Header.SetterRefinesUpdate | protocol/message_header.go:19-100 | each setter updates one field of the header record and leaves the others |
| Header.SettersRefineUpdates | protocol/message_header.go:19-100 | any sequence of setters refines the same sequence of record updates |
| Header.AbstractIsInjective | protocol/message_header.go:14-95 | the record determines all twelve bytes |
| Header.SetterIsDetermined | protocol/message_header.go:19-100 | a header whose record is the update of another's is, byte for byte, what the setter stores |
| Header.ResponseIff | protocol/message_header.go:24-31 | a header says response exactly when it did or some setter raised it |
| Header.SeqRoundTrip | protocol/message_header.go:93-100 | every 64-bit sequence number is read back |
| Header.FieldRanges | protocol/message_header.go:24-85 | the ranges of the getters |
| Header.FieldPositions | protocol/message_header.go:24-90 | where each field is in its byte, as numbers |
| Header.SeqPositions | protocol/message_header.go:93-100 | the number is big-endian |
| Header.HeaderArray.SetMessageType | protocol/message_header.go:29-31 | can only turn the record into a response; every other field is left |
| Header.HeaderArray.SetHeartbeat | protocol/message_header.go:39-45 | sets or clears the heartbeat flag and leaves every other field |
| Header.HeaderArray.SetOneway | protocol/message_header.go:54-60 | sets or clears the one-way flag and leaves every other field |
| Header.HeaderArray.SetCompressType | protocol/message_header.go:68-70 | sets the compression type to the low three bits given and leaves every other field |
| Header.HeaderArray.SetMessageStatusType | protocol/message_header.go:78-80 | sets the status to the low two bits given and leaves every other field |
| Header.HeaderArray.SetSerializeType | protocol/message_header.go:88-90 | sets the serialize type to the low four bits given and leaves every other field, the reserved bits included |
| Header.HeaderArray.SetVersion | protocol/message_header.go:19-21 | sets the version and leaves every other field of the header record |
| Header.HeaderArray.SetSeq | protocol/message_header.go:98-100 | sets the number and leaves every other field |
| Wire.MetadataRoundTrip | protocol/message.go:325-369 | decoding restores every metadata map whatever the iteration order, the bound checks never refusing it, and the block is empty exactly for the empty map |
| Wire.WriteMetadata | protocol/message.go:325-338 | the loop writes the block |
| Wire.ReadMetadata | protocol/message.go:340-369 | the loop refines the decode function with its wrapping cursor, its error with the entries read so far, and panics |
| Wire.Put32 | protocol/message.go:103 | the four bytes are the low 32 bits of the number, most significant first |
| Message.CookedOfRaw | protocol/message.go:100-212 | the header survives its trip through the frame |
| Message.UnzippedOfZipped | protocol/message.go:74-87 | unzipping restores the payload whether it was compressed, has no registered compressor, or failed to compress |
| Message.RoundTrip | protocol/message.go:66-289 | decoding a frame anywhere in a stream yields the message as the encoder left it and ends at the frame's end; without the magic byte it is refused, and only that byte stays behind |
| Message.FirstByteLeft | protocol/message.go:200-289 | however decoding ends, the first header byte is then the byte it read, or as before when it read none |
| Message.StreamRoundTrip | protocol/message.go:66-289 | any number of frames back to back decode to their messages in order and use exactly their bytes |
| Message.KeptIff | protocol/message.go:74-87 | the encoder leaves the message as it was exactly when it need not fall back |
| Message.FrameLength | protocol/message.go:89-95 | the length of a frame |
| FrameFormat.DecodeIff | protocol/message.go:200-289 | decoding succeeds exactly on a header with the magic byte, a length within the limit, three counted sections and a payload, with that message and their end |
| FrameFormat.RefusedIff | protocol/message.go:204-242 | exactly when the magic byte is wrong, the length is above the limit, or the stream ends early, each with its error |
| FrameFormat.CompressionErrorsIff | protocol/message.go:277-286 | exactly when the compressor is not registered, or fails |
| FrameFormat.MetadataIff | protocol/message.go:340-369 | a metadata block decodes exactly when it is a list of counted keys and values, to the map they give |
| FrameFormat.FrameLimitIff | protocol/message.go:227-229 | a frame the encoder writes is accepted exactly within the receiver's limit, else refused as too long |
| FrameFormat.FrameLayout | protocol/message.go:89-123 | where header, total, path, method, metadata and payload are in a frame, each with its count |
| FrameFormat.MetadataLayout | protocol/message.go:325-338 | a metadata block begins with the first key visited and its value, each with its count |
| MessagePool.HandedOut | protocol/message_pool.go:17-27 | in every run a pooled message is handed out with no metadata, payload, path or method; it is as new exactly when the last decoding into it was not refused for its first byte, and otherwise differs in that byte alone |
| MessagePool.ReleasedIsReset | protocol/message_pool.go:22-27 | freeing resets and pools a message exactly when its buffer is below 1024 bytes, always when it was not decoded into since it was handed out; then its one-way and heartbeat marks are gone |
| MessagePool.FrameAcceptedIff | protocol/message.go:200-212 | in every run a frame made of a held message is accepted exactly when the last decoding into that message was not refused for its first byte |
| MessagePool.DecodedCapIs | protocol/message.go:231-238 | the buffer never shrinks and grows to the body's length when that is larger |
| MessagePool.RefusedAfterReuse | server/server_serve.go:231 | a run in which a wrong first byte is read, the message is freed and reused, and its frame is refused |
| Codec.PutFrame | protocol/message.go:89-123 | the offset writes produce the frame whatever the buffer held, and nothing beyond it changes |
| Codec.Msg.ZipPayload | protocol/message.go:74-87 | the payload to send, with the header changed in the fallbacks |
| Codec.Msg.EncodeSlicePointer | protocol/message.go:66-124 | the buffer holds the frame followed by its untouched rest, independently of its stale bytes |
| Codec.Writer.WriteParts | protocol/message.go:153-196 | writes that stop at the first failure leave exactly as much of the whole as the writer takes |
| Codec.Writer.WriteRest | protocol/message.go:153-196 | after the header: the same, and the count of the payload's write if it was reached, else the one given |
| Codec.Msg.WriteTo | protocol/message.go:127-197 | emits the same frame byte for byte, or the prefix the writer takes; stops after the header with the error for a missing or a failing compressor; the count is the header's unless the payload's write was reached, then the payload's; it is the number of bytes written exactly when the writer has room for at most twelve or the compressor is missing or fails |
| Codec.Msg.DecodeFrom | protocol/message.go:200-289 | the code refines the decode function with its errors and with the message it leaves behind in every case; success means that the stream holds the message, and ErrMessageTooLong exactly a length above the limit; the first header byte is then the one read, if any was |
| Codec.Msg.DecodeFields | protocol/message.go:244-288 | the field-by-field parse refines the decode function, with what each failure leaves in the message |
| Codec.Msg.CloneTo | protocol/message.go:49-57 | the clone has its own header without compression and the same path and method |
| Codec.Msg.ResetFields | protocol/message.go:292-299 | refines the reset function |
| ServerResponse.ServerResponsesAnswer | server/server_serve.go:266-374 | every response the server builds, for any services, codecs and plugins, is a response with the request's number, path and method |
| ServerResponse.ResponsesReachTheirCall | client/client.go:88-96 | encoded and decoded it still is, so it takes the pending lookup and not the server-message path |
| ServerResponse.NumberComesBack | server/server_serve.go:266-374 | the number a request goes out under comes back in whatever the server answers to it |
| ServerResponse.ErrorStatusIff | server/server.go:141-216 | a response is marked as an error exactly when the service, the codec or both method and function are missing, or the request was so marked |
| ServerResponse.ErrorTextIff | server/server.go:141-216 | and it carries an error text exactly when one of them is missing |
| ServerResponse.RefusalTexts | server/server.go:154-174 | which text each refusal gives, and that only a missing codec is returned as an error too |
| ServerResponse.ReplyIsPayload | server/server.go:176-216 | when method or function, plugins and codec succeed, the encoded reply is the response's payload and no error is returned |
| ServerResponse.OnewayHasNoPayload | server/server.go:210-215 | a one-way request that is carried out leaves the response as it was built |
| ServerResponse.EarlyErrors | server/server.go:179-193 | arguments that do not decode and a plugin that objects return their error |
| ServerResponse.CallErrors | server/server.go:195-209 | a function's error is returned; a method's is replaced by the outcome of encoding its reply, unless there is none |
| ServerResponse.ResponseRecord | server/server.go:147-148 | a response has the request's header record, made a response without compression, its names, and the rest of a pooled message |
| ServerResponse.MergedMetadata | server/server_serve.go:312-323 | metadata the response has is kept, the handler's fills what is missing or empty |
| ServerResponse.FailureLooksLikeSuccess | server/server.go:190-214 | a method that leaves a reply and fails is answered and reported like one that leaves the same reply and succeeds |
| ServerResponse.DeferIsHarmlessIff | server/server.go:142 | the deferred call would mark nothing more, had it been given the final results, exactly when no error is returned or the request was refused |
| ServerResponse.SilentFailure | server/server.go:190-208 | a server and a request whose method fails, with a normal response and no error returned |
| ServerResponse.ServeRequest | server/server.go:141-216 | the code, with its deferred call given the initial results, refines the handling function; its response answers the request, carries the encoded reply, and is marked exactly as above |
| ServerResponse.AddHandlerMetadata | server/server_serve.go:312-323 | the loop merges the handler's metadata, whatever the order |
| ServerResponse.RespondToRequest | server/server_serve.go:302-325 | a request that is not one-way gets one of the responses the theorem covers, with the encoded reply; a one-way request gets none |
| ServerResponse.Respond | server/server.go:147-148 | the head of request handling builds the response from a pooled message |
| ServerResponse.ReuseHeartbeat | server/server_serve.go:266-269 | a heartbeat request becomes an answer to itself, of whose header record only the type has changed |
| ServerResponse.MarkError | protocol/message.go:301-312 | a response with an error gets the error status and its text and is otherwise unchanged, one without an error is unchanged; whatever it answered it still answers |
| ServerResponse.RespondWithError | server/server_serve.go:339-347 | builds one of the responses the theorem covers, and none for a one-way request |
| ServerResponse.CompressLikeRequest | server/server_serve.go:354-357 | only the compression type can change, to the request's and only for a long payload; whatever was answered still is |
| EndToEnd.ReplyTakes | client/client.go:88-95 | in every reachable state a reply with a pending call's number is handed to that call and leaves all others pending |
| EndToEnd.AnswerReachesItsCall | client/client.go:80-96 | what the client decodes of any server response to a call's request is handed to that call alone |
| EndToEnd.ErrorReportedIff | client/client.go:110-114 | through both encodings and decodings, the client's reader finds the error status exactly when the server has nothing to call for the request or the request had it |
| EndToEnd.ReplyComesBack | client/client.go:128-143 | through both encodings and decodings, what the client decodes has the reply the server encoded as its payload and names the request's codec |
| BufferPool.CeilLog2Bounds | util/buffer_pool.go:54-57 | the level index for a size is the least power that reaches it |
| BufferPool.FloorLog2Bounds | util/buffer_pool.go:72-75 | the level index for a capacity is the greatest power within it |
| BufferPool.FindsLargeEnough | util/buffer_pool.go:50-62 | every size up to the maximum finds a level that is large enough |
| BufferPool.PutsLargeEnough | util/buffer_pool.go:64-80 | every capacity between the sizes goes to a level it is large enough for |
| BufferPool.LowerLevelsRecycle | util/buffer_pool.go:93-100 | a level below the top gets its own buffers back |
| BufferPool.TopLevelRecyclesIff | util/buffer_pool.go:38-42 | the top level does exactly when the maximum is the minimum times a power of two |
| BufferPool.TopLevelStaysEmpty | util/buffer_pool.go:64-80 | otherwise no buffer is ever put there |
| BufferPool.LevelSizes | util/buffer_pool.go:36-42 | the loop appends the doubling sizes and the maximum |
| BufferPool.LimitedPool.New | util/buffer_pool.go:31-48 | refuses a maximum below the minimum, else builds a valid pool |
| BufferPool.LimitedPool.FindPool | util/buffer_pool.go:50-62 | no level exactly when the size exceeds the maximum, else one large enough |
| BufferPool.LimitedPool.FindPutPool | util/buffer_pool.go:64-80 | no level exactly outside the sizes, else one small enough |
| BufferPool.LimitedPool.Get | util/buffer_pool.go:82-91 | the length asked for within the capacity, for any pool choice, bypassing the pool exactly above the maximum |
| BufferPool.LimitedPool.Put | util/buffer_pool.go:93-100 | any buffer, the pool's own or not, keeps every level's buffers large enough |
| JumpHash.Consistent | client/hash_utils.go:9-23 | a key in one of the first m of n buckets is there with m buckets too |
| JumpHash.GrowthMovesToNewBuckets | client/hash_utils.go:9-23 | growing moves a key only into a new bucket |
| JumpHash.FloatJumpForward | client/hash_utils.go:19 | under every monotone rounding the code's jump goes forward |
| JumpHash.FloatHashConsistent | client/hash_utils.go:9-23 | so the code's hash is consistent |
| JumpHash.ExactJump | client/hash_utils.go:19 | without rounding the jump is the greatest j whose product with the key's top 31 bits plus one is at most (b + 1) * 2^31 |
| JumpHash.HashIsLastOfWalk | client/hash_utils.go:16-22 | the hash is the last bucket, below the number of buckets, on the walk of jumps under the key's successive steps |
| JumpHash.Published | client/hash_utils.go:9-23 | one of the algorithm's published test vectors |
| JumpHash.HashLoop | client/hash_utils.go:9-23 | the loop computes the hash, the last bucket of the walk, a non-positive number of buckets counting as one |
| CircuitBreaker.FailuresBounded | client/circuit_breaker.go:71-89 | in every run the failure count stays within the threshold, or 1 when that is 0, so it never wraps |
| CircuitBreaker.BoundIsThresholdIff | client/circuit_breaker.go:71-89 | it stays within the threshold in every run exactly when that is positive |
| CircuitBreaker.StaysOpen | client/circuit_breaker.go:71-80 | an open breaker rejects everything within its window without change and admits the first call after it |
| CircuitBreaker.LongGap | client/circuit_breaker.go:36-106 | any threshold + 1 consecutive failing executions contain a gap longer than the window |
| CircuitBreaker.Opens | client/circuit_breaker.go:36-106 | threshold consecutive failures with short gaps open the breaker |
| CircuitBreaker.SuccessCloses | client/circuit_breaker.go:62-64 | after a success the next call is admitted |
| CircuitBreaker.RejectedChangesNothing | client/circuit_breaker.go:39-41 | a rejected call changes nothing |
| CircuitBreaker.ConsecCircuitBreaker.Call | client/circuit_breaker.go:36-106 | refines one step of the run; in the fields: which error each outcome gives, when it is rejected, and the count and time it leaves |
| Retry.CallReport | client/xclient_call.go:33-106 | the attempts are made with the keys of the rounds that had a client, in order and at most retries + 1; the call stops early only at a success or an error that allows no other; every attempt followed up has its client removed; the last attempt's error is reported, nil only after a success |
| Retry.FailtryKeepsItsServer | client/xclient_call.go:51-77 | Failtry makes every attempt and removal with the key selected first |
| Retry.AttemptsAndErrors | client/xclient_call.go:51-106 | every attempt uses the selector's answer of a round, or under Failtry its first; all but the last failed with an error that is neither the service's nor a cancellation; when the last did too, every round with a client was used |
| Retry.FailfastOnce | client/xclient_call.go:161-170 | Failfast makes one attempt with the first key, or none without a client, and reports it |
| Retry.NilMeansSuccessIff | client/xclient_call.go:51-77 | nil implies that the last attempt succeeded, in every world, exactly when retries is not negative |
| Retry.CallLoop | client/xclient_call.go:33-106 | the loop refines the call function, with the keys it tried and removed; Failtry looks its key up again, Failover selects again |
| ClientCache.ClosingTwiceOwes | client/xclient_cache_client.go:91-105 | from every state two closes of a client owe an unlock, and two if it had ended |
| ClientCache.RemoveOwes | client/xclient_cache_client.go:143-155 | removing a client owes its mutex one unlock if it is still cached and one more if it has ended; no other client changes |
| ClientCache.RemoveBalancedIff | client/xclient_cache_client.go:143-155 | it owes none exactly when the client was no longer cached and has not ended |
| ClientCache.GetOwes | client/xclient_cache_client.go:24-80 | a look-up owes an unlock exactly when it meets a cached client that has ended; the client it yields is cached and has not |
| ClientCache.RetriesOwe | client/xclient_call.go:51-106 | whatever others do to clients and cache, a retrying call owes an unlock for every attempt it followed up whose client was still cached |
| ClientCache.EveryRetryOwes | client/xclient_call.go:51-106 | when nobody else changes the cache, that is for every attempt it followed up |
| ClientCache.OneRetryOwes | client/xclient_call.go:56-72 | a retry of one server after which an unlock is owed |
| ClientCache.XClient.DeleteCachedClient | client/xclient_cache_client.go:91-105 | the key is gone and the client has ended, with one unlock too many exactly when it had before |
| ClientCache.XClient.RemoveClient | client/xclient_cache_client.go:143-155 | the code, in counted locks and unlocks: one too many if still cached, one more if ended |
| ClientCache.XClient.GetCachedClient | client/xclient_cache_client.go:24-80 | the code: the cached client that has not ended, or a new one; one unlock too many exactly when the cached one had ended |

## Left out

- Network, TLS, HTTP, websocket, KCP and QUIC code, the gateway, discovery, metrics, tracing and rate-limit plugins: I/O and thin wrappers.
- Payload codecs and the insides of gzip and snappy: only that a compressor undoes itself is used, and that a failing `Unzip` returns no data.
- `SendRaw`, `Broadcast`, `Fork`, `Inform`, Failbackup, JSON-RPC, file transfer and streams.
- The consistent-hash, geographic, random and ping-weighted selectors.
- Plugins that change messages or return nil arguments, and handlers registered on the router.
- `ProtoReply`: the same generated code with one field instead of two.
- The pending-call protocol past 2^64 sends; deadlines; the error values stored in calls; the capacity of `Done` channels beyond their first place.
- Client builders registered for a network, and the two locks of the multi-server client: its operations are atomic here.
- Several goroutines using one circuit breaker at once: its runs are sequences of calls.
- Frames whose lengths exceed their body: the model calls every slice outside the data out of range, while Go may still find spare capacity there.
- 64-bit wrap-around in the selectors' counters and in buffer sizes; `WeightedRoundRobin.NoOverflow` gives the bound for the weights.
- Lists that hold the same weighted server object twice: `createWeighted` makes none.
- The decoded payload sharing memory with the message's internal buffer, and compressed payloads sharing pooled buffers: payloads are values here.
- Rounding in the pool's logarithms: they are exact here.
- BufferPool.LimitedPool.Put: contents of buffers and their aliasing are not modelled, only lengths and capacities.
