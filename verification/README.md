# Verified models of flixy's protocol code

Flixy carries its protocol libraries with it. This project models the four parts of them that
hold real logic and proves what they promise:

- **WebSocket framing** (`Bytes`, `Frames`, `Reading`, `RoundTrip`, `WireExamples`, `ReadEdges`,
  `ReadLimit`, `Connection`, `EndToEnd`). `Connection.Conn` is the connection with its write
  buffer and its read fields; `MessageWriter` and `MessageReader` are the handles on messages.
  `Frames` says what a frame looks like on the wire and what a stream of frames means
  (`Assemble`); `Reading` is the read side as a function of the bytes still to come. The invariant
  `Conn.Valid` ties the bytes on the wire to a list of frames that obeys the fragmentation rules,
  so every run of the write methods keeps it. While a writer waits for the lock, other goroutines
  may send any control messages (`OthersWriteControl`), so what is proved about a write holds for
  every interleaving; only if they send close frames (`othersClose`) can that make a data message
  fail.
- **Streaming UTF-8 validation** (`Utf8Decoder`, `Utf8Validator`): the 400-entry table, decode,
  and the validating reader.
- **Engine.io payloads** (`Base64`, `PayloadCodec`, `Payload`): both wire forms, the packet and
  payload encoders with their queue, the limited reader and the decoders.
- **Command-line parsing** (`FlagParsing`, `Flags`): the grammar of pflag as a function from
  arguments to Set calls and leftovers, and the flag set whose loops follow it.

Bytes are 8-bit vectors and runes 32-bit vectors. Lengths are integers; where the code computes
in int64 (`ToInt64`) or truncates, the model says so. A buffered reader, a source and a writer
deliver or take any non-empty part of what they are given. Masking keys are arbitrary. The
outcome of a flag value's Set may depend on every Set call before it. Command-line strings are
byte strings, as in Go: a char stands for one byte.

## Where the code and its documentation differ

- The read limit is checked on an int64 sum that can wrap, and a length of 2^63 or more counts as
  a negative one. `LimitExceededExample` and `NegativeLengthExample` are streams for which it
  fails; `LimitHoldsUnlessWrapped` and `LimitHoldsOnStreams` are the exact condition, for one
  frame and for streams with any lengths, cut anywhere; `TrueUnlessWrapped` is that condition on
  lengths below 2^63; `LimitRespected` is the bound for any input whose lengths add up.
- A control message written through a message writer must fit the write buffer as well as one
  frame: `WritePart`, `WriteMessage`, `ShortBufferExample`.
- NextReader counts the frames it discards towards the next message: `DiscardedFramesCount`,
  `DiscardedFramesExample`.
- A stream that ends inside the payload of a text, binary or continuation frame makes Read
  answer io.EOF, like the end of a message, so ReadMessage returns the part without an error. A
  cut in a header, or anywhere in a control frame, is reported as unexpected: `CutStream`,
  `CutFrame`, `CutDataExample`, `CutPingExample`. A cut in a payload that
  NextReader discards is a plain EOF: `CutWhileDiscarding`.
- EncodeTo empties the queue before writing, so a failing Write loses the rest of the batch: the
  contract of `EncodeTo` says when it fails and what has been written; `LostBatchExample`.
- `-abc` and `-a -b -c` differ after a terminator, after a first positional without
  interspersing, and after a letter that waits for its argument; `BundleEquivalence` and
  `GluedValueEquivalence` state this as an equivalence; `SpellingsDifferExample`.
- VarP enters a flag before it checks the shorthand, so after a recovered panic a formal flag can
  carry a letter that leads elsewhere; the contract of `VarP` says exactly when; `ReusedShorthandExample`.

## Model

| member | source | states |
|---|---|---|
| Bytes.MaskBytes | Godeps/_workspace/src/github.com/gorilla/websocket/conn.go:128-134 | in-place masking of any part of a buffer is exactly the key-and-position transform of that part, leaves the rest alone and returns the position for the next call |
| Bytes.MaskInvolution | Godeps/_workspace/src/github.com/gorilla/websocket/conn.go:128-134 | masking twice with the same key and position gives the bytes back |
| Bytes.MaskConcat | Godeps/_workspace/src/github.com/gorilla/websocket/conn.go:128-134 | masking in pieces, carrying the position modulo 4, is masking at once |
| Bytes.MaskOfZeros | Godeps/_workspace/src/github.com/gorilla/websocket/conn.go:128-134 | masking four zero bytes from the start gives the key, so its first byte meets the first byte of the data |
| Bytes.MaskIsLinear | Godeps/_workspace/src/github.com/gorilla/websocket/conn.go:128-134 | masking combines the data with bytes that do not depend on the data; with the two laws above this fixes every masked byte |
| Bytes.BigEndianRoundTrip | Godeps/_workspace/src/github.com/gorilla/websocket/conn.go:365 | a length that fits k bytes survives being written and read in big-endian order |
| Bytes.FromBigEndianRoundTrip | Godeps/_workspace/src/github.com/gorilla/websocket/conn.go:365 | bytes read in big-endian order and written again are the same bytes |
| Bytes.FirstByteWeighsMost | Godeps/_workspace/src/github.com/gorilla/websocket/conn.go:365 | the first byte of a number has the highest weight |
| Frames.OkMeansLegal | Godeps/_workspace/src/github.com/gorilla/websocket/conn.go:221-398 | the log of a frame list is in order if and only if every single frame may follow those before it: nothing after a close frame, control frames whole and at most 125 bytes, a message's own opcode only when none is unfinished, continuation only when one is |
| Connection.SentIsLegal | Godeps/_workspace/src/github.com/gorilla/websocket/conn.go:221-398 | in every reachable state, of runs that write, read or do both, each frame sent may follow those before it, the wire holds exactly their encodings, closeSent tells whether one is a close frame, and the next frame is a continuation exactly when the last data frame was not final |
| Connection.StillValid | Godeps/_workspace/src/github.com/gorilla/websocket/conn.go:647-683 | reading sends nothing but replies, so it keeps the invariant of the writing side and the message being written |
| Connection.Conn.constructor | Godeps/_workspace/src/github.com/gorilla/websocket/conn.go:173-197 | a new connection has nothing on the wire, no pending message, and a buffer of 14 bytes plus the requested (or default) size; its read side stands before the given input |
| Connection.Conn.WriteLocked | Godeps/_workspace/src/github.com/gorilla/websocket/conn.go:221-245 | one frame is sent whole or, after a close frame, not at all, whatever control messages others send while the lock is awaited; it is sent for certain if no close frame was and nobody else closes |
| Connection.Conn.WriteControl | Godeps/_workspace/src/github.com/gorilla/websocket/conn.go:249-304 | exactly when the type is a control type, the data is at most 125 bytes and no close frame was sent, one final frame with that data goes out; otherwise nothing is sent; open messages are untouched |
| Connection.ControlHeader | Godeps/_workspace/src/github.com/gorilla/websocket/conn.go:257-261 | the two bytes that start a control frame are the first byte of a final frame of that type and the length field of its data |
| Connection.PutHeader | Godeps/_workspace/src/github.com/gorilla/websocket/conn.go:345-375 | first byte and shortest length field are right-aligned so that, with a client's key, the header ends exactly at index 14; the data after it is untouched |
| Connection.Conn.BuildFrame | Godeps/_workspace/src/github.com/gorilla/websocket/conn.go:345-385 | the bytes from framePos to writePos, followed by the extra slice, are the encoding of the frame whose payload is the buffered data plus extra |
| Connection.Conn.FlushFrame | Godeps/_workspace/src/github.com/gorilla/websocket/conn.go:333-398 | a flush turns the pending message into one more frame on the wire, completing it exactly when final; exactly a control message that is not final or exceeds 125 bytes is refused, with nothing sent; after a close frame nothing is sent, and unless a close frame was sent or others close it cannot fail for that reason; 14 <= writePos <= len(writeBuf) is kept |
| Connection.Conn.NextWriter | Godeps/_workspace/src/github.com/gorilla/websocket/conn.go:314-331 | finishes the message still open, then starts an empty message of the given type; says exactly when a pending control message is refused; unknown types and sticky errors start none, and no close error arises unless somebody closes |
| Connection.MessageWriter.NCopy | Godeps/_workspace/src/github.com/gorilla/websocket/conn.go:416-428 | makes room for at least one byte without changing the pending message, or refuses exactly the control message that has filled the buffer; nothing else can fail unless somebody closes |
| Connection.MessageWriter.WritePart | Godeps/_workspace/src/github.com/gorilla/websocket/conn.go:430-455 | a live writer appends exactly the given bytes to the pending message, buffered or through the large-write path; it refuses exactly the control messages too long for the buffer or, on that path, for a frame, and otherwise fails only if somebody closes; a stale writer changes nothing |
| Connection.MessageWriter.Write | Godeps/_workspace/src/github.com/gorilla/websocket/conn.go:457-459 | a live writer appends exactly the given bytes to the pending message; data always succeeds unless a close frame was sent or others close, and a control message is refused exactly when it is too long; a stale writer changes nothing |
| Connection.MessageWriter.WriteString | Godeps/_workspace/src/github.com/gorilla/websocket/conn.go:461-477 | the same as Write for strings, with the size of the buffer as the only bound on control messages |
| Connection.MessageWriter.ReadFrom | Godeps/_workspace/src/github.com/gorilla/websocket/conn.go:479-502 | a live writer appends all that the reader delivers, in any chunks, to the pending message, and for data always succeeds unless somebody closes; a control message that does not fit the buffer is refused, and one that fits with room to spare is not; the count returned is what was taken from the reader, also on an error |
| Connection.MessageWriter.Close | Godeps/_workspace/src/github.com/gorilla/websocket/conn.go:504-509 | the pending message becomes the last completed message on the wire and the writer becomes stale, always for data unless somebody closes, and for control messages exactly up to 125 bytes; a stale writer changes nothing |
| Connection.Conn.WriteMessage | Godeps/_workspace/src/github.com/gorilla/websocket/conn.go:513-528 | one completed message with that type and data is added to what the peer will receive, after the message still open, if any; on an idle connection on which nobody else closes the outcome is exactly the one that type, size, buffer and an earlier close determine; a failure says which of the two failed, why, and that nothing of the failed one passes for a message |
| EndToEnd.ShortBufferExample | Godeps/_workspace/src/github.com/gorilla/websocket/conn.go:416-455 | a ping of 20 bytes with a write buffer of 10 is refused by WriteMessage and sent by WriteControl |
| RoundTrip.ShortestForm | Godeps/_workspace/src/github.com/gorilla/websocket/conn.go:361-375 | the length field parses back to the length, and no length field of section 5.2 of RFC 6455 for that length is shorter |
| RoundTrip.FirstByteNumber | Godeps/_workspace/src/github.com/gorilla/websocket/conn.go:345-353 | the first byte of a header is 128 for a final frame plus the opcode |
| RoundTrip.LengthFieldNumber | Godeps/_workspace/src/github.com/gorilla/websocket/conn.go:350-375 | the second byte is 128 for a masked frame plus the length, or 126 or 127 for the longer forms |
| RoundTrip.HeaderRoundTrip | Godeps/_workspace/src/github.com/gorilla/websocket/conn.go:557-632 | for every final flag, opcode, role, key and length below 2^63 the parser recovers from an encoded header the same flag, opcode, length and key, whatever follows |
| WireExamples.UnmaskedHello | Godeps/_workspace/src/github.com/gorilla/websocket/conn.go:345-385 | the unmasked text message of section 5.7 of RFC 6455, whole and in two fragments, byte by byte |
| WireExamples.MaskedHello | Godeps/_workspace/src/github.com/gorilla/websocket/conn.go:345-385 | the masked text message of section 5.7 of RFC 6455, byte by byte |
| WireExamples.MaskedHelloRead | Godeps/_workspace/src/github.com/gorilla/websocket/conn.go:557-762 | a server that is sent those bytes reads that message |
| WireExamples.ControlFrames | Godeps/_workspace/src/github.com/gorilla/websocket/conn.go:257-273 | the ping and the masked pong of section 5.7 of RFC 6455 and an empty close frame, byte by byte |
| WireExamples.LongFrames | Godeps/_workspace/src/github.com/gorilla/websocket/conn.go:361-375 | the headers of the messages of 256 and 65536 bytes of section 5.7 of RFC 6455, byte by byte |
| RoundTrip.DeclaredRoundTrip | Godeps/_workspace/src/github.com/gorilla/websocket/conn.go:557-632 | a header that declares any length below 2^64 is parsed to its flag, opcode and key and to that length read as an int64 |
| RoundTrip.RefusesExactlyIllegal | Godeps/_workspace/src/github.com/gorilla/websocket/conn.go:574-625 | a frame is answered with a protocol error if and only if it breaks a fragmentation or control-frame rule or has the wrong mask bit |
| RoundTrip.NamesTheViolation | Godeps/_workspace/src/github.com/gorilla/websocket/conn.go:574-625 | a refused frame is reported with the rule it breaks and answered with one close frame of code 1002 and the text of that rule |
| RoundTrip.NamesReservedBits | Godeps/_workspace/src/github.com/gorilla/websocket/conn.go:569-578 | so is a header with reserved bits |
| Reading.ViolationTexts | Godeps/_workspace/src/github.com/gorilla/websocket/conn.go:574-625 | the texts that violations are reported with |
| RoundTrip.ControlPassesBy | Godeps/_workspace/src/github.com/gorilla/websocket/conn.go:647-683 | a ping or pong is consumed whole, unmasked for a server, and leaves readRemaining at 0 and readFinal as it was |
| RoundTrip.CloseRoundTrip | Godeps/_workspace/src/github.com/gorilla/websocket/conn.go:664-683 | the code and the text of a close frame reach the application, and a close frame without a code is reported with code 1005 |
| Reading.AsciiIsText | Godeps/_workspace/src/github.com/gorilla/websocket/conn.go:686-689 | a text is sent character by character |
| Reading.AdvanceAsks | Godeps/_workspace/src/github.com/gorilla/websocket/conn.go:557-689 | in every state and on every input, a step asks for one pong after a ping, for exactly the close frame that fits its failure (code 1002 and a text, code 1009, or empty in answer to a close frame; none at the end of the stream), and for nothing else |
| Reading.SeekAsks | Godeps/_workspace/src/github.com/gorilla/websocket/conn.go:647-689 | finding the next message asks for no close frame, unless it fails: then, last, for the one that fits |
| Reading.DeliverAsks | Godeps/_workspace/src/github.com/gorilla/websocket/conn.go:647-689 | so does reading a message to its end, or to the end of the stream in a payload |
| Reading.Int64Range | Godeps/_workspace/src/github.com/gorilla/websocket/conn.go:609-618 | a length or a sum is read as the congruent int64 |
| Connection.Conn.BrRead | Godeps/_workspace/src/github.com/gorilla/websocket/conn.go:546 | the buffered reader delivers any non-empty prefix of what is there |
| Connection.Conn.ReadFull | Godeps/_workspace/src/github.com/gorilla/websocket/conn.go:542-555 | reads exactly k bytes across any chunks or reports a short stream |
| Connection.Conn.AdvanceFrame | Godeps/_workspace/src/github.com/gorilla/websocket/conn.go:557-684 | for every state and input, the frame type or error and the whole new read state are those of the parsing function, and exactly the replies it asks for go out, in order |
| Connection.Conn.Answer | Godeps/_workspace/src/github.com/gorilla/websocket/conn.go:649-681 | a reply goes out as one control frame with that payload, unless a close frame was sent before |
| Connection.Conn.TakePayload | Godeps/_workspace/src/github.com/gorilla/websocket/conn.go:634-684 | enforces the read limit with int64 arithmetic, answers a ping with a pong of the same payload and a close with an empty close, on the wire |
| EndToEnd.CloseAnsweredExample | Godeps/_workspace/src/github.com/gorilla/websocket/conn.go:671-683 | a client that reads 88 00 reports the close, has answered it with one empty close frame, and can write no more |
| Connection.Conn.NextReader | Godeps/_workspace/src/github.com/gorilla/websocket/conn.go:699-715 | finds the first data frame, skipping control frames and what is left of the current message, or keeps the error for good; the writing side stays valid |
| Connection.MessageReader.Read | Godeps/_workspace/src/github.com/gorilla/websocket/conn.go:722-762 | each call delivers the next bytes of the message, for every chunking, or reports how the message ends; stale readers deliver nothing |
| Connection.MessageReader.ReadAll | Godeps/_workspace/src/github.com/gorilla/websocket/conn.go:722-762 | reading until EOF yields exactly the bytes the message still has, and no error exactly when it is complete or the stream ended inside a payload |
| Connection.Conn.ReadMessage | Godeps/_workspace/src/github.com/gorilla/websocket/conn.go:766-774 | returns the type and all bytes of the next message, or the error, and remembers how the message ended; the writing side stays valid |
| RoundTrip.ChunkIndependence | Godeps/_workspace/src/github.com/gorilla/websocket/conn.go:730-741 | reading n bytes and then the rest delivers the same as reading on at once, for every n |
| RoundTrip.OpenMessage | Godeps/_workspace/src/github.com/gorilla/websocket/conn.go:722-762 | over any continuation frames, pings and pongs a reader delivers exactly the data of the continuation frames, whether or not the message completes, and then stands at the bytes after them, at the end of its message exactly when the last one was final |
| RoundTrip.FramesHeard | Godeps/_workspace/src/github.com/gorilla/websocket/conn.go:557-762 | reading any rule-abiding frames within the limit gives an application exactly the messages they complete and the bytes of the one they leave open, and asks for a pong with its data for every ping, in order, whatever bytes follow |
| RoundTrip.StreamRoundTrip | Godeps/_workspace/src/github.com/gorilla/websocket/conn.go:333-455 | from the bytes of any rule-abiding frames sent by one role, the other role receives exactly the messages those frames complete, in order, the bytes of the one left open, and the error that ends the stream, up to the first frame that fails the read limit check (sections 5.2 to 5.4 of RFC 6455) |
| RoundTrip.ControlsInvisible | Godeps/_workspace/src/github.com/gorilla/websocket/conn.go:647-683 | removing pings and pongs from a stream leaves its messages, its open message and its end as they were |
| RoundTrip.ControlTransparency | Godeps/_workspace/src/github.com/gorilla/websocket/conn.go:557-762 | two streams that differ only in pings and pongs between the frames give an application the same messages, the same bytes of a message cut off, and the same final error, with any read limit (sections 5.4 and 5.5 of RFC 6455) |
| EndToEnd.ShortFrames | Godeps/_workspace/src/github.com/gorilla/websocket/conn.go:333-398 | no frame is longer than the message it belongs to |
| EndToEnd.WireReceived | Godeps/_workspace/src/github.com/gorilla/websocket/conn.go:173-197 | whatever a connection has put on the wire, a fresh peer receives exactly its completed messages |
| EndToEnd.SendMessage | Godeps/_workspace/src/github.com/gorilla/websocket/conn.go:430-509 | on any idle connection, any chunks written with Write, WriteString or ReadFrom and closed become one completed message with those bytes, always if no close frame was sent and nobody else closes; otherwise that or no message is completed |
| EndToEnd.Transfer | Godeps/_workspace/src/github.com/gorilla/websocket/conn.go:430-528 | any chunks written with Write, WriteString or ReadFrom and closed, with any buffer size, role and keys and any other control messages sent by others, always arrive with the same type and bytes unless others send close frames; then they arrive if no close frame is among the frames sent, and if one is, no message is completed |
| EndToEnd.EchoReadAll | Godeps/_workspace/src/github.com/gorilla/websocket/examples/autobahn/server.go:86-130 | an echo server that reads and writes on one connection sends back exactly the messages before the first invalid text, in order, however the stream ends, or a prefix of them when other goroutines send a close frame; it ends with the error that ends the stream, and a message cut in a payload is echoed as if it were complete |
| ReadLimit.LimitRespected | Godeps/_workspace/src/github.com/gorilla/websocket/conn.go:638-642 | with a read limit set, the reader that NextReader hands out delivers no more bytes than the limit as long as frame lengths and their sums stay below 2^63, whatever was discarded before |
| ReadLimit.LimitHoldsUnlessWrapped | Godeps/_workspace/src/github.com/gorilla/websocket/conn.go:638-642 | for any data frame whose header is accepted, last or not, with any int64 length, negative ones included, and whatever arrives of its payload, the limit holds for the message if and only if the true sum is within it; when lengths were counted truly before, that is if and only if the int64 sum does not wrap |
| ReadLimit.LimitHoldsOnStreams | Godeps/_workspace/src/github.com/gorilla/websocket/conn.go:638-642 | on any rule-abiding stream, with any 64-bit lengths in its headers and cut anywhere in its last frame, every message delivered, whole or in part, is within the limit if and only if each frame that passes the int64 check would pass it with the bytes truly read |
| ReadLimit.TrueUnlessWrapped | Godeps/_workspace/src/github.com/gorilla/websocket/conn.go:638-642 | on whole streams with lengths below 2^63 that condition is that no sum of lengths reaches 2^63 before a message exceeds the limit |
| ReadLimit.LimitExceededExample | Godeps/_workspace/src/github.com/gorilla/websocket/conn.go:638-642 | a concrete stream from which a fresh client with read limit 1 is given a message of which two bytes are delivered |
| ReadLimit.NegativeLengthExample | Godeps/_workspace/src/github.com/gorilla/websocket/conn.go:606-642 | a client with read limit 1 is sent a header with the length 2^64-1 and then a frame of two bytes, and delivers both |
| ReadLimit.NegativeHeard | Godeps/_workspace/src/github.com/gorilla/websocket/conn.go:606-642 | a data frame header with a length of 2^63 or more is, to an application, an empty frame: what follows it is the next header |
| ReadEdges.DiscardedFramesCount | Godeps/_workspace/src/github.com/gorilla/websocket/conn.go:699-715 | when NextReader discards the rest of a message, any continuation frames with pings and pongs among them and part of the current frame, the next message is accepted if and only if its first frame and all the whole frames discarded fit the limit together |
| ReadEdges.DiscardedFramesExample | Godeps/_workspace/src/github.com/gorilla/websocket/conn.go:699-715 | a client with read limit 1 skips a message of one byte and is refused the next message of one byte |
| ReadEdges.CutStream | Godeps/_workspace/src/github.com/gorilla/websocket/conn.go:557-762 | for any stream that ends inside a frame, first frame or continuation or control, what the application gets: only a cut in the payload of a data frame looks like the end of the message, any other is an unexpected EOF |
| ReadEdges.CutFrame | Godeps/_workspace/src/github.com/gorilla/websocket/conn.go:730-760 | the reader of an open message reports an unexpected EOF if and only if the stream ends in a header or inside a control frame, after any frames; a cut in the payload of a data frame that passed the limit check looks like the end of the message |
| ReadEdges.CutPingExample | Godeps/_workspace/src/github.com/gorilla/websocket/conn.go:647-658 | a stream cut inside the payload of a ping between fragments is reported as unexpected EOF |
| ReadEdges.CutDataExample | Godeps/_workspace/src/github.com/gorilla/websocket/conn.go:730-741 | a stream cut after one of two bytes of a message delivers that byte and ends the message without an error |
| ReadEdges.CutWhileDiscarding | Godeps/_workspace/src/github.com/gorilla/websocket/conn.go:559-565 | a stream that ends in a payload that NextReader discards is reported as a plain EOF |
| Utf8Decoder.Decode | Godeps/_workspace/src/github.com/gorilla/websocket/examples/autobahn/server.go:237-246 | decode is total on the nine states and stays within them |
| Utf8Decoder.ClassOfByte | Godeps/_workspace/src/github.com/gorilla/websocket/examples/autobahn/server.go:215-224 | the first 256 entries of the table are the twelve byte classes |
| Utf8Decoder.NextOfClass | Godeps/_workspace/src/github.com/gorilla/websocket/examples/autobahn/server.go:225-230 | the other 144 entries are the transitions between the nine states |
| Utf8Decoder.TableTransition | Godeps/_workspace/src/github.com/gorilla/websocket/examples/autobahn/server.go:237-246 | every transition of decode is the stated one on byte ranges |
| Utf8Decoder.AcceptsExactlyWellFormed | Godeps/_workspace/src/github.com/gorilla/websocket/examples/autobahn/server.go:215-246 | the automaton accepts exactly the sequences of characters of section 4 of RFC 3629 |
| Utf8Decoder.RejectsAtEarliestByte | Godeps/_workspace/src/github.com/gorilla/websocket/examples/autobahn/server.go:215-246 | it rejects exactly when no continuation is well-formed, hence at the earliest byte |
| Utf8Decoder.DecoderMeansGrammar | Godeps/_workspace/src/github.com/gorilla/websocket/examples/autobahn/server.go:237-246 | decode folded from the start is in accept exactly on well-formed sequences and out of reject exactly on their prefixes |
| Utf8Decoder.RejectAbsorbs | Godeps/_workspace/src/github.com/gorilla/websocket/examples/autobahn/server.go:232-246 | reject is never left |
| Utf8Decoder.ScalarIsChar | Godeps/_workspace/src/github.com/gorilla/websocket/examples/autobahn/server.go:237-246 | the encoding of section 3 of RFC 3629 of every scalar value is a character spelling that value |
| Utf8Decoder.CharIsScalar | Godeps/_workspace/src/github.com/gorilla/websocket/examples/autobahn/server.go:237-246 | every character spells a scalar value whose encoding is that character, so overlong forms, surrogates and values above 10FFFF are out |
| Utf8Decoder.CharDecoded | Godeps/_workspace/src/github.com/gorilla/websocket/examples/autobahn/server.go:237-246 | each time decode returns to accept, x is the scalar value of the bytes since the last accept |
| Utf8Decoder.EncodedIsDecoded | Godeps/_workspace/src/github.com/gorilla/websocket/examples/autobahn/server.go:237-246 | running decode over the encoding of any scalar values yields those values |
| Utf8Decoder.DecodedIsEncoded | Godeps/_workspace/src/github.com/gorilla/websocket/examples/autobahn/server.go:237-246 | the values decode yields for a well-formed sequence encode back to it |
| Utf8Validator.Validator.Examine | Godeps/_workspace/src/github.com/gorilla/websocket/examples/autobahn/server.go:176-192 | the answer to a Read is invalid UTF-8 exactly when what was seen cannot be continued, or EOF comes inside a character; otherwise the reader's own error passes |
| Utf8Validator.Validator.Read | Godeps/_workspace/src/github.com/gorilla/websocket/examples/autobahn/server.go:176-192 | passes on the bytes of its reader and judges everything seen so far |
| Utf8Validator.ReadToEnd | Godeps/_workspace/src/github.com/gorilla/websocket/examples/autobahn/server.go:176-192 | over every chunking of a source, reading to the end reports invalid UTF-8 if and only if the whole source is not well-formed |
| Utf8Validator.ReadStacked | Godeps/_workspace/src/github.com/gorilla/websocket/examples/autobahn/server.go:43-53 | a validator over a validator answers every Read as the inner one does |
| Utf8Validator.StackingIsIdempotent | Godeps/_workspace/src/github.com/gorilla/websocket/examples/autobahn/server.go:43-53 | over any run of deliveries, two stacked validators answer like one, bytes and errors |
| PayloadCodec.LengthRoundTrip | Godeps/_workspace/src/github.com/googollee/go-engine.io/parser/payload.go:165 | parsing the decimal form of a length gives the length |
| PayloadCodec.ShiftRoundTrip | Godeps/_workspace/src/github.com/googollee/go-engine.io/parser/payload.go:49-51 | shifting digits down and up again restores them |
| PayloadCodec.HeaderRoundTrip | Godeps/_workspace/src/github.com/googollee/go-engine.io/parser/payload.go:140-168 | in both forms the first delimiter ends the length header, which parses to the body's length; the form is told by the first byte |
| PayloadCodec.PacketRoundTrip | Godeps/_workspace/src/github.com/googollee/go-engine.io/parser/payload.go:140-170 | opening an encoded packet gives its type, kind and data, and closing it leaves the stream at the first byte after it, whatever the data |
| PayloadCodec.PayloadRoundTrip | Godeps/_workspace/src/github.com/googollee/go-engine.io/parser/payload.go:40-170 | decoding the payload of any packets, in either form, yields those packets |
| PayloadCodec.TypeNumbers | Godeps/_workspace/src/github.com/googollee/go-engine.io/parser/packet.go:25-61 | the seven types are the bytes 0 to 6 in the order of their definition, and no other byte is a type |
| PayloadCodec.BinaryLayout | Godeps/_workspace/src/github.com/googollee/go-engine.io/parser/payload.go:40-97 | a packet of a binary payload starts with 1 if it is binary and 0 if it is text, then come the digits of its length as numbers, 255, the type and the data |
| PayloadCodec.StringLayout | Godeps/_workspace/src/github.com/googollee/go-engine.io/parser/payload.go:40-97 | a packet of a string payload is its length in decimal, a colon, the letter b if it is binary, the type digit, and the data, in base64 if it is binary |
| PayloadCodec.ShiftedDigits | Godeps/_workspace/src/github.com/googollee/go-engine.io/parser/payload.go:48-51 | a digit becomes its number |
| PayloadCodec.FirstDigitWeighsMost | Godeps/_workspace/src/github.com/googollee/go-engine.io/parser/payload.go:165 | the first digit of a length has the highest weight |
| PayloadCodec.NoLeadingZero | Godeps/_workspace/src/github.com/googollee/go-engine.io/parser/payload.go:45-48 | lengths are printed without leading zeros |
| PayloadCodec.ParseIntSigns | Godeps/_workspace/src/github.com/googollee/go-engine.io/parser/payload.go:165 | a length may carry a sign, and one that is not an int64 is refused |
| PayloadCodec.NoDigits | Godeps/_workspace/src/github.com/googollee/go-engine.io/parser/payload.go:165 | a sign alone, or nothing, is not a length |
| PayloadCodec.NotANumber | Godeps/_workspace/src/github.com/googollee/go-engine.io/parser/payload.go:165 | a length with any other character is refused |
| PayloadCodec.BinaryPackets | Godeps/_workspace/src/github.com/googollee/go-engine.io/parser/payload.go:40-97 | the bytes of three packets in the binary form |
| PayloadCodec.StringPackets | Godeps/_workspace/src/github.com/googollee/go-engine.io/parser/payload.go:40-97 | the bytes of the same packets in the string form |
| PayloadCodec.NoDelimiter | Godeps/_workspace/src/github.com/googollee/go-engine.io/parser/payload.go:140-153 | a payload without the delimiter of its form is at its end |
| PayloadCodec.BadLength | Godeps/_workspace/src/github.com/googollee/go-engine.io/parser/payload.go:165-168 | a length that is not a number is invalid input, and the stream stands after the delimiter |
| PayloadCodec.BadBinaryLength | Godeps/_workspace/src/github.com/googollee/go-engine.io/parser/payload.go:159-168 | the same in the binary form |
| PayloadCodec.BadType | Godeps/_workspace/src/github.com/googollee/go-engine.io/parser/packet.go:128-159 | a packet of an unknown type is reported and drained |
| PayloadCodec.EmptyPacket | Godeps/_workspace/src/github.com/googollee/go-engine.io/parser/packet.go:128-147 | an empty packet, or one cut before its type, is an end of file |
| Base64.RoundTrip | Godeps/_workspace/src/github.com/googollee/go-engine.io/parser/packet.go:94-104 | decoding undoes the encoding of section 4 of RFC 4648 |
| Base64.CharsAreAlphabet | Godeps/_workspace/src/github.com/googollee/go-engine.io/parser/packet.go:94-104 | the characters are those of table 1 of RFC 4648, in order |
| Base64.GroupsInOrder | Godeps/_workspace/src/github.com/googollee/go-engine.io/parser/packet.go:94-104 | the four groups of six bits are the bits of the three bytes, in order |
| Base64.TestVectors | Godeps/_workspace/src/github.com/googollee/go-engine.io/parser/packet.go:94-104 | test vectors of section 10 of RFC 4648 |
| Base64.StripBreak | Godeps/_workspace/src/github.com/googollee/go-engine.io/parser/packet.go:148 | a line break inside base64 data is skipped |
| Base64.MalformedExamples | Godeps/_workspace/src/github.com/googollee/go-engine.io/parser/packet.go:148 | line breaks are skipped, and misplaced padding or a cut group is refused |
| Payload.ShiftDownInPlace | Godeps/_workspace/src/github.com/googollee/go-engine.io/parser/payload.go:48-51 | the in-place loop subtracts '0' from every byte |
| Payload.ShiftUpInPlace | Godeps/_workspace/src/github.com/googollee/go-engine.io/parser/payload.go:159-164 | the in-place loop over the aliased line adds '0' to every byte |
| Payload.PayloadEncoder.Append | Godeps/_workspace/src/github.com/googollee/go-engine.io/parser/payload.go:56-58 | the locked section of Close queues one buffer at the end |
| Payload.PayloadEncoder.TakeAll | Godeps/_workspace/src/github.com/googollee/go-engine.io/parser/payload.go:101-104 | the locked section of EncodeTo takes the whole queue |
| Payload.PayloadEncoder.EncodeTo | Godeps/_workspace/src/github.com/googollee/go-engine.io/parser/payload.go:100-116 | while other goroutines close packets and take the queue, writes exactly the batch it took, in order, through any partial writes; it fails exactly when the writer runs out of room, and then a proper prefix has been written and the batch is gone from the queue |
| Payload.LostBatchExample | Godeps/_workspace/src/github.com/googollee/go-engine.io/parser/payload.go:100-116 | a packet that was taken and could not be written is in no output and in no queue |
| Payload.Conservation | Godeps/_workspace/src/github.com/googollee/go-engine.io/parser/payload.go:56-116 | for every interleaving of locked sections, the batches taken followed by what is queued are the closed packets' encodings, each once and in Close order |
| Payload.EncoderConserves | Godeps/_workspace/src/github.com/googollee/go-engine.io/parser/payload.go:56-116 | in every state of an encoder, the batches taken followed by the queue are the closed packets' encodings in Close order, and so are the bytes EncodeTo writes for them followed by the bytes still queued |
| Payload.PacketEncoder.Write | Godeps/_workspace/src/github.com/googollee/go-engine.io/parser/packet.go:107-109 | appends to the data of the packet |
| Payload.PacketEncoder.Close | Godeps/_workspace/src/github.com/googollee/go-engine.io/parser/payload.go:40-61 | queues exactly the encoding of the packet written |
| Payload.LimitReader.Read | Godeps/_workspace/src/github.com/googollee/go-engine.io/parser/limit_reader.go:19-29 | delivers the next of the remaining bytes and never one beyond them |
| Payload.LimitReader.Close | Godeps/_workspace/src/github.com/googollee/go-engine.io/parser/limit_reader.go:31-45 | drains what remains, so that the stream stands right after it |
| Payload.PacketDecoder.ReadRaw | Godeps/_workspace/src/github.com/googollee/go-engine.io/parser/packet.go:171-173 | partial reads never move the place where Close will leave the stream |
| Payload.PacketDecoder.ReadAll | Godeps/_workspace/src/github.com/googollee/go-engine.io/parser/packet.go:171-173 | reading to EOF gives the packet's data |
| Payload.PacketDecoder.Close | Godeps/_workspace/src/github.com/googollee/go-engine.io/parser/packet.go:186-191 | leaves the stream at the next packet |
| Payload.PayloadDecoder.Next | Godeps/_workspace/src/github.com/googollee/go-engine.io/parser/payload.go:140-170 | for every input, the opened packet or the error, and where the stream stands, are those of the specification |
| Payload.PayloadDecoder.NewDecoder | Godeps/_workspace/src/github.com/googollee/go-engine.io/parser/packet.go:128-168 | for every length and input, opens the packet or fails, draining it, as the specification says |
| Payload.Receive | Godeps/_workspace/src/github.com/googollee/go-engine.io/parser/payload.go:140-170 | looping over Next, reading to EOF and Close yields all packets of the input |
| Payload.Exchange | Godeps/_workspace/src/github.com/googollee/go-engine.io/parser/payload.go:40-170 | packets encoded, drained with EncodeTo and decoded come back unchanged in either form |
| FlagParsing.ParseConcat | Godeps/_workspace/src/github.com/ogier/pflag/flag.go:406-484 | parsing a command line is parsing its beginning and then the rest from where that ended: done, stopped, failed, or waiting for an argument |
| FlagParsing.BundleEquivalence | Godeps/_workspace/src/github.com/ogier/pflag/flag.go:451-465 | -abc parses as -a -b -c for boolean letters, with the same Set calls, actual map, arguments and outcome, if and only if the part before neither stops the parse nor waits for an argument |
| FlagParsing.GluedValueEquivalence | Godeps/_workspace/src/github.com/ogier/pflag/flag.go:466-479 | -nV parses as -n V under exactly the same condition |
| FlagParsing.SpellingsInContext | Godeps/_workspace/src/github.com/ogier/pflag/flag.go:406-484 | two spellings that parse alike on their own do so inside a command line if and only if options are still read there |
| FlagParsing.SpellingsDifferExample | Godeps/_workspace/src/github.com/ogier/pflag/flag.go:420-480 | after a terminator or a letter that waits for its argument, -ab and -a -b come out differently |
| FlagParsing.StoredInOrder | Godeps/_workspace/src/github.com/ogier/pflag/flag.go:406-424 | the stored arguments are a subsequence of the command line |
| FlagParsing.TerminatorKeepsRest | Godeps/_workspace/src/github.com/ogier/pflag/flag.go:420-424 | everything after a reached terminator is kept verbatim and sets no flag |
| FlagParsing.FirstPositionalKeepsRest | Godeps/_workspace/src/github.com/ogier/pflag/flag.go:410-415 | without interspersing, everything from the first positional on is kept verbatim and sets no flag |
| FlagParsing.PrintParse | Godeps/_workspace/src/github.com/ogier/pflag/flag.go:406-449 | settings printed as --name=value among positionals parse back to exactly those Set calls and positionals, in order |
| FlagParsing.RefusedSetting | Godeps/_workspace/src/github.com/ogier/pflag/flag.go:393-449 | a setting whose value is refused ends the parse as an invalid argument: the call was made and nothing is marked |
| FlagParsing.BareBoolean | Godeps/_workspace/src/github.com/ogier/pflag/flag.go:440-444 | a bare --name of a boolean flag parses as --name=true, except that a refusal is ignored |
| FlagParsing.BareNeedsBoolean | Godeps/_workspace/src/github.com/ogier/pflag/flag.go:430-444 | a bare --name of any other flag needs an argument, and one of no flag is unknown or a request for help; no Set call is made |
| FlagParsing.UnknownSetting | Godeps/_workspace/src/github.com/ogier/pflag/flag.go:430-439 | a setting of an undefined flag is unknown or a request for help |
| FlagParsing.BadNames | Godeps/_workspace/src/github.com/ogier/pflag/flag.go:425-429 | three dashes, or no name before the equals sign, are bad syntax |
| FlagParsing.LetterIsName | Godeps/_workspace/src/github.com/ogier/pflag/flag.go:451-480 | the letter of a boolean flag parses as its bare name, and any other letter with a value as the setting of its name |
| FlagParsing.LetterErrors | Godeps/_workspace/src/github.com/ogier/pflag/flag.go:451-475 | an unknown letter is an error or a request for help, and a last letter without its value is an error; no Set call is made |
| FlagParsing.MarkedExactly | Godeps/_workspace/src/github.com/ogier/pflag/flag.go:393-404 | after any parse, failed ones too, a name is marked as set if and only if it was before or one of the new Set calls on its flag was accepted |
| FlagParsing.ParseGrows | Godeps/_workspace/src/github.com/ogier/pflag/flag.go:406-484 | a parse only adds Set calls and arguments |
| Flags.FlagSet.VarP | Godeps/_workspace/src/github.com/ogier/pflag/flag.go:324-355 | says exactly when a definition panics and what it has entered by then; the maps agree afterwards in every case, and every shorthand stays registered unless a shorthand panic happened |
| Flags.ReusedShorthandExample | Godeps/_workspace/src/github.com/ogier/pflag/flag.go:324-355 | two definitions with one shorthand leave the second flag defined with a letter that leads to the first |
| Flags.FlagSet.Set | Godeps/_workspace/src/github.com/ogier/pflag/flag.go:219-233 | calls Set on the named flag and marks it exactly when that succeeds |
| Flags.FlagSet.SetFlagValue | Godeps/_workspace/src/github.com/ogier/pflag/flag.go:393-404 | calls Set and marks the flag exactly when that succeeds |
| Flags.FlagSet.ParseShort | Godeps/_workspace/src/github.com/ogier/pflag/flag.go:451-480 | the loop over a bundle does what the grammar says, including ignored errors of boolean flags |
| Flags.FlagSet.ParseLong | Godeps/_workspace/src/github.com/ogier/pflag/flag.go:425-449 | a long option does what the grammar says |
| Flags.FlagSet.ParseArgs | Godeps/_workspace/src/github.com/ogier/pflag/flag.go:406-484 | terminates on every argument list with the Set calls, marks, arguments and outcome of the grammar, and keeps the maps in agreement even when it fails |
| Flags.FlagSet.Parse | Godeps/_workspace/src/github.com/ogier/pflag/flag.go:490-505 | parses from an empty argument list and returns, exits or panics according to the error handling |

## Left out

- Deadlines, timers, transport errors, partial network writes and closing the network connection: foreign calls, assumed away.
- The handshake, dialing, TLS and the random source of masking keys: foreign calls; a key is any four bytes.
- Payloads of 2^63 bytes and more, which no sender has; headers that declare such lengths are covered in `ReadLimit`.
- User ping and pong handlers: only the default handlers are modelled.
- EndToEnd.EchoReadAll: the variant of echoReadAll that writes with WriteMessage is modelled; utf8.Valid of Go's standard library is taken to accept exactly well-formed UTF-8.
- The base64 stream wrappers of Go's standard library: taken to encode on Close and to decode everything read to EOF.
- ParseInt of Go's standard library: modelled at its documented behaviour for base 10 and 64 bits.
- PayloadDecoder.Next on a negative length: the model answers `Panicked` where the slice expression of limitReader.Read panics.
- The readers under a connection, a validator or a decoder report no error other than EOF and deliver at least one byte per non-empty read.
- PacketType values other than the seven named ones, which encode as noop.
- The wording of flag errors, usage output and process exit; a failed parse keeps only the kind of error.
- pflag's per-type values: Set is any function of the calls made so far that accepts or refuses.
- Flixy's own commands, main and models, engine.io polling and server timing, go-socket.io, logging and middleware: map bookkeeping, goroutine timing or wrappers.
