# A Dafny model of go-wirenet

go-wirenet carries named, message-delimited byte streams over yamux sessions. This project models the
parts of it that other code has to trust, and proves what they promise:

- **the chunk protocol of a stream** (`stream.go`): `ReadFrom`, `WriteTo`, `Writer`, `Reader` and the hub's
  `pipe`, as classes and loops over a connection whose reads may return any part of what was sent;
- **the generated message codec** (`testdata/frame.pb.go`): varints, `Size`, `MarshalTo`, the merging
  `Unmarshal` and the recursive `skipFrame`, on arrays and indices, for every input, malformed ones included;
- **the binary frame and the open-stream handshake** (`frame.go`, `session.go`);
- **the life of sessions and of a client wire** (`session.go`, `wirenet.go`): stream counting and draining,
  the close rendezvous, the hub's name index, reconnecting, as interleaved atomic steps of any number of actors;
- **the backoff policy and the connect loop** (`options.go`, `wirenet.go`).

`dafny verify dfyconfig.toml` checks the whole project.

## How it is built

Every imperative member of the source is a method of a class (or a method with the source's loop), proved
against a total specification function that also describes the error paths: a panic, an endless loop and a
wrapped-around index are outcomes, not preconditions. What the source promises is then proved about those
functions, over all inputs, by lemmas. Where a promise holds only under a condition, the condition is
proved to be exact.

- `Bytes`, `Io`: bytes, machine integers, little-endian words; a connection is an ordered byte queue in which
  a read at position `p` finds `window(p) + 1` bytes arrived, for an arbitrary function `window`. Every
  successful read moves the position, so this covers every fragmentation.
- `Varint`, `ProtoSkip`, `ProtoFrame`: the message codec; `ProtoRefusal`: how it ends on each input it does not accept.
- `ChunkWire`, `Receiving`, `Streams`, `StreamReader`, `Exchange`, `HubPipe`: the chunk protocol.
- `FrameCodec`, `Handshake`: frames and the opening of a stream.
- `StreamCounter`, `SessionClose`, `HubIndex`, `ClientWire`, `ConnectHang`, `Retry`: sessions and wires.

## Where the code does not do what one would expect

Each of these follows the code and has its exact condition: the first lemma named says when it happens
and when it does not, over all inputs or all reachable states. The others are concrete cases of it.

- A chunk header that arrives in two reads is lost, with the message behind it (`PullMessageExactly`; `SplitHeaderLosesMessage`).
- A chunk of more than 1024 bytes, which one `Writer.Write` sends, makes `WriteTo` panic (`PanicsExactly`; `LargeWritePanics`).
- A connection that ends where a header should start, or inside one, looks like the end of the message; one
  that fails there makes `WriteTo` loop forever (`PullCutMessage`; `CutLooksComplete`). `MessageOrCut` and
  `CutDoesNotParse` say that this, and the whole messages of `PullMessageExactly`, is all that can be on a line.
- `Reader` writes the second part of a split body over the first one (`WholeBodiesExactly`; `SplitBodyCorrupts`).
- A connection that ends or fails anywhere inside a message looks to the caller of `Read` like the end of the
  message after its last whole chunk (`ReadCutIsExact`, `DrainCut`).
- `ReadFrom` ends the message at a read of nothing, and drops bytes that come with the final error (`ReadFromFaithful`).
- A frame whose connection ends inside its body is filled up with zeros, without an error (`DecodeTruncated`; for
  whole frames `DecodeFrame`).
- A second `Decode` on one decoder is right only for a body of the first one's length (`ReusedDecoder`).
- `skipFrame` returns a negative index for a declared length that ends past the greatest int (`SkipWrapsExactly`; `GreatestLengthWraps`),
  and panics on one inside a group whose end wraps only when counted from the group's start; `Unmarshal` then panics
  too, and also where only the end counted from the start of the input wraps (`SkipPanicsExactly`, `UnmarshalPanicsExactly`).
- Closing a stream twice while another is open makes the counter too small, so that the session's drain can end
  too early (`CounterExact`; `DoubleCloseEndsDrainEarly`).
- Two callers can both pass the check in `session.Close`; the one that is not taken never returns (`ReturnsExactly`; `TwoCallersPassTheCheck`).
- Two sessions that share a name: when one leaves, the hub loses the other (`LeavingLosesExactly`; `SharedNameLosesOwner`). README.md:332 of the repository asks for unique names.
- `Connect`, waiting for its connection to end, may never be woken (`WakesExactly`): after a `Wire.Close` during
  the dial, which returns at once (`CloseWhileDialing`), or when a `Wire.Close` on a live connection loses the
  race for the session to another `Session.Close` (`CloseLosesRace`).
- `Wire.Close`, having set the flag, may never return (`CloseReturnsExactly`): in that race (`CloseLosesRace`), or
  when called during the session handshake (`CloseDuringHandshake`).
- `Session.Close` of a client, having taken its session off the map, may never return, when it saw the wire
  open and the goroutine took a `Wire.Close` first (`RemovalReturnsExactly`; `RemovalLosesRace`).

## Model

| member | source | states |
|---|---|---|
| Bytes.LittleEndianInverse | stream.go:104-125 | The header word and its decoding are inverse in both directions, so a header determines its size and a size its header. |
| Bytes.LeastFirst | stream.go:104-125 | The least significant byte goes first. |
| Varint.OrIsAddition | testdata/frame.pb.go:165-206 | On either word, or-ing in a group of seven bits, shifted within the word or out of it (as field Type's loop does past 31), is adding it modulo the word; and the place of the next group is still empty. |
| Varint.ScanVarintValue | testdata/frame.pb.go:165-178 | A decode loop on any varint of at most ten bytes, canonical or not, anywhere in the input, yields its value modulo 2^64, or modulo 2^32 for field Type, and stops right behind it. |
| Varint.ScanVarintOnly | testdata/frame.pb.go:193-206 | Conversely a decode loop of either width succeeds on nothing but a varint, and its result is that varint's value cut to the width. |
| Varint.ScanUnfinished | testdata/frame.pb.go:165-206 | Where the input ends before a varint does, either loop reports a truncation, with the value of the groups that are there cut to the word. |
| Varint.ScanEndless | testdata/frame.pb.go:165-206 | Where ten bytes in a row say that more follows, either loop reports an overflow, with the value of those ten groups cut to the word. |
| Varint.VarintOrNot | testdata/frame.pb.go:165-178 | There is no other case: where a loop fails, the rest of the input ends before a varint does or goes on for too long. |
| Varint.EncodeVarintInverse | testdata/frame.pb.go:120-128 | For every uint64 the encoding is a varint with that value, and no varint of the same value is shorter. |
| Varint.DecodeEncoded | testdata/frame.pb.go:165-178 | Decoding the encoding of v, at any index and before any suffix, yields v (v modulo 2^32 in field Type) after exactly its bytes. |
| Varint.ReadVarint | testdata/frame.pb.go:193-206 | The loop, which accumulates by or, computes the scan by sums on every input: the value, an overflow after ten continuation bytes, or a truncation, with the partial value that field Type keeps. |
| Varint.Sov | testdata/frame.pb.go:146-155 | The count is the length of the encoding, and it is the least number of seven-bit groups that hold the value. |
| Varint.PutVarint | testdata/frame.pb.go:120-128 | The array afterwards is the old one with exactly the encoding spliced in at the offset; the offset advances by its length. |
| ProtoSkip.SkipRecord | testdata/frame.pb.go:288-386 | On any well-formed field record (varint, fixed64, bytes, fixed32, groups nested to any depth) followed by anything, skipFrame returns exactly the record's length. |
| ProtoSkip.SkipOnly | testdata/frame.pb.go:288-386 | Conversely, whenever skipFrame succeeds within the input and the tag is no stray end-group, it stepped over exactly one well-formed record. |
| ProtoSkip.SkipGroupOnly | testdata/frame.pb.go:347-375 | The group loop succeeds only on a sequence of well-formed records and a matching end tag, and returns the index right behind it. |
| ProtoSkip.Skip | testdata/frame.pb.go:288-386 | Recursion terminates on every input, and a success never stays at index zero. |
| ProtoSkip.SkipWrapsExactly | testdata/frame.pb.go:326-346 | Exactly when: success with a negative index happens on a length-delimited field whose declared end exceeds the greatest int, and on nothing else. |
| ProtoSkip.GreatestLengthWraps | testdata/frame.pb.go:326-346 | Ten bytes on which it happens. |
| ProtoSkip.SkipOddities | testdata/frame.pb.go:376-386 | A stray end-group tag is stepped over alone, and the empty input makes skipFrame panic. |
| ProtoSkip.SkipFrame | testdata/frame.pb.go:288-386 | The recursive method with its group loop computes that function on every input, errors, wrap-around and panics included. |
| ProtoRefusal.SkipRefuses | testdata/frame.pb.go:288-386 | How skipFrame ends on an input that goes wrong, at any depth of open groups: truncated, overlong, illegal wire type, negative length, or a body past the end; which error, which index, or a panic, for each kind. |
| ProtoRefusal.SkipClassified | testdata/frame.pb.go:288-386 | Conversely every non-empty input on which skipFrame does not stop within the input goes wrong in one of those ways. |
| ProtoRefusal.SkipPanicsExactly | testdata/frame.pb.go:326-375 | Exactly when skipFrame panics on a non-empty input: a record inside a group declares a body that ends past the greatest int, counted from the start of the innermost group. |
| ProtoFrame.Frame.Size | testdata/frame.pb.go:129-144 | The size is exactly the length of the message's encoding. |
| ProtoFrame.Frame.MarshalTo | testdata/frame.pb.go:77-100 | Writes exactly the encoding at the start of any array with room for it, in bounds, leaves the rest alone, and returns its length. |
| ProtoFrame.Frame.Marshal | testdata/frame.pb.go:67-75 | The result is the encoding: neither cut nor padded. |
| ProtoFrame.Frame.Unmarshal | testdata/frame.pb.go:159-287 | On every input, the message's fields and the outcome are those of the field-by-field specification, also after an error or panic half-way. |
| ProtoFrame.UnmarshalFields | testdata/frame.pb.go:159-287 | Any sequence of well-formed fields is accepted, and the result is the fold of the fields over what the message held: last one wins, unknown fields leave no trace. |
| ProtoFrame.UnmarshalOnly | testdata/frame.pb.go:159-287 | Conversely nothing else is accepted: every accepted input is a sequence of well-formed fields with that fold as its result. |
| ProtoFrame.FieldsOfMarshal | testdata/frame.pb.go:77-100 | The encoding consists of well-formed fields, which merge the message's non-default fields into any other message. |
| ProtoFrame.UnmarshalMerges | testdata/frame.pb.go:159-287 | Marshal(a), any well-formed unknown fields, Marshal(b), decoded into any message: per field b's value if it is not the default, else a's, else the old one. |
| ProtoFrame.UnmarshalMarshal | testdata/frame.pb.go:67-100 | Unmarshal after Marshal is the identity. |
| ProtoRefusal.UnmarshalRefuses | testdata/frame.pb.go:159-287 | How Unmarshal ends on whole fields followed by a fault: which error or panic for each kind of fault, with the whole fields merged into the message and field Type as far as it was read. |
| ProtoRefusal.UnmarshalClassified | testdata/frame.pb.go:159-287 | Conversely every input that is not accepted is whole fields followed by such a fault. |
| ProtoRefusal.UnmarshalTruncated | testdata/frame.pb.go:229-246 | An input that ends inside a field, its own or an unknown one with groups in it, is refused as an unexpected end; the message holds the whole fields before it, and of a cut Type what was read. |
| ProtoRefusal.UnmarshalPanicsExactly | testdata/frame.pb.go:242-286 | Exactly when Unmarshal panics: a field or a group's record declares a body ending past the greatest int, and the wrap-around is not noticed as a negative length. |
| ChunkWire.ParseWire | stream.go:104-145 | A message's chunks behind their headers, and the marker, parse back to the same chunks and leave exactly what follows. |
| ChunkWire.ParseOnly | stream.go:111-145 | Conversely whatever parses is such a message of non-empty chunks followed by the rest. |
| ChunkWire.WireUnambiguous | stream.go:104-125 | The format delimits itself: two messages that start the same bytes are equal, and so are the rests. |
| ChunkWire.ReadFromFaithful | stream.go:202-241 | What ReadFrom sends is one message with all the source's bytes if and only if no read returned nothing without an error and no bytes came with the final error. |
| ChunkWire.SentIsWire | stream.go:202-241 | For a source that ends without bytes, what ReadFrom sends is one chunk per read and the marker, whatever the final error was. |
| ChunkWire.SentExactly | stream.go:202-241 | For any source, what ReadFrom sends is one chunk per read before the last, and the marker unless bytes came with an error other than EOF; bytes that come with the final error are never sent. |
| Receiving.PullMessage | stream.go:156-200 | WriteTo's loop takes exactly the chunks of a message and stops right behind its marker, for every fragmentation of the bodies, when chunks fit the buffer and headers arrive whole. |
| Receiving.PullMessageExactly | stream.go:111-145 | Exactly when: it takes any message a sender can write, no more and no less, if and only if each header arrives in one read and each chunk fits the buffer. |
| Receiving.PanicsExactly | stream.go:127-129 | Where headers arrive whole, the loop panics on a message if and only if one of its chunks exceeds the buffer. |
| Receiving.LargeWritePanics | stream.go:269-277 | One Writer.Write of 1025 bytes and Close: well-formed on the wire, a panic in WriteTo. |
| Receiving.PullAgreesWithParse | stream.go:156-200 | WriteTo's view of a line agrees with taking the message off the bytes, chunk for chunk and rest for rest. |
| Receiving.PullAccounts | stream.go:156-200 | On any line at all, a loop that ends at a marker has consumed at least the framing of every chunk it yields. |
| Receiving.HeaderOutcome | stream.go:111-125 | Every outcome of a header: the connection's end if nothing is left, a short buffer if fewer than four bytes arrive, which are then gone, EOF for the zero word, else the size. |
| Receiving.PullCutMessage | stream.go:111-145 | A connection that ends inside a message, headers whole: the loop panics exactly if something exceeds the buffer; else it yields the whole chunks, and ends without an error exactly if less than a header is left and the end is EOF, never ends exactly if less is left and the connection failed, and reports the end exactly if a header is left. |
| Receiving.CutLooksComplete | stream.go:167-170 | A chunk and half a header: the loop yields the chunk and ends without an error on bytes that are no message. |
| Receiving.MessageOrCut | stream.go:104-145 | Every input starts with a whole message, or is such a cut one. |
| Receiving.CutDoesNotParse | stream.go:104-145 | And never both: a cut message is no message. |
| Receiving.SplitHeaderLosesMessage | stream.go:111-118 | A well-formed message of four bytes whose first header comes in two parts: the loop yields nothing and stops inside the message. |
| Streams.Stream.ReadHeader | stream.go:111-125 | Size, error and new position on every line: a connection error, a short read, the zero header as EOF, or the size. |
| Streams.Stream.ReadBody | stream.go:127-145 | However the body is cut, it ends up in the buffer in order; if the line ends first, a partial count and EOF, or zero and the error. |
| Streams.Stream.Deliver | stream.go:178-189 | The sink receives a prefix of the chunk, all of it unless it reports an error, and the count is what it took. |
| Streams.Stream.WriteTo | stream.go:156-200 | On any line and any sink. Without a sink error the sink has exactly the chunks of the line and the line stands where the loop stopped; count and error are given for each reason to stop. After one, the sink has a prefix of those chunks, the count is its length, and the error is a short write if it cut a chunk, else its own. |
| Streams.Stream.WriteHeader | stream.go:97-109 | The length modulo 2^32 as a word, or a prefix of it with an error. |
| Streams.Stream.ReadFrom | stream.go:202-241 | On any source: without an error the connection grew by exactly what is to be sent, and the count is the source's bytes; with one it grew by a prefix of that, and the count is the payload in that prefix, or zero if it ends at a chunk's header; a closed stream on a closed session sends nothing. |
| Streams.Stream.SendChunk | stream.go:221-238 | A round of it: the header and the chunk go out whole, or a prefix of them, with the error of the one that failed and the count of what the body got. |
| Streams.Writer.Write | stream.go:269-277 | One chunk goes out whole, or a prefix of it with an error; the count is always the payload in it; nothing on a closed stream of a closed session. |
| Streams.Writer.Close | stream.go:279-281 | Exactly the marker goes out, or a prefix of it with an error. |
| StreamReader.ReadIsExact | stream.go:344-363 | Where headers and bodies arrive whole, for any non-empty destination: Read returns the next bytes of the current message, as many as fit; EOF exactly when the message is used up, and then the marker is consumed, the buffer is empty and the line stands right behind the message. |
| StreamReader.ReadCutIsExact | stream.go:344-363 | On a line of whole chunks and a cut rest, by EOF or by a failure: Read returns the next bytes of the whole chunks, as many as fit, never a byte of the rest, and EOF exactly when none is left; the flag is set exactly when it was, or when the line ends by EOF where a header should start and Read asked for more than is left. |
| StreamReader.ReadNothing | stream.go:344-363 | Read into an empty destination hands out nothing, keeps everything, and answers EOF exactly if the flag is set. |
| StreamReader.FillKeeps | stream.go:289-314 | However much is asked for, filling only moves bytes of the current message from the line into the buffer, and stops with enough of them or at the marker. |
| StreamReader.FillIsClean | stream.go:289-314 | On every line, a round that fails leaves the buffer alone and sets the flag exactly for a header that says EOF; one that succeeds adds as many bytes as the header announced and leaves the flag alone. |
| StreamReader.CloseAfterEof | stream.go:336-342 | Close after EOF discards nothing of the next message: the reader then holds all of it. |
| StreamReader.CloseBeforeEof | stream.go:336-342 | Close before EOF drops exactly the buffered bytes, and reading goes on inside the same message. |
| StreamReader.WholeBodiesExactly | stream.go:316-334 | Exactly when: a Reader gets every body of a size right if and only if it arrives in one read. |
| StreamReader.SplitBodyCorrupts | stream.go:316-334 | A two-byte body cut in two is returned as two different bytes, without an error. |
| StreamReader.BodyCut | stream.go:316-334 | A body that the line ends in gets the line's end as its error, on every schedule, with the count of what was there, or zero if the end is not EOF. |
| StreamReader.Reader.ReadBody | stream.go:316-334 | The loop that reads to the start of its destination each round, on every line and with whatever the destination held. |
| StreamReader.Reader.Fill | stream.go:289-314 | One chunk moves into the buffer, or the EOF flag is set, or an error leaves the buffer alone, on every line. |
| StreamReader.Reader.Read | stream.go:344-363 | The destination, count, error and new state on every line and destination; refused on a closed stream of a closed session. |
| Exchange.Send | stream.go:202-281 | A message by ReadFrom or by Writer.Write calls and Close adds exactly its wire form. |
| Exchange.CopyMessage | stream.go:156-200 | WriteTo on a message with whole headers and a sink that does not fail: it panics exactly if a chunk exceeds the buffer; else the sink has the message, the count is its length, there is no error, and the line stands right behind it. |
| Exchange.CopyCut | stream.go:156-200 | WriteTo on a connection that ends inside a message: panic and endless loop are given by if-and-only-ifs; otherwise the sink has all whole chunks, the count is their length, and the error is the connection's end if a header is left and none if not. |
| Exchange.Drain | stream.go:336-363 | Reading to EOF with any non-zero sizes and closing returns exactly the message and leaves the line right behind it. |
| Exchange.DrainCut | stream.go:336-363 | Read until EOF and Close, on a connection that ends inside a message: exactly the bytes of the whole chunks, never one of the cut rest. |
| Exchange.Receive | stream.go:156-363 | A message by WriteTo or by Reader is returned whole, and the line stands right behind it. |
| Exchange.Run | stream.go:156-363 | Any list of messages, each sent and each received by either interface, the sends and receives of whole messages interleaved in any way: the receiver gets exactly that list in order and nothing stays on the wire. |
| Io.EarlyRead | stream.go:111-145 | A read that comes while the sender is in the middle of a message returns what it would on the finished line under another fragmentation. |
| HubPipe.Pipe | stream.go:365-386 | Byte for byte under any chunking: everything unless the destination failed, a prefix if it did; an error is reported exactly for a failure or an end other than EOF. |
| HubPipe.Relay | session.go:221-239 | ReadFrom, then the hub's pipe, then WriteTo delivers the message as a direct connection does, when headers reach the last reader whole. |
| FrameCodec.AccessorsInvertFrame | frame.go:41-59 | Type, command, payload and lengths of an encoded frame are what was encoded, and the accessors stay in bounds. |
| FrameCodec.FillBodyCollects | frame.go:92-108 | A buffer of the right length receives the body in order however it is cut; a missing tail keeps what was in the buffer. |
| FrameCodec.DecodeFrame | frame.go:75-110 | A frame on the line decodes to itself and nothing past it is consumed, for every fragmentation of the body, if and only if its twelve-byte header arrives whole. |
| FrameCodec.DecodeOutcome | frame.go:75-82 | On every line, for a fresh or used decoder: no error if and only if twelve bytes arrive in the first read; the connection's end and nothing consumed if none is left; a short buffer in every other case. |
| FrameCodec.DecodedFrame | frame.go:83-109 | What it then returns: the header as it stands and the buffer with what was consumed written over its start; it stops only when the announced bytes are there, the buffer is full, or the line ends. |
| FrameCodec.DecodeTruncated | frame.go:92-109 | A connection that ends inside a frame's body, by EOF or by a failure: the frame with zeros for what is missing, and no error. |
| FrameCodec.ReusedDecoder | frame.go:89-91 | A decoder that has decoded before decodes the next frame right if and only if the body lengths agree. |
| FrameCodec.DecodedIsSliceable | frame.go:41-59 | Whatever a fresh decoder returns without an error, a truncated body included, the accessors stay in bounds. |
| FrameCodec.Encoder.Encode | frame.go:131-158 | Exactly the frame goes out and the encoder's buffer is empty again, or a prefix goes out with an error. |
| FrameCodec.Decoder.Decode | frame.go:75-110 | Frame, error and position on every line, for a fresh and for a used decoder. |
| FrameCodec.EncodeAll | frame.go:131-158 | A list of frames, one fresh encoder each, adds exactly their concatenation. |
| FrameCodec.DecodeAll | frame.go:75-110 | One fresh decoder each returns the same triples through the accessors and consumes exactly their bytes. |
| FrameCodec.Transfer | frame.go:41-158 | Encoding any list of frames onto a drained connection and decoding it gives the list back and drains the connection. |
| Handshake.Endpoint.Request | frame.go:160-163 | The request frame goes out whole, or a prefix of it with the connection's error. |
| Handshake.Endpoint.AwaitReply | frame.go:164-172 | An error or permission frame becomes an error with the frame's payload as its text; any other frame is returned; a peer that closed first gives the connection's error, and a cut header a short buffer. |
| Handshake.Endpoint.RecvFrame | frame.go:174-195 | The reply echoes the command, in a receive frame if the check accepts and else in an error frame with the check's text; a failed write returns no frame and leaves a prefix of the reply; a peer that closed first gives the connection's error and nothing is written. |
| Handshake.AdmissionNeedsBoth | session.go:147-178 | A stream is admitted exactly when the token check, if there is one, accepts and the peer has a session or handler for the name; a refused token's text comes first, and an unknown name's is that of the failed dispatch. |
| Handshake.OpenNamedStream | session.go:147-178 | The client gets its stream exactly then, over the wire, and otherwise the error with that text; both directions end empty. |
| Handshake.Endpoint.Conclude | session.go:328-336 | Against any peer: the stream opens exactly on a receive frame, or on a frame that echoes the name and is neither an error nor a permission frame; a refusal's text or the connection's error is passed on, and any other reply is an unexpected end. |
| Handshake.OpenStream | session.go:318-342 | For every name, token and validator: success exactly when the validator accepts, with the name echoed; else the client's error text is the validator's; the peer saw name and token; both directions end empty. |
| StreamCounter.CounterNeverExceedsStreams | session.go:86-100 | In every run of openings and closings, repeated closes included, the counter never exceeds the number of open streams. |
| StreamCounter.CounterExact | session.go:93-100 | It equals that number all along a run if and only if no stream is closed again while another one is open. |
| StreamCounter.DoubleCloseEndsDrainEarly | stream.go:255-263 | Two streams, one closed twice: the counter is zero with a stream still open. |
| StreamCounter.ForcedPassSuffices | session.go:118-131 | One pass that closes every stream brings the counter to zero if and only if it did not exceed the streams; otherwise no number of passes does. |
| StreamCounter.Session.CloseAllStreams | session.go:124-127 | The forced pass empties the map and lowers the counter once for each stream that was in it. |
| StreamCounter.Session.Drain | session.go:118-131 | Without concurrent registration the drain loop terminates with the counter at zero, whatever closes happen meanwhile: in the first round that finds it zero, with exactly those closes applied; or by the forced pass, exactly if no round within the timeout does, and then no stream is left open. |
| SessionClose.StepKeepsInv | session.go:108-145 | Every atomic step of callers, goroutine, streams and connection keeps the invariant of the close rendezvous. |
| SessionClose.CloseHappensOnce | session.go:299-316 | In every interleaving of any number of callers: at most one request is served, the goroutine closes the connection, the session is unregistered and the hook launched at most once each; an unregistered session has a closed connection. |
| SessionClose.UnregisterComesLast | session.go:118-145 | In every interleaving, unregistering comes after the connection was closed, and that after the drain saw a zero counter. |
| SessionClose.ReturnsExactly | session.go:299-316 | Exactly when: in every reachable state, a caller past the check can still return, in some continuation, if and only if its request was taken or the goroutine still receives. |
| SessionClose.DoomedForever | session.go:308-310 | Otherwise it is not taken in any later state of any continuation. |
| SessionClose.TwoCallersPassTheCheck | session.go:300-306 | There is an interleaving in which two callers pass the check and one is served. |
| HubIndex.IndexAgrees | wirenet.go:472-493 | In every run with distinct ids, each index entry points to a registered session that owns the name; with disjoint names the index is exactly the inverse of the sessions' names. |
| HubIndex.RegisterExact | wirenet.go:472-481 | Exactly when: registering keeps the index an inverse if and only if no registered session has one of the new names. |
| HubIndex.UnregisterExact | wirenet.go:483-493 | Unregistering keeps the index an inverse. |
| HubIndex.LeavingLosesExactly | wirenet.go:483-493 | Exactly when: after a session left, another registered one can no longer be found by its own name, if and only if the one that left had that name too. |
| HubIndex.FindSessionIsSearch | wirenet.go:253-264 | On an open wire with sessions the lookup answers as a search over all sessions would, hits and misses. |
| HubIndex.SharedNameLosesOwner | README.md:332 | Two sessions with the same name, the first leaves: the second is registered but cannot be found. |
| HubIndex.AdmissionAgreesWithRouting | session.go:147-158 | In any unchanged state, hub or not, a name is admitted exactly when dispatching resolves it, which is exactly when there is a session or handler for it; refusals carry the same error, and a hub prefers a session to a handler. |
| HubIndex.RefusedNames | wirenet.go:243-264 | Which error: a closed session exactly on a hub that is closed or has no sessions; an unknown handler exactly when there is none for the name and no such hub or index entry; never an unknown session. |
| HubIndex.Wire.RegisterSession | wirenet.go:472-481 | The session is in the map; on a hub all its names point to it, also those that pointed elsewhere; nothing else changed. |
| HubIndex.Wire.UnregisterSession | wirenet.go:483-498 | Session and names are gone; the wire is to be closed exactly if it is an open client's and has no session left. |
| ClientWire.StepKeepsInv | wirenet.go:309-498 | Every atomic step of the connect loop, shutdown goroutines, sessions and Close callers keeps the invariant of the client wire. |
| ClientWire.ReconnectIsClean | wirenet.go:309-372 | In every interleaving: at most one session is registered, the latest connection's; every dial starts with an empty session map, each earlier session registered and then unregistered once; no waitCh is closed twice. |
| ConnectHang.WakesExactly | wirenet.go:309-372 | Exactly when: in every reachable state in which the connect loop waits, some continuation wakes it, if and only if it is not stuck: neither is the flag set with nobody left to ask the goroutine, nor is the goroutine's Close of the session one that never returns. |
| ConnectHang.CloseReturnsExactly | wirenet.go:278-307 | Exactly when: in every reachable state, a Wire.Close that has set the flag and goes on to close() can still return if and only if a goroutine will listen on its channel, or took its request and is not stuck. |
| ConnectHang.CloseWhileDialing | wirenet.go:278-297 | There is an interleaving in which Wire.Close returns during a dial and the loop then waits with nobody left to wake it. |
| ConnectHang.CloseLosesRace | wirenet.go:439-470 | There is an interleaving, on a live connection, in which the shutdown goroutine's Close of the session and another one both pass its check and the other one is served: Wire.Close and Connect both hang. |
| ConnectHang.CloseDuringHandshake | wirenet.go:346-362 | There is an interleaving in which Wire.Close, called during the session handshake, offers on the channel of no goroutine. |
| ConnectHang.RemovalReturnsExactly | wirenet.go:483-498 | Exactly when: in every reachable state, a Session.Close that has taken its session off the map can get out of unregisterSession if and only if it is not to ask a goroutine that took a Wire.Close first. |
| ConnectHang.RemovalLosesRace | wirenet.go:495-497 | There is an interleaving in which it is: Session.Close never returns. |
| ConnectHang.StuckForever | wirenet.go:361-370 | From a stuck state on, in every continuation, the loop never stops waiting. |
| ConnectHang.CloseDoomedForever | wirenet.go:299-307 | And a doomed Wire.Close never returns. |
| ConnectHang.RemovalDoomedForever | wirenet.go:299-302 | Nor does a doomed Session.Close get out of unregisterSession. |
| Retry.PolicySaturates | options.go:123-130 | For 0 < min < 2^53 the policy is min doubled per attempt, cut off at the cap; overflow never shows. |
| Retry.PolicyCapped | options.go:123-130 | For every min that a float64 holds, zero and negative ones included, the delay is never above the cap, and below it it is min doubled per attempt. |
| Retry.PolicyMonotone | options.go:123-130 | A later attempt never waits less. |
| Retry.DoublingsExact | options.go:123-130 | The attempts that stay within the cap are exactly the first few, as many as min can double before it exceeds the cap. |
| Retry.TotalDelayClosedForm | options.go:123-130 | The delays of the first n attempts add up to (2^d - 1) * min + (n - d) * cap, where d is the number of doublings among them. |
| Retry.RefusedRun | wirenet.go:315-344 | Every dial refused on an open wire: the attempt numbers run up to retryMax, each is waited for, and then the loop gives up with the refusal. |
| Retry.RefusedRunDelay | wirenet.go:309-344 | From the start that is exactly retryMax dials, numbered from 0, and with the default policy the closed-form total of delays. |
| Retry.AttemptsCountFailures | wirenet.go:315-347 | In any run, each dial's attempt number is the number of failed dials since the last served connection, and below retryMax. |
| Retry.EndsByLast | wirenet.go:309-372 | In any run, the last dialled outcome decides error, counter and connection flag: a failed handshake ends with its error at once, a dial that was no refusal with its error and no retry, a refusal when closed or out of attempts, a served connection with the last refusal's error, or none; every earlier outcome was a refusal or a served connection. |
| Retry.WaitsForRefusals | wirenet.go:324-344 | The waits are exactly the attempt numbers of the refused dials, in order. |
| Retry.Client.AcceptClient | wirenet.go:309-372 | For any script of dial outcomes: the dials, waits, counter, connection flag and error of the loop. |

## Left out

- TCP, TLS, certificates and yamux: a connection is an ordered, lossless byte queue; a failed read comes without bytes.
- Short writes by a connection come with an error, as io.Writer demands, so the source's own short-write branches are dead here.
- Sleeps, deadlines and clocks: a drain's timeout is a number of rounds, retry delays are numbers.
- pb/session.pb.go and the exchange that opens a session: their encoding is reflection, which is not visible in the source.
- errors.go, the With options, roles, cert.go and examples/: formatting, setters and I/O.
- encodeFixed64Frame, encodeFixed32Frame and sozFrame in testdata/frame.pb.go: nothing calls them.
- Data races and unlocked map iteration: each critical section is one step, and the forced pass of a drain runs without concurrent registration.
- session.Close, wire.Close and wire.shutdown are states and steps, not class methods: their point is the interleaving, which a method cannot express.
- Fairness: that a caller or the loop can return means that some continuation lets it, not that every schedule does.
- The closed flags do not change during one transfer: the stream's mutex is held, and a session that closes meanwhile is not modelled.
- A stream's fields after Close: only the flag; the session's bookkeeping is in StreamCounter.
- A missing and an empty payload of a message are not told apart.
- Inputs of 2^48 bytes or more, which no Go slice reaches; lengths below that are modelled with the wrap-around of a 64-bit int.
- The hub's second pipe, from the target back to the origin: the same code with the ends exchanged.
- An io.Reader that returns an error only once: after the script of a source is used up, every read returns the same error.
- Retry.Client.AcceptClient: the results of dialling come as a script, and a wire that closes does so between two rounds of the loop.
- Retry.PolicySaturates: min at or above 2^53 is left out, because a float64 then rounds.
- SessionClose.ReturnsExactly: unregisterSession is one step there; what a client's caller can meet inside it is the subject of ConnectHang.RemovalReturnsExactly.
- Exchange.Run: the connection takes every write (what a failing one leaves is stated for each call by itself), and a receive starts when its message is all sent; Io.EarlyRead is why a read that comes earlier is only one more fragmentation.
