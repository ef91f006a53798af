# TrustTunnel in Dafny

A model of the state machines and codecs at the centre of the TrustTunnel endpoint, with
proofs about all their inputs and all their runs. `dafny verify dfyconfig.toml` checks
everything.

Objects that the program updates in place are classes. Each of their methods is proved
against a function on values, and the theorems are about that function. Loops are methods
with invariants. Code made of expressions is functions. Time, random draws, capacity
answers, what a peer sends and where a future is dropped are parameters, so every theorem
speaks about all of them.

| files | what they model |
|---|---|
| `UdpCodec`, `UdpDecoder`, `UdpRoundTrip`, `UdpDropping` | the incremental decoder of UDP datagrams over HTTP, its driver, the wire layout, dropped packets |
| `Wakeup`, `ChannelFate`, `Http3Codec` | the wake-up protocol between stream sinks, HTTP/3 codec and QUIC socket |
| `Deadlines`, `TimerFate`, `PacketBatch` | the QUIC multiplexer's connections, its deadline table and its cached earliest deadline |
| `Pipe`, `PipeObjects`, `DuplexEnds` | byte pipes under partial writes, timeouts and dropped futures; the forwarded request source |
| `ReverseProxy`, `SizeLine`, `ChunkedCoding`, `MessageEnd` | decoding of chunked bodies, the reads taken for them, the copies with a declared length |
| `Varint`, `DeepLink`, `DeepLinkRoundTrip`, `DeepLinkValidity`, `DeepLinkCodec` | deep-link payloads |
| `Der` | splitting of concatenated certificates |
| `Checksum`, `Icmp`, `IcmpWire`, `IcmpMatching`, `IcmpExtensions` | the Internet checksum, ICMP messages, the request that an error quotes, IPv6 extension headers |
| `Sessions`, `SessionEntries` | session gauges, their guards and the entries of connections |
| `Associations` | the index of SOCKS5 UDP associations |
| `Rules`, `RuleLaws`, `RandomPrefix` | the filter rules and the insertion of a generated rule |
| `SubscriptionUrl` | the subscription URL |
| `Bytes`, `Utf8` | bytes, big-endian numbers, UTF-8, shared by the others |

## Where the code departs from what it is for

The model does what the code does. Where that breaks a promise, one lemma gives an input and
another lemma or contract says exactly when the promise is kept.

- A packet that the UDP decoder drops: the dropping arm hands back the bytes it discards and
  loses the others (`ShortPacketMisread`). The decoder follows the wire layout on a stream
  exactly when no byte arrives while it drops (`FollowsLayoutIffClean`).
- UDP size limit: the name's length is subtracted from a limit that is compared with the whole
  packet, so it counts twice (`LargestWithNameRefused`, `ReadBackIffDeliverable`).
- IPv6 addresses with 12 leading zero bytes come back as IPv4 (`LoopbackReadAsV4`,
  `FixedSizeIpRoundTrip`).
- A failing capacity query in the HTTP/3 codec loses the wakeup of a sink that nothing else
  would wake (`FailedQueryLosesWakeup`, `NoLostWakeup`).
- An abandoned read of a forwarded body ends the body (`AbandonedReadEndsBody`,
  `DroppedReadTruncates`).
- A chunk extension that is not UTF-8 is refused, although section 7.1.1 of RFC 9112 lets
  quoted strings hold such bytes (`ExtensionRefused`, `ChunkedRoundTrip`).
- The CRLF behind chunk data is skipped without being looked at (`MissingLineEndTaken`,
  `DoneIffPieces`).
- The end of a chunked message without trailers is missed when its final CRLF comes in a later
  read than its last size line: the response then waits for a blank line or for upstream to end
  (`LineEndApart`, `FinishedInTimeIff`).
- The buffered HTTP/3 copy delivers more than the declared length when more than that came
  with the head (`CopyBuffered` says what is delivered for every input).
- A configuration whose prefix or key is not hexadecimal validates and encodes, and its link
  does not decode (`NotHexRefused`, `NotHexExample`, `DeepLinkRoundTrip.RoundTrip`). Tags are
  cut to 8 bits, every wider one (`WideTagAliases`).
- A DER length is read modulo 2^64 (`OversizedLengthAccepted`, `PartsTruthfulIff`).
- The checksum is folded once. A message passes a receiver's test exactly when that is enough
  (`EchoRefused`, `SentVerifiesIff`). ICMPv6 requests are summed without their pseudo-header
  (`V6EchoVerifiesIff`); where the system fills in that checksum, as section 3.1 of RFC 3542 has
  it for raw sockets, this does not show.
- IPv6 extension headers other than fragment headers are left 6 + 7n bytes too early
  (`HopByHopUnmatched`, `OptionsCutShort`). Their length is not compared with the packet, and
  moving past its end stops the program (`OverrunPanics`, `PanicIff`, `MessagePanicsIff`).
- Information messages are taken with 20 bytes only; RFC 792 gives them 8 (`InformationTakenIff`,
  for every message).
- The equality of echoes, declared an equivalence, is not transitive (`TransitiveIff`, for all
  lengths of data).
- The comment on relabelling says that the per-user gauges always stay balanced. They do
  exactly when the relabelled connection has one live guard of the named protocol, or nothing
  is relabelled (`EarlyRelabelUnbalances`, `StaysExactIff`).
- Two overlapping opens of one source forget the first peer (`OverlapForgetsPeer`,
  `FinishRefinesIff`).
- A generated mask is empty exactly when no draw is below the percentage (`MaskEmptyIff`), and
  exactly then every client random agrees with its rule (`AllAgreeIffEmptyMask`). Adding a rule
  also denies every connection without a client random (`InsertionExtends`).

## Model

| member | source | states |
|---|---|---|
| `UdpCodec.FixedSizeIpRoundTrip` | lib/src/net_utils.rs:114-133 | an address comes back from its 16 bytes exactly when it is not an IPv6 address with 12 leading zero bytes |
| `UdpCodec.LoopbackReadAsV4` | lib/src/net_utils.rs:114-133 | the IPv6 loopback address comes back as IPv4 |
| `Utf8.Utf8Iff` | lib/src/http_udp_codec.rs:145-169 | exactly the encodings of Unicode scalar values (section 3 of RFC 3629) are taken for text |
| `Utf8.ReadBigEndian` | lib/src/http_udp_codec.rs:8-34 | integers are read with the most significant byte first |
| `UdpCodec.Finish` | lib/src/http_udp_codec.rs:82-201 | a completed field leaves a valid decoder with an empty buffer, and an empty field lowers the rank that bounds the loop |
| `UdpCodec.Once` | lib/src/http_udp_codec.rs:62-80 | one pass keeps the decoder valid, emits at most one datagram, and shortens the data, lowers the rank or has less to drop |
| `UdpCodec.DecodeChunk` | lib/src/http_udp_codec.rs:227-244 | the loop ends from every state on every chunk, a datagram is emitted only at a packet's end, and the tail never grows |
| `UdpCodec.FeedAppend` | lib/src/http_udp_codec.rs:8-13 | the byte-at-a-time reference reads a concatenation as one part after the other |
| `UdpCodec.FeedPartial` | lib/src/http_udp_codec.rs:203-221 | bytes that do not complete a field are kept in order |
| `UdpCodec.FeedField` | lib/src/http_udp_codec.rs:203-221 | bytes that complete a field, an empty one too, act at once on what was kept and leave the rest |
| `UdpCodec.OnceKeepsFuture` | lib/src/http_udp_codec.rs:62-80 | on a clean stream a pass of the loop loses no byte of what is to come |
| `UdpCodec.DriveChunkIsFeed` | lib/src/http_udp_codec.rs:227-244 | on a clean chunk the driver yields what the reference yields and ends in its state |
| `UdpCodec.DriveIsFeed` | lib/src/http_downstream.rs:384-408 | the same for every list of chunks |
| `UdpCodec.SplitsAgree` | lib/src/http_downstream.rs:384-408 | any two cuts of a clean stream give the same datagrams and the same final state |
| `UdpCodec.DroppingMisreads` | lib/src/http_udp_codec.rs:68-78 | from every dropping state and for every byte, the next byte is misread |
| `UdpCodec.FollowsLayoutIffClean` | lib/src/http_udp_codec.rs:62-80 | the driver agrees with the reference on every part of a stream in every cut if and only if no byte arrives while a packet is dropped |
| `UdpDecoder.Decoder.constructor` | lib/src/http_udp_codec.rs:50-60 | a new decoder awaits a length |
| `UdpDecoder.Decoder.BufferedRead` | lib/src/http_udp_codec.rs:203-221 | gives the first `cap` bytes of buffer and input and the rest, or keeps all of them |
| `UdpDecoder.Decoder.ProcessClientLength` | lib/src/http_udp_codec.rs:82-102 | is a pass of the specification in the length state |
| `UdpDecoder.Decoder.ProcessClientFixedHeader` | lib/src/http_udp_codec.rs:104-143 | is a pass of the specification in the header state |
| `UdpDecoder.Decoder.ProcessClientAppName` | lib/src/http_udp_codec.rs:145-169 | is a pass of the specification in the name state |
| `UdpDecoder.Decoder.ProcessClientPayload` | lib/src/http_udp_codec.rs:171-201 | is a pass of the specification in the payload state; addresses are set when a datagram is emitted |
| `UdpDecoder.Decoder.DecodeChunkOnce` | lib/src/http_udp_codec.rs:62-80 | is a pass of the specification in every state |
| `UdpDecoder.Decoder.DecodeChunk` | lib/src/http_udp_codec.rs:227-244 | ends, keeps the decoder valid, and gives the specification's state and result |
| `UdpDecoder.DatagramDecoder.NextChunk` | lib/src/http_downstream.rs:385-396 | takes the next chunk, a put-back tail first, and acknowledges exactly what was read from the body |
| `UdpDecoder.DatagramDecoder.Read` | lib/src/http_downstream.rs:384-408 | takes exactly the next datagram off those to come, and ends only when none is left |
| `UdpRoundTrip.PacketReadBack` | lib/src/http_udp_codec.rs:8-34 | a deliverable packet followed by a byte is emitted, all fields equal, and the decoder is at a packet's start again |
| `UdpRoundTrip.AllReadBack` | lib/src/http_udp_codec.rs:82-201 | the same for every list of deliverable packets |
| `UdpRoundTrip.AllClean` | lib/src/http_udp_codec.rs:62-80 | no byte of deliverable packets arrives while dropping |
| `UdpRoundTrip.FollowedRoundTrip` | lib/src/http_udp_codec.rs:82-201 | every list of deliverable datagrams, in every cut into chunks, is yielded exactly once one more byte has arrived |
| `UdpRoundTrip.RoundTrip` | lib/src/http_udp_codec.rs:171-201 | without that byte only a last datagram with empty payload is missing |
| `UdpDropping.OnceWeighs` | lib/src/http_udp_codec.rs:62-80 | a pass takes each byte into a field once at most, whatever the dropping arm hands back |
| `UdpDropping.DriveWeighs` | lib/src/http_downstream.rs:384-408 | from every state and for every list of chunks, the datagrams yielded take up no more bytes than there were |
| `UdpDropping.DriveIntoDrop` | lib/src/http_udp_codec.rs:62-80 | once a packet is being dropped, only the bytes behind that point can be in a datagram, in every cut |
| `UdpDropping.RefusedDrops` | lib/src/http_udp_codec.rs:120-166 | a packet that is too large is dropped behind its fixed header, one whose name is not UTF-8 behind its name |
| `UdpDropping.ReadBackIffDeliverable` | lib/src/http_udp_codec.rs:62-201 | in every cut of its bytes and one more into chunks, the driver yields a datagram if and only if its size with the name counted twice is within the limit, its name is UTF-8 and its addresses are unambiguous |
| `UdpDropping.LargestWithNameRefused` | lib/src/http_udp_codec.rs:120-128 | a packet of the largest size with a name of one byte never comes back |
| `UdpDropping.ShortPacketMisread` | lib/src/http_udp_codec.rs:68-78 | a packet of one byte is dropped by the layout, and its byte starts the next length for the driver |
| `UdpDropping.RefusedSkipped` | lib/src/http_udp_codec.rs:104-169 | by the layout a packet that is not accepted is dropped as a whole, with the count that the code sets, and the next is read from its own start |
| `UdpDropping.ShortSkipped` | lib/src/http_udp_codec.rs:82-102 | so is one that is too short for a header |
| `Wakeup.NotifyKeepsCoverIff` | lib/src/http3_codec.rs:216-251 | a delivery uncovers a blocked sink exactly when its capacity query fails and nothing else would wake it |
| `Wakeup.StepKeepsNoneLost` | lib/src/http3_codec.rs:254-305 | every step of sinks, codec and socket, a failing listen of the socket among them, keeps all blocked sinks covered, except exactly that one |
| `Wakeup.DropWakesAll` | lib/src/http_downstream.rs:85 | the codec that is dropped for a failed listen closes every sink's channel |
| `Wakeup.NoLostWakeup` | lib/src/http3_codec.rs:216-305 | along every run no wakeup is lost if and only if no such failing query occurs |
| `Wakeup.NoLostWakeupWithCapacity` | lib/src/http3_codec.rs:431-447 | none is lost on runs whose capacity queries succeed, wherever the listening future is dropped |
| `Wakeup.FailedQueryLosesWakeup` | lib/src/http3_codec.rs:216-251 | a run from the start on which a failing query loses a wakeup |
| `Wakeup.StepKeepsLinked` | lib/src/http3_codec.rs:155-197 | a sink's channel always belongs to the stream it was made for |
| `Wakeup.LostStaysLost` | lib/src/http3_codec.rs:216-305 | a lost sink stays lost until a message about its own stream arrives |
| `Wakeup.DrainKeepsCover` | lib/src/http3_codec.rs:86-130 | working off the queue keeps a covered sink covered and empties the queue or the streams |
| `Wakeup.DeliverWakes` | lib/src/http3_codec.rs:216-251 | delivering a writable event gives a sink in it a token, or its channel is closed |
| `Wakeup.RoundWakes` | lib/src/quic_multiplexer.rs:920-977 | one round wakes every blocked sink whose stream has capacity when the socket asks and still when the codec does, with a token when no shutdown of its write side is queued |
| `ChannelFate.ChannelClosedIff` | lib/src/http3_codec.rs:98-130 | over every run, a sink's channel is closed if and only if, since the sink was made, shutdowns of both sides of its stream were processed, or its id was opened again, or the codec was dropped |
| `ChannelFate.BodyEndKeepsChannel` | lib/src/http3_codec.rs:119-127 | the end of the request body alone leaves the response's channel open |
| `ChannelFate.SinkSees` | lib/src/http3_codec.rs:216-251 | over every run, a sink is blocked exactly since it asked and has not gone on, and has a token exactly since an event reached it and it has not taken it |
| `ChannelFate.WatchedIff` | lib/src/quic_multiplexer.rs:920-977 | over every run, a stream is watched exactly since a request for it was received or its delivery found too little capacity, and it was not reported |
| `ChannelFate.QueueIsFifo` | lib/src/http3_codec.rs:86-96 | messages of the streams are worked off in the order they were sent |
| `Http3Codec.Codec.OnRequest` | lib/src/http3_codec.rs:155-197 | registers a stream and its sink as the protocol's opening step |
| `Http3Codec.Codec.OnStreamShutdown` | lib/src/http3_codec.rs:98-130 | is the shutting step, which removes the stream exactly when both sides are shut, and fails for an unknown stream |
| `Http3Codec.Codec.OnStreamMessage` | lib/src/http3_codec.rs:86-96 | hands a request to the socket or shuts a direction |
| `Http3Codec.Codec.ReceiveMessages` | lib/src/http3_codec.rs:254-305 | works off the queue as specified, a failing message closing its stream |
| `Http3Codec.Codec.CollectWritable` | lib/src/quic_multiplexer.rs:920-977 | reports exactly the watched streams whose query fails or shows capacity, and keeps the others |
| `Http3Codec.Codec.NotifyWritableStreams` | lib/src/http3_codec.rs:216-251 | delivers an event as specified |
| `Http3Codec.Codec.ListenRound` | lib/src/http3_codec.rs:254-305 | after a round every blocked sink whose stream has capacity at both queries finds a token or its channel closed, and a token when no shutdown of its write side is queued |
| `Deadlines.MinDeadline` | lib/src/quic_multiplexer.rs:651 | gives the earliest deadline of a table, none for an empty one |
| `Deadlines.StepNeverLate` | lib/src/quic_multiplexer.rs:644-755 | every change of the table keeps the cached deadline no later than any entry |
| `Deadlines.NeverLateAlways` | lib/src/quic_multiplexer.rs:158-207 | over every run the event loop is never asleep past a deadline, although some removals leave the cache alone |
| `Deadlines.PassLeavesNothingLate` | lib/src/quic_multiplexer.rs:654-696 | after a pass no entry is before the pass's own time |
| `Deadlines.RearmedOneMore` | lib/src/quic_multiplexer.rs:664-693 | a pass over all expired connections is the passes over each of them |
| `TimerFate.TimerTold` | lib/src/quic_multiplexer.rs:644-755 | over every run a connection's timer is told by the events for it: armed, disarmed, forgotten, or gone off in a pass at or behind its time and back only if the connection is there and asks |
| `TimerFate.ClosestTold` | lib/src/quic_multiplexer.rs:644-722 | the cached deadline is exactly the earliest timer behind every event that works it out again, and stays behind the others |
| `TimerFate.WakeFindsExpired` | lib/src/quic_multiplexer.rs:657-662 | a loop that wakes at the earliest deadline finds an expired connection |
| `TimerFate.PassMovesOn` | lib/src/quic_multiplexer.rs:654-696 | a pass moves the earliest deadline past its own time, unless a connection that went off asks to be called again at once |
| `Deadlines.QuicMultiplexer.UpdateConnectionDeadline` | lib/src/quic_multiplexer.rs:644-652 | sets one timer and recomputes the earliest deadline exactly |
| `Deadlines.OthersKept` | lib/src/quic_multiplexer.rs:209-297 | a connection that no packet of a batch was for keeps its state and its timer |
| `Deadlines.AcceptedHasNoOldTimer` | lib/src/quic_multiplexer.rs:342-358 | the connection that ends a batch is established, was not before, and no timer of its handshake is left |
| `Deadlines.AcceptedTimerIff` | lib/src/quic_multiplexer.rs:287-289 | behind a batch it has a timer exactly when it asks for one |
| `PacketBatch.EachOnItsOwn` | lib/src/quic_multiplexer.rs:299-392 | over a batch that accepts none, what becomes of a connection, its timer too, is the run of an automaton with the stages unknown, handshake and established over the verdicts of its own packets |
| `PacketBatch.FirstAcceptsEnds` | lib/src/quic_multiplexer.rs:209-297 | otherwise the first packet that completes a connection not yet established ends the batch with that connection, and the same holds up to it |
| `PacketBatch.TimersAreOfKnown` | lib/src/quic_multiplexer.rs:287-289 | behind a batch every connection that a packet was taken for, and every one with a timer, is known, unless one of its packets completed without a session |
| `PacketBatch.FirstPacketKnown` | lib/src/quic_multiplexer.rs:571-625 | the first packet of a handshake makes its connection known |
| `Deadlines.QuicMultiplexer.OnQuicPacket` | lib/src/quic_multiplexer.rs:299-392 | is the specified step of the automaton for an unknown, a handshaking or an established connection, and stays never late |
| `Deadlines.QuicMultiplexer.ReadUdpSocket` | lib/src/quic_multiplexer.rs:209-297 | reads at most 1024 packets up to the first accepted connection and arms exactly the timers of the connections they were for, never late |
| `Deadlines.QuicMultiplexer.OnHandshakeComplete` | lib/src/quic_multiplexer.rs:342-358 | removes the timer, leaves the cached deadline, and stays never late |
| `Deadlines.QuicMultiplexer.OnSocketMessage` | lib/src/quic_multiplexer.rs:698-722 | closes a connection, or arms or disarms its timer, and stays never late |
| `Deadlines.QuicMultiplexer.RemoveClosedConnections` | lib/src/quic_multiplexer.rs:738-755 | removes the closed connections and their timers and tells exactly the established ones, in order |
| `Deadlines.QuicMultiplexer.CollectExpired` | lib/src/quic_multiplexer.rs:657-662 | names every expired connection once and no other |
| `Deadlines.QuicMultiplexer.FireTimeout` | lib/src/quic_multiplexer.rs:664-693 | one expired connection loses its timer, is told if it is there, and is armed again |
| `Deadlines.QuicMultiplexer.ProcessTimeouts` | lib/src/quic_multiplexer.rs:654-696 | every expired connection that is there is told exactly once, nothing before now is left, and the earliest deadline is exact |
| `Pipe.RunMovesAppend` | lib/src/pipe.rs:150-215 | another event continues an exchange that still goes on and does not touch one that stopped |
| `Pipe.CallsConserve` | lib/src/pipe.rs:145-216 | over every run of calls, each dropped anywhere, bytes read are bytes accepted followed by the pending chunk, and the metrics count the accepted ones |
| `Pipe.EofOnlyWhenDrained` | lib/src/pipe.rs:205-213 | the end is signalled only when nothing is pending and all that was read was accepted |
| `Pipe.NothingLost` | lib/src/pipe.rs:145-216 | the sink holds a prefix of the source's bytes, metrics and acknowledgements count exactly it, and the rest is pending or unread |
| `Pipe.EndMeansAllDelivered` | lib/src/pipe.rs:205-213 | a sink that was told of the end had accepted the whole stream |
| `Pipe.CallsForward` | lib/src/http_forwarded_stream.rs:137-222 | the invariant of a pipe that forwards a request holds over every run |
| `Pipe.ForwardedAccounting` | lib/src/http_forwarded_stream.rs:151-222 | the sink gets a prefix of the request and the first n body bytes, the inner source is told of exactly the body bytes among them, and without an abandoned read the end means all of it |
| `Pipe.DroppedReadTruncates` | lib/src/http_forwarded_stream.rs:188-196 | an abandoned body read ends the body, which is right exactly when all of it had been sent |
| `Pipe.AbandonedReadEndsBody` | lib/src/http_forwarded_stream.rs:188-196 | a body whose one read is abandoned is never sent |
| `PipeObjects.ForwardedStreamSource.OnReadRequest` | lib/src/http_forwarded_stream.rs:169-186 | yields the serialised request as specified |
| `PipeObjects.ForwardedStreamSource.ReadBody` | lib/src/http_forwarded_stream.rs:188-221 | yields the next part of the body as specified; dropped while waiting, the state stays taken out |
| `PipeObjects.ForwardedStreamSource.ConsumeBytes` | lib/src/http_forwarded_stream.rs:151-165 | passes on acknowledgements without the request's own bytes |
| `PipeObjects.SimplexPipe.Pass` | lib/src/pipe.rs:150-215 | one pass of the loop is a step of the specification, and activity is noted exactly when bytes are written |
| `PipeObjects.SimplexPipe.ExchangeAll` | lib/src/pipe.rs:145-216 | a call is the specified exchange, and the last activity is the last write or the start |
| `PipeObjects.LastActiveAppend` | lib/src/pipe.rs:151 | one more event moves the last activity exactly when it writes |
| `PipeObjects.DuplexPipe.Take` | lib/src/pipe.rs:254-292 | a direction takes its own events only, and none after it stopped |
| `PipeObjects.DuplexPipe.ExchangeOnce` | lib/src/pipe.rs:254-292 | a round is the specified one: both directions run their own events up to the first timeout or both ends, with outcome and last activities |
| `PipeObjects.DuplexPipe.ExchangeAll` | lib/src/pipe.rs:236-252 | rounds follow each other as specified, and end idle exactly when both directions were idle longer than the timeout; `DuplexEnds.ExchangeEndsIff` says when every outcome occurs |
| `PipeObjects.RoundsAreCalls` | lib/src/pipe.rs:236-292 | over all rounds each direction is a run of simplex calls |
| `PipeObjects.DuplexLosesNothing` | lib/src/pipe.rs:236-292 | over every duplex run each sink holds a prefix of its source's bytes, counted exactly, and the rest is pending or unread |
| `DuplexEnds.StatusTold` | lib/src/pipe.rs:145-216 | a direction has finished exactly when it found the end of its source before its time ran out and was flushed afterwards, and timed out exactly when its time ran out first |
| `DuplexEnds.AcceptedOnlyThen` | lib/src/pipe.rs:150-215 | a sink accepts bytes only in an event that counts as activity |
| `DuplexEnds.QuietIff` | lib/src/pipe.rs:236-252 | the last activity is too long ago exactly when start and all events that handed bytes over are |
| `DuplexEnds.RoundTold` | lib/src/pipe.rs:254-292 | a round ends with the first event behind which both directions finished or one timed out, and its outcome tells exactly which |
| `DuplexEnds.ExchangeEndsIff` | lib/src/pipe.rs:236-252 | an exchange has each outcome if and only if some round ends it so, all rounds before having timed out with a direction active: idle when neither was, dropped when no round ends it |
| `DuplexEnds.ActiveNeverIdle` | lib/src/pipe.rs:236-252 | an exchange with a direction active within the timeout of every round never ends idle |
| `ReverseProxy.NeedMore` | lib/src/reverse_proxy.rs:252-265 | appends the next read, or tells the end |
| `ReverseProxy.AwaitLine` | lib/src/reverse_proxy.rs:297-305 | finds the size line of the whole input, taking no read beyond the one that completes it |
| `ReverseProxy.AwaitBytes` | lib/src/reverse_proxy.rs:348-353 | holds the bytes asked for exactly when the whole input has them, taking no read too many |
| `ReverseProxy.SkipTrailers` | lib/src/reverse_proxy.rs:316-329 | leaves the specified reads, and waits for the end of upstream exactly when neither a line end is there at once nor a blank line comes |
| `ReverseProxy.TrailersEnd` | lib/src/reverse_proxy.rs:319-328 | reading stops with the first read that completes a blank line, and without one at the end of upstream |
| `ReverseProxy.PastPast` | lib/src/reverse_proxy.rs:295-356 | using up bytes in two goes takes the same reads as in one |
| `SizeLine.SizeIff` | lib/src/reverse_proxy.rs:307-313 | a line gives a size if and only if it is UTF-8 and is that size below 2^64 in hexadecimal, in either case and behind any zeros, with Unicode white space around it, a plus sign before it and an extension behind it or without |
| `SizeLine.ValueIff` | lib/src/reverse_proxy.rs:311-312 | digits are read as a number exactly when they spell it |
| `ReverseProxy.NextChunk` | lib/src/reverse_proxy.rs:295-356 | takes the next chunk, the last one or an error off the whole input whatever the reads, and no read beyond it |
| `ReverseProxy.DecodeBody` | lib/src/reverse_proxy.rs:295-375 | status, headers, delivered bytes and end depend on the bytes of every input only, not on the reads; which reads are left and whether upstream had to end is as specified |
| `ChunkedCoding.LegalLineRead` | lib/src/reverse_proxy.rs:307-313 | a legal size line below 2^64 gives its size if and only if its extension is UTF-8 |
| `ChunkedCoding.ChunkRead` | lib/src/reverse_proxy.rs:307-356 | a legal chunk gives its data and leaves what follows it |
| `ChunkedCoding.DecodeEncoded` | lib/src/reverse_proxy.rs:295-375 | every legal encoding decodes to its chunks in order, or is refused for its extensions |
| `ChunkedCoding.ChunkedRoundTrip` | lib/src/reverse_proxy.rs:251-375 | for every list of chunks and every legal spelling the client gets exactly the body and its end, with the length announced exactly up to 2 MiB, if and only if all extensions are UTF-8 |
| `ChunkedCoding.ExtensionRefused` | lib/src/reverse_proxy.rs:309-310 | a legal chunk that is refused for its extension |
| `MessageEnd.FinishedInTimeIff` | lib/src/reverse_proxy.rs:314-329 | for every legal message, every cut and whatever follows it, no read beyond its own is taken, and upstream need not end, if and only if it has trailers, or the read that completes its last size line brings its final line end, or a blank line follows in the same reads |
| `MessageEnd.LineEndApart` | lib/src/reverse_proxy.rs:319-328 | with the final line end in a read of its own, every later read is taken and the end of upstream waited for |
| `MessageEnd.DoneIffPieces` | lib/src/reverse_proxy.rs:295-356 | a body is decoded if and only if it is chunks with any two bytes behind each one's data and a zero size line with anything behind it |
| `MessageEnd.PiecesDecoded` | lib/src/reverse_proxy.rs:355-374 | and the client gets the data of those chunks in order |
| `MessageEnd.MissingLineEndTaken` | lib/src/reverse_proxy.rs:355-356 | a body that section 7.1 of RFC 9112 forbids is taken |
| `ChunkedCoding.TakeBytes` | lib/src/reverse_proxy.rs:229-241 | takes exactly the first bytes of the reads, up to the number asked for |
| `ChunkedCoding.CopyBuffered` | lib/src/reverse_proxy.rs:219-247 | fails exactly when fewer bytes came than declared, and delivers all that came with the head or the declared bytes, whichever is more |
| `ChunkedCoding.CopyStreamed` | lib/src/reverse_proxy.rs:377-405 | delivers the declared bytes or as many as came, when the declared length covers what came with the head |
| `Varint.VarintRoundTrip` | deeplink/src/varint.rs:13-98 | every number up to 2^62 - 1 is encoded and decoded back with its exact length |
| `Varint.ShortestForm` | deeplink/src/varint.rs:13-28 | no form of a number is shorter than the one it is encoded in |
| `Varint.DecodeVarintShift` | deeplink/src/varint.rs:30-98 | where a number stands does not matter to its value |
| `Varint.DecodeVarintPrefix` | deeplink/src/varint.rs:30-98 | what follows a number does not matter to it |
| `DeepLinkRoundTrip.ParseEntryPrefix` | deeplink/src/decode.rs:68-105 | an entry that is parsed does not depend on what follows it |
| `DeepLinkRoundTrip.TlvParsed` | deeplink/src/encode.rs:9-15 | a written entry is parsed back, tag, value and size, whatever follows |
| `DeepLinkRoundTrip.FieldsOfItems` | deeplink/src/decode.rs:109-239 | written entries act on the configuration one after the other |
| `DeepLinkRoundTrip.StringsRoundTrip` | deeplink/src/decode.rs:7-24 | every list of strings comes back from its encoding |
| `DeepLinkRoundTrip.RoundTrip` | deeplink/src/encode.rs:48-135 | a configuration that validates comes back, an empty prefix or key as none, exactly when prefix, mask and key are hexadecimal, and is refused otherwise |
| `DeepLinkRoundTrip.NotHexRefused` | deeplink/src/types.rs:142-163 | every subscription URL with a prefix that is not hexadecimal validates and encodes, and does not decode |
| `DeepLinkRoundTrip.NotHexExample` | deeplink/src/types.rs:142-163 | "z" is such a prefix |
| `DeepLinkRoundTrip.UnknownEntryIgnored` | deeplink/src/decode.rs:68-105 | an entry with an unknown tag at any entry boundary of any payload changes neither the fields nor the error |
| `DeepLinkRoundTrip.WideTagAliases` | deeplink/src/decode.rs:68-105 | a tag beyond 8 bits acts as the tag of its low byte |
| `DeepLinkValidity.ValidateIff` | deeplink/src/types.rs:142-163 | a configuration validates exactly when it has an HTTPS subscription URL, or none and all four connection parameters |
| `DeepLinkValidity.DecodedIsComplete` | deeplink/src/decode.rs:109-239 | every configuration that comes out of a payload is such a one |
| `DeepLinkValidity.DecodedIff` | deeplink/src/decode.rs:109-239 | a payload whose entries are all taken decodes exactly when they make such a configuration, and to that one |
| `DeepLinkValidity.MissingFieldRefused` | deeplink/src/types.rs:142-163 | the payload of any such configuration without the entries of one required tag decodes to that field's own error, whatever taken entries follow |
| `DeepLinkValidity.OtherUrlRefused` | deeplink/src/types.rs:142-149 | a subscription URL that is not HTTPS is refused, whatever else is there |
| `DeepLinkValidity.FieldTakenIff` | deeplink/src/decode.rs:109-239 | an entry is taken exactly when its value is one that its tag takes, listed tag by tag |
| `DeepLinkValidity.RefusalTold` | deeplink/src/decode.rs:27-203 | a refused entry tells the error of its tag |
| `DeepLinkValidity.FirstRefusalTold` | deeplink/src/decode.rs:109-239 | the first entry that is not taken gives the payload's error, whatever follows |
| `DeepLinkValidity.CutEntryTold` | deeplink/src/decode.rs:68-105 | an entry that is cut within its value tells its tag, its length and how much is there |
| `DeepLinkValidity.IsHexIff` | deeplink/src/decode.rs:179-203 | hex text is exactly text that spells bytes with two digits each |
| `DeepLinkValidity.PlainHexIff` | deeplink/src/decode.rs:179-193 | a prefix without a slash is hex as a whole |
| `DeepLinkValidity.MaskedHexIff` | deeplink/src/decode.rs:179-203 | a prefix and a mask on either side of the first slash are hex each |
| `DeepLinkCodec.DecodeStringArray` | deeplink/src/decode.rs:7-24 | decodes a list as specified |
| `DeepLinkCodec.TlvParser.NextField` | deeplink/src/decode.rs:68-105 | gives the entry at the offset and moves past it |
| `DeepLinkCodec.DecodeTlvPayload` | deeplink/src/decode.rs:109-239 | decodes every payload as specified, errors included, and gives complete configurations only |
| `DeepLinkCodec.EncodeStringArray` | deeplink/src/encode.rs:32-41 | encodes a list exactly when all lengths fit |
| `DeepLinkCodec.PayloadWriter.Append` | deeplink/src/encode.rs:9-15 | appends one entry |
| `DeepLinkCodec.WriteParameters` | deeplink/src/encode.rs:56-86 | writes the connection parameters that are there, in order |
| `DeepLinkCodec.WriteOptions` | deeplink/src/encode.rs:88-134 | writes the switches and options that differ from their defaults, in order |
| `DeepLinkCodec.EncodeTlvPayload` | deeplink/src/encode.rs:48-135 | writes the payload exactly when the configuration is complete and its lengths fit, and tells the error otherwise |
| `Der.ShiftIn` | deeplink/src/cert.rs:51-54 | shifting in a byte with the high bits lost keeps the value modulo 2^64 |
| `Der.ReadAsn1Length` | deeplink/src/cert.rs:30-57 | gives the declared length modulo 2^64 and the header's end, or fails on a bad header |
| `Der.DeclaredIff` | deeplink/src/cert.rs:30-57 | the declared length is told by the octets: below 128 in one, or their number and then the length, and 0x80 alone declares none |
| `Der.CertificateEnd` | deeplink/src/cert.rs:64-83 | gives the end of the certificate at an offset, or fails |
| `Der.SplitDerCerts` | deeplink/src/cert.rs:60-89 | splits as specified |
| `Der.SplitPartitions` | deeplink/src/cert.rs:60-89 | the parts of a success concatenate to the input, begin with 0x30 and split to themselves |
| `Der.SplitUndoesConcat` | deeplink/src/cert.rs:60-89 | any list of well-formed blobs, with any number of length octets, is split back into exactly those blobs |
| `Der.PartsTruthfulIff` | deeplink/src/cert.rs:51-57 | a part is well-formed exactly when the length it declares is below 2^64 |
| `Der.OversizedLengthAccepted` | deeplink/src/cert.rs:51-57 | eleven bytes that declare 2^64 are taken for a certificate |
| `Checksum.Rfc1071Checksum` | lib/src/net_utils.rs:486-496 | folds the sum of the 16-bit words, an odd byte padded, modulo 2^32, and without overflow up to 2^17 bytes |
| `Checksum.FitsIff` | lib/src/net_utils.rs:486-496 | neither sum nor fold leaves 32 bits for any byte string of a length exactly when the length is at most 2^17 |
| `Checksum.OnesSumIsWordSum` | lib/src/net_utils.rs:484-496 | the one's complement sum of section 1 of RFC 1071 is the word sum modulo 2^16 - 1 |
| `Checksum.VerifiesIff` | lib/src/net_utils.rs:484-496 | a receiver accepts a message exactly when its words sum to a positive multiple of 2^16 - 1 |
| `Checksum.FoldOnceCompletes` | lib/src/net_utils.rs:495 | the checksum completes a sum to such a multiple exactly when one fold fits 16 bits, and to one more otherwise |
| `Checksum.SentBehindVerifiesIff` | lib/src/net_utils.rs:484-496 | behind bytes that the receiver sums as well, a message is accepted exactly when those and a missed carry sum to a multiple |
| `Checksum.SentVerifiesIff` | lib/src/icmp_utils.rs:124-139 | a message sent with its checksum is accepted exactly when one fold fits 16 bits |
| `Icmp.SerializeEcho` | lib/src/icmp_utils.rs:124-139 | writes the specified packet |
| `Icmp.EchoReadBack` | lib/src/icmp_utils.rs:896-903 | a serialised echo cut anywhere behind its header parses to the echo with as much data, code 0 |
| `Icmp.EchoVerifiesIff` | lib/src/icmp_utils.rs:124-139 | an IPv4 echo request is accepted by a receiver exactly when one fold fits 16 bits |
| `Icmp.V6EchoVerifiesIff` | lib/src/icmp_utils.rs:124-139 | an ICMPv6 one is accepted exactly when its pseudo-header, which the sum leaves out, and a missed carry sum to a multiple of 2^16 - 1 |
| `Icmp.EchoRefused` | lib/src/net_utils.rs:495 | an echo request that no receiver accepts |
| `Icmp.SkipIpv6Header` | lib/src/net_utils.rs:449-482 | walks the extension headers as specified, ending on every packet |
| `IcmpWire.V4RoundTrip` | lib/src/icmp_utils.rs:419-502 | every field of every legal message comes back |
| `IcmpWire.V4TakenIsWire` | lib/src/icmp_utils.rs:419-595 | nothing but legal messages is taken, and a message is the wire form of what it parses to |
| `IcmpWire.InformationTakenIff` | lib/src/icmp_utils.rs:488-499 | an information message is taken exactly with 20 bytes |
| `IcmpWire.V6RoundTrip` | lib/src/icmp_utils.rs:771-825 | every field of every legal message comes back |
| `IcmpWire.V6TakenIsWire` | lib/src/icmp_utils.rs:771-893 | nothing but legal messages is taken, and a message is the wire form of what it parses to |
| `IcmpMatching.V4HeaderSkipped` | lib/src/net_utils.rs:427-443 | a header with any options is skipped exactly |
| `IcmpMatching.V4ErrorMatches` | lib/src/icmp_utils.rs:383-410 | an error that quotes any cut of any echo request behind any legal header gives a request equal to it exactly when 8 of its bytes are there and the code is known |
| `IcmpMatching.FragmentsSkipped` | lib/src/net_utils.rs:467-477 | any chain of fragment headers is skipped exactly |
| `IcmpMatching.V6ErrorMatches` | lib/src/icmp_utils.rs:736-762 | the same for IPv6 behind fragment headers |
| `IcmpMatching.OptionsCutShort` | lib/src/net_utils.rs:459-466 | every legal hop-by-hop, routing or destination-options header is left 6 + 7n bytes before its end |
| `IcmpMatching.HopByHopUnmatched` | lib/src/net_utils.rs:459-466 | a quote behind a padding header gives nothing |
| `IcmpExtensions.WalkIsChain` | lib/src/net_utils.rs:458-479 | every walk follows a chain of headers to one where it stops |
| `IcmpExtensions.WalkEnds` | lib/src/net_utils.rs:458-481 | the header where a chain stops decides the outcome of the walk |
| `IcmpExtensions.PanicIff` | lib/src/net_utils.rs:460-466 | the walk moves past the packet if and only if a chain of headers leads to one whose length octet exceeds what is behind it |
| `IcmpExtensions.MessagePanicsIff` | lib/src/icmp_utils.rs:736-825 | a message does so if and only if it is an error with a known code that quotes a whole IPv6 header with such a chain |
| `IcmpExtensions.PlainHeaderNeverPanics` | lib/src/net_utils.rs:467-477 | a quote behind fragment headers at most never does, whatever follows |
| `IcmpExtensions.OverrunPanics` | lib/src/net_utils.rs:460-466 | a message of 50 bytes does |
| `IcmpMatching.RequestRoundTrip` | lib/src/icmp_utils.rs:412-417 | a serialised request parses back in both versions |
| `IcmpMatching.ReplyMatches` | lib/src/icmp_utils.rs:390 | a reply gives the request it answers in both versions |
| `IcmpMatching.SameEchoThrough` | lib/src/icmp_utils.rs:109-121 | the equality goes through an echo that carries at least as much as one of the outer two |
| `IcmpMatching.TransitiveIff` | lib/src/icmp_utils.rs:107-121 | for given lengths the equality is transitive exactly when the middle one is not the shortest |
| `Sessions.AggregateStays` | lib/src/metrics.rs:188-343 | the aggregate gauges count the live guards whatever is called |
| `Sessions.CountAfterChange` | lib/src/metrics.rs:211-237 | changing one entry moves exactly that connection's guards |
| `Sessions.StaysExactIff` | lib/src/metrics.rs:188-343 | for each call and every state with right per-user gauges, the gauges stay right if and only if the call is careful in terms of entry, label and guards it meets |
| `Sessions.DisciplinedIsCareful` | lib/src/metrics.rs:188-343 | distinct ids and relabelling of live sessions only make every call careful |
| `Sessions.AlwaysBalanced` | lib/src/metrics.rs:188-343 | over every disciplined interleaving each per-user gauge is the number of live guards with that label and protocol, and each aggregate that of its protocol |
| `Sessions.BalancedFromTheStart` | lib/src/metrics.rs:65-343 | so from the start of the program on |
| `Sessions.PerUserSumsToAggregate` | lib/src/metrics.rs:290-343 | for each protocol the per-user gauges over the labels in use sum to the aggregate |
| `Sessions.EarlyRelabelUnbalances` | lib/src/metrics.rs:211-237 | relabelling before the guard exists leaves a gauge at -1 |
| `SessionEntries.EntryTold` | lib/src/metrics.rs:188-343 | over every run, disciplined or not, a connection has an entry exactly since it was registered or a session opened and it was neither unregistered nor a session of it ended, with the last name given and the number of sessions opened, up to 2^64 - 1 |
| `Sessions.Metrics.RegisterConnection` | lib/src/metrics.rs:188-196 | is the registering step |
| `Sessions.Metrics.UnregisterConnection` | lib/src/metrics.rs:200-204 | is the unregistering step |
| `Sessions.Metrics.TransferSessionUsername` | lib/src/metrics.rs:211-237 | is the relabelling step |
| `Sessions.Metrics.ClientSessionsCounter` | lib/src/metrics.rs:290-323 | is the opening step and gives the guard |
| `Sessions.Metrics.DropGuard` | lib/src/metrics.rs:325-343 | is the dropping step |
| `Associations.AssociatedIffOpen` | lib/src/socks5_forwarder.rs:86-90 | a source has an association exactly when it has an open pair |
| `Associations.StepRefines` | lib/src/socks5_forwarder.rs:75-145 | every call does to the index what it does to the set of open pairs, without an empty association |
| `Associations.AlwaysRefines` | lib/src/socks5_forwarder.rs:75-145 | the same over every sequence of opens, reverse-oriented closes and socket errors |
| `Associations.FinishRefinesIff` | lib/src/socks5_forwarder.rs:92-133 | an overlapped open keeps the index right exactly when no other peer of its source is associated by then |
| `Associations.OverlapForgetsPeer` | lib/src/socks5_forwarder.rs:116-124 | two overlapping opens forget a peer |
| `Associations.SucceedsIffOpen` | lib/src/socks5_forwarder.rs:75-134 | an open succeeds exactly when it is permitted and its pair is open afterwards |
| `Associations.ClosuresOf` | lib/src/socks5_forwarder.rs:384-393 | queues one close per peer, each once |
| `Associations.DatagramTransceiverShared.OnNewUdpConnection` | lib/src/socks5_forwarder.rs:75-134 | is the opening step, and succeeds exactly as the pairs and the answers say |
| `Associations.DatagramTransceiverShared.OnConnectionClosed` | lib/src/socks5_forwarder.rs:136-144 | is the closing step, reverse-oriented as lib/src/forwarder.rs:94-101 demands |
| `Associations.DatagramSource.OnSocketError` | lib/src/socks5_forwarder.rs:382-395 | removes the association and queues exactly one close per open peer behind those queued before |
| `Rules.HexRoundTrip` | lib/src/client_random_prefix.rs:69-71 | hexadecimal text decodes to its bytes and holds no slash |
| `Rules.CompareMasked` | lib/src/rules.rs:182-200 | compares under the mask on the bytes that mask, prefix and client random all have, and fails on none |
| `Rules.RuleMatches` | lib/src/rules.rs:131-219 | decides the specified match, malformed text included; the laws of `RuleLaws` say what that is for every kind of rule |
| `Rules.Evaluate` | lib/src/rules.rs:237-273 | gives the action of the first matching rule, behind the guards for missing client random and SNI |
| `RuleLaws.HexReadIff` | lib/src/rules.rs:204-206 | hexadecimal texts are exactly the spellings of bytes, two digits each in either case |
| `RuleLaws.UnanswerableDenied` | lib/src/rules.rs:243-260 | a connection without the client random or SNI that some rule asks about is denied, wherever that rule stands |
| `RuleLaws.RuleActsAlone` | lib/src/rules.rs:262-272 | at every position, a rule decides exactly the connections it applies to and no rule before it does, and otherwise can be deleted |
| `RuleLaws.NoneAppliesAllows` | lib/src/rules.rs:271-272 | a list in which no rule applies allows |
| `RuleLaws.OutOfRangeDeletable` | lib/src/rules.rs:140-148 | a rule whose range does not hold the address, or does not parse, can be deleted |
| `RuleLaws.InRangeAsWithout` | lib/src/rules.rs:140-148 | a rule whose range holds the address acts as the rule without its range |
| `RuleLaws.RangeDecides` | lib/src/rules.rs:140-148 | a rule with a range alone decides exactly the addresses in its range |
| `RuleLaws.BareRuleDecides` | lib/src/rules.rs:131-219 | a rule without conditions decides every connection that reaches it |
| `RuleLaws.PlainPrefixDecides` | lib/src/rules.rs:202-211 | a rule with a plain prefix decides exactly the client randoms that begin with its bytes |
| `RuleLaws.MaskedPrefixDecides` | lib/src/rules.rs:172-201 | a rule with a mask decides exactly the client randoms that share every masked bit with its prefix, over the length all three have |
| `RuleLaws.MalformedPrefixDeletable` | lib/src/rules.rs:198-209 | a rule whose prefix is neither bytes nor bytes and a mask can be deleted |
| `RuleLaws.KeyDecides` | lib/src/rules.rs:150-166 | a rule with an auth key decides exactly the connections that the key explains, whatever prefix stands beside it |
| `RuleLaws.MalformedKeyDeletable` | lib/src/rules.rs:163-166 | a rule whose key is not hexadecimal can be deleted |
| `RandomPrefix.MaskedEqualIff` | lib/src/rules.rs:189-196 | two bytes are equal under a mask exactly when they share every bit of the mask |
| `RandomPrefix.GenerateMask` | lib/src/client_random_prefix.rs:115-128 | sets exactly the bits whose draw is below the percentage |
| `RandomPrefix.GenerateValue` | lib/src/client_random_prefix.rs:130-138 | the value has the noise's bits under the mask and no other |
| `RandomPrefix.Generate` | lib/src/client_random_prefix.rs:74-101 | succeeds exactly for lengths 1 to 32 and percentages 1 to 100, with a value that respects its mask, and a mask that is empty exactly when no draw is below the percentage |
| `RandomPrefix.GenerateWithMask` | lib/src/client_random_prefix.rs:83-113 | keeps a given mask of 1 to 32 bytes and refuses others |
| `RandomPrefix.AppendAllowRule` | endpoint/src/main.rs:803-808 | puts the new rule before all others, which keep their order |
| `RandomPrefix.MaskedHexMatches` | lib/src/rules.rs:170-200 | the printed rule is read back and matches exactly the client randoms that share every bit of the mask |
| `RandomPrefix.InsertionExtends` | endpoint/src/main.rs:782-811 | after insertion agreeing connections are allowed unless the missing-SNI guard denies them, others with a client random are as before, and those without are denied |
| `RandomPrefix.MaskEmptyIff` | lib/src/client_random_prefix.rs:115-128 | a mask is empty exactly when no draw is below the percentage |
| `RandomPrefix.AllAgreeIffEmptyMask` | lib/src/rules.rs:182-196 | every client random agrees with a rule exactly when its mask is empty |
| `SubscriptionUrl.PercentEncodeUserinfo` | lib/src/client_config.rs:12-25 | encodes byte by byte as specified |
| `SubscriptionUrl.SplitAuthority` | lib/src/client_config.rs:30-33 | the two parts make up the text, the first holds no delimiter and the second starts with one |
| `SubscriptionUrl.EncodeReadBack` | lib/src/client_config.rs:12-25 | percent decoding (section 2.1 of RFC 3986) undoes the encoding, which holds no byte with a meaning in an authority |
| `SubscriptionUrl.EncodeKeepsIff` | lib/src/client_config.rs:10-25 | text is left as it is exactly when all of it is unreserved (section 2.3 of RFC 3986), and grows otherwise |
| `SubscriptionUrl.BaseParts` | lib/src/client_config.rs:27-47 | of every base, behind a scheme and credentials or without, exactly the host and the tail are kept |
| `SubscriptionUrl.BuildSubscriptionUrl` | lib/src/client_config.rs:40-54 | builds the specified URL |
| `SubscriptionUrl.ParsesBack` | lib/src/client_config.rs:40-54 | for every base, name and password, reading the URL by authority, last at sign and first colon gives back the credentials and the base's host and tail |
| `SubscriptionUrl.RebuildReplaces` | lib/src/client_config.rs:35-54 | building from a built URL with new credentials is building from the original base |

## Left out

- What the UDP decoder yields after a byte arrives while it drops: only safety, termination, the first misread and the bound on the bytes of datagrams are stated, because the code follows no layout there.
- The packets from the endpoint to the client (lib/src/http_udp_codec.rs:247-264): a header without a decoder in this repository.
- `ForwardedStreamSink`, and I/O errors of sources and sinks: an error ends the run that the theorems speak about.
- `PipeObjects.DuplexPipe.ExchangeAll`: rounds are given with the events of both directions in one order; a poll that makes progress in both at once is two events.
- `Deadlines.QuicMultiplexer.ProcessTimeouts`: the clock is read once per pass, and later readings are delays from it; flushing of packets is left out.
- QUIC packets' contents, handshakes, HTTP/3 frames and stream capacity are answers of a library and parameters here.
- `ChunkedCoding.ChunkedRoundTrip`: for responses without a Content-Length header; other headers of the response are not modelled.
- The text around a deep-link payload: the URI scheme, base64url, and PEM around certificates.
- The builder and the TOML export of client configurations: easy members.
- `IcmpMatching.V6ErrorMatches`: not for quotes behind hop-by-hop, routing or destination-options headers, where the code reads the rest of the header as the next one and may find anything.
- Serialising messages other than echo requests, which the code declares unreachable.
- Poisoned locks in the metrics, client addresses and traffic counters.
- `Associations.DatagramTransceiverShared.OnNewUdpConnection`: one open from check to answer; overlapped opens are the lemma `FinishRefinesIff`. Datagram transfer over an association is left out.
- CIDR ranges and the HKDF and AES check of an auth key are abstract predicates of the rules.
- TOML text of the rule file: the edit is that of the list of rules.
- Connection limits, ICMP over HTTP, ping and speed-test handlers, demultiplexing, address classes, authentication, certificates, settings and the command line: easy or library code.
