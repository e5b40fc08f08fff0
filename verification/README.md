# A verified model of the minnow TCP stack

This project models the TCP stack in `src/`, the network interface and router beneath it, and the wire format in
`util/`, and proves what they keep over all their runs. `dafny verify dfyconfig.toml` checks everything.

How the parts fit together:

- `machine.dfy`, `big_endian.dfy`, `ordered_keys.dfy`: fixed-width integers, byte order, ordered-map iteration.
- `wrapping_integers.dfy`, `byte_stream.dfy`: `Wrap32` and `ByteStream`.
- `segment_cache.dfy`, `reassembler.dfy`: the reassembler's cache of segments and the splitting loop over it, proved
  against `Assembly` in `assembly.dfy` (bytes written out, bytes pending, where the stream ends).
- `assembly_runs.dfy`, `completion.dfy`: `Assembly` against an index-to-byte map, and order independence.
- `assembly_limits.dfy`: what becomes of a stream of more than 2^31 bytes.
- `tcp_messages.dfy`, `tcp_receiver.dfy`, `receiver_promises.dfy`: the receiver, its acknowledgments and its window.
- `tcp_sender.dfy`, `sender_invariants.dfy`, `sender_flow_control.dfy`, `sender_timer.dfy`, `sender_runs.dfy`: the sender.
- `connection.dfy` and `connection_*.dfy`: a sender and a receiver joined by a network that drops, repeats and
  reorders; end-to-end delivery and truthful acknowledgments in every reachable state (`connection_runs.dfy`), and a run
  that shows why repeated bare SYNs are excluded (`connection_hazard.dfy`).
- `network_interface.dfy`, `arp_runs.dfy`, `arp_conservation.dfy`, `arp_exchange.dfy`: ARP as a timed state machine, and
  what two interfaces say to each other.
- `routing_table.dfy`, `router.dfy`: longest-prefix lookup and the routing loops.
- `checksum.dfy`, `parser.dfy`, `ipv4_header.dfy`, `tcp_segment.dfy`, `tcp_over_ip.dfy`: the wire format; `wire_fields.dfy`,
  `segment_layout.dfy`, `header_layout.dfy`, `adapter_laws.dfy`: the same byte by byte, and exactly what is accepted.

Every stateful object of the source is a class (headers, segments and messages are values); its abstract value is a
`View()`, each method ties the new view to a function of the old one, and the lemmas are about those functions.
Quantities the code never reads (`acked`, `backoffs`, `accepted`, `moved`) are ghost fields of the classes and history
fields of the views.

What the model found where the code differs from its own documentation; the model follows the code:

- `insert(0, "", _)` before the first byte caches an entry without a byte (`src/reassembler.cc:14`). The result
  differs from the intended one exactly in the states named by `Assembly.Hazard`. An empty segment for the start of
  the stream (a repeated SYN or a bare acknowledgment) can meet them; the connection model excludes those deliveries
  and nothing else (`OnlyEmptyAtStartIsExcluded`). `RepeatedSynMisplacesByte` is a run in which one of them would
  write the second byte out first. For the pieces of a stream the reassembler is right at every moment if and only if
  no piece is such an empty one (`RightExactlyIfAdmissible`).
- The early return at `src/reassembler.cc:23-25` skips the close (`FullStreamStaysOpen`).
- The casts to `int` at `src/reassembler.cc:12-14` make every last index smaller than the next byte once 2^31 bytes are
  written: with nothing pending, nothing is written ever again (`NothingIsWrittenAgain`, `NextByteIsLost`).
- A FIN before SYN closes the stream without being counted in the acknowledgment (`EarlyFinUnderstatesAck`); over all
  runs the acknowledgment is right if and only if the stream is open or a FIN arrived with SYN or after it
  (`AckIsExactOverRuns`).
- The sender's window accounting breaks if an acknowledgment takes out SYN together with other segments
  (`ReceiveKeepsAccounting`, `EarlyWindowBreaksAccounting`).
- The lookup masks the destination but not the prefix, and asks the bucket of length 0 for the address itself first. So
  it finds the longest of the routes with an unmasked match (`LookupFindsFindable`), which is the longest matching
  route if and only if the lookup reaches that one (`FoundIsBestIfReached`, `LookupAgreesIfReached`); for normalised
  prefixes it always does (`LookupAgrees`).
- `BufferList::truncate` ignores `skip_`, and erases the buffer it has just cut (`util/parser.cc:59-65`), so it is right
  only when the cut falls between buffers and nothing is skipped (`TruncateIsPrefix`, and for whole datagrams
  `PiecesParseAsBytes`).
- The header checksum is verified over the first 20 bytes, without the options (`util/ipv4_header.cc:46-51`). So a header
  with options that is right by section 3.1 of RFC 791 is accepted if and only if its options add up to a multiple of
  65535 (`OptionsBreakTheChecksum`, `HeaderWithOptionsIsRejected`).
- The two 16-bit length fields of a datagram wrap around together, so payloads of up to 65515 bytes survive the round
  trip, 20 more than an IPv4 datagram may hold, and no longer ones do (`SurvivesExactlyIfItFits`).

## Model

| member | source | states |
|---|---|---|
| Machine.ToInt32 | src/reassembler.cc:12-14 | the C++ conversion to a 32-bit signed integer; exact on the representable range |
| WrappingIntegers.Wrap32.UnwrapBySearch | src/wrapping_integers.cc:13-31 | the three-candidate search computes `Unwrap`, with 64-bit wrap-around near 2^64 |
| WrappingIntegers.UnwrapIsNearest | src/wrapping_integers.cc:13-31 | for every checkpoint the result is the congruent 64-bit number nearest to it, ties to the smaller; no other number is |
| WrappingIntegers.UnwrapIsCongruent | src/wrapping_integers.cc:13-31 | the result wraps back to the same number and lies within 2^31 of the checkpoint unless the range of uint64 prevents it |
| WrappingIntegers.WrapRoundTrip | src/wrapping_integers.cc:6-31 | unwrap(wrap(n, z), z, c) == n whenever n lies less than 2^31 above c or at most 2^31 below it |
| WrappingIntegers.WrapIsOffset | src/wrapping_integers.cc:6-11 | a number wraps to w exactly when its remainder modulo 2^32 is the offset w stands for |
| ByteStreams.ByteStream.constructor | src/byte_stream.cc:5-8 | a new stream is empty and open |
| ByteStreams.ByteStream.Compact | src/byte_stream.cc:12-16 | lazy compaction changes nothing but the layout |
| ByteStreams.ByteStream.Push | src/byte_stream.cc:10-23 | accepts the longest prefix that fits; storage never exceeds twice the capacity, and compaction moves at most as many bytes in all as were popped |
| ByteStreams.ByteStream.Peek | src/byte_stream.cc:46-52 | yields exactly the bytes accepted and not yet popped |
| ByteStreams.ByteStream.Pop | src/byte_stream.cc:54-61 | takes the given number of bytes, or all there are |
| ByteStreams.ByteStream.Close | src/byte_stream.cc:25-29 | closes the stream and changes nothing else |
| ByteStreams.ByteStream.SetError | src/byte_stream.hh:22-22 | records the error and changes nothing else |
| ByteStreams.ByteStream.AvailableCapacity | src/byte_stream.cc:36-39 | capacity minus the bytes buffered |
| ByteStreams.ByteStream.BytesPushed | src/byte_stream.cc:41-44 | the number of bytes ever accepted |
| ByteStreams.ByteStream.BytesBuffered | src/byte_stream.cc:68-71 | the number of bytes accepted and not popped |
| ByteStreams.ByteStream.IsFinished | src/byte_stream.cc:63-66 | closed and fully popped |
| ByteStreams.FirstInFirstOut | src/byte_stream.cc:10-61 | over every run: what was buffered ++ what was put in == what was taken out ++ what is buffered |
| ByteStreams.FinishedExactly | src/byte_stream.cc:25-71 | in every run of a new stream: finished if and only if it was closed and all that was put in was taken out; buffered and available bytes make up the capacity |
| Reassembly.Reassembler.constructor | src/reassembler.hh:10-11 | a new reassembler knows nothing |
| Reassembly.Reassembler.Split | src/reassembler.cc:33-68 | the loop over the cached segments keeps its invariant until it ends or stops early |
| Reassembly.Reassembler.SplitAround | src/reassembler.cc:40-53 | the part before a cached segment is stored, and the rest goes on behind it |
| Reassembly.Reassembler.SkipPast | src/reassembler.cc:54-64 | bytes a cached segment already covers are skipped |
| Reassembly.Reassembler.StoreBetween | src/reassembler.cc:29-70 | the store into an empty cache and the loop over a filled one leave either everything stored or a rest beyond the greatest segment |
| Reassembly.Reassembler.Store | src/reassembler.cc:29-77 | afterwards the cache holds the old bytes and the missing ones of the substring, in sorted disjoint segments |
| Reassembly.Reassembler.Drain | src/reassembler.cc:79-86 | takes out exactly the run of consecutive known bytes from the next index on |
| Reassembly.Reassembler.PushAndClose | src/reassembler.cc:88-94 | pushes the drained bytes whole, and closes the output when the cache is empty and the end is reached |
| Reassembly.Reassembler.Insert | src/reassembler.cc:8-95 | the whole method computes `Assembly.Insert` and keeps the cache sorted, disjoint and inside the window, for all indices that survive the casts to `int`; and `Assembly.InsertBeyond` once 2^31 bytes are written and nothing is cached |
| Reassembly.Reassembler.CountBytesPending | src/reassembler.cc:99-106 | the sum over the segments is the number of distinct pending indices |
| Assembling.InsertKeepsWindow | src/reassembler.cc:8-95 | pending bytes stay strictly between the bytes pushed and the window's end, the output only grows, and the window does not move |
| Assembling.WriteRunKeepsWindow | src/reassembler.cc:79-94 | the final push is never truncated |
| Assembling.InsertMeetsIntent | src/reassembler.cc:14-14 | the code does what is documented if and only if the insert is not one of the hazardous empty ones |
| AssemblyLimits.SmallIndicesAreHarmless | src/reassembler.cc:12-14 | up to 2^31 the casts do nothing |
| AssemblyLimits.LargeIndicesAreNot | src/reassembler.cc:12-14 | when the window and the substring both reach beyond 2^31 they always do harm |
| AssemblyLimits.BeyondIsRightIffNothingIsDue | src/reassembler.cc:12-29 | once 2^31 bytes are written and nothing is pending, the output is the documented one if and only if the substring lacks the next byte or there is no room for it |
| AssemblyLimits.BeyondClosesExactly | src/reassembler.cc:12-25 | when such an insert records an end and when it closes the stream |
| AssemblyLimits.NothingIsWrittenAgain | src/reassembler.cc:12-94 | from such a state on no run of inserts and reads writes another byte |
| AssemblyLimits.NextByteIsLost | src/reassembler.cc:12-14 | a run that reaches such a state, and the byte it then loses |
| AssemblyRuns.FrontierIsOutput | src/reassembler.cc:79-90 | bytes pushed and bytes pending are exactly the known bytes below and above the first unknown index |
| AssemblyRuns.KnownDeterminesAssembly | src/reassembler.cc:8-95 | the index-to-byte map determines output and cache contents |
| AssemblyRuns.InsertExtendsKnown | src/reassembler.cc:21-77 | an insert adds exactly the unknown indices inside the window; bytes already known win |
| AssemblyRuns.InsertCloses | src/reassembler.cc:16-19 | when an insert closes the output, in both directions |
| AssemblyRuns.InsertRefinesIndexMap | src/reassembler.cc:8-95 | one insert refines the insert of a plain index-to-byte map |
| AssemblyRuns.PopRefinesIndexMap | src/byte_stream.cc:54-61 | reading refines moving the map's window |
| AssemblyRuns.RunRefinesIndexMap | src/reassembler.cc:8-95 | every run of inserts and reads refines the index-to-byte map |
| Completion.Reassembled | src/reassembler.cc:8-95 | at every moment the output is the stream up to the first index not covered, and it is closed exactly when it is the whole stream and the last substring was seen |
| Completion.Completes | src/reassembler.cc:16-94 | substrings in any order that cover every byte and include the last one give the whole stream, an empty cache and a closed output |
| Completion.OrderDoesNotMatter | src/reassembler.cc:33-94 | two sequences with the same set of substrings end in the same state |
| Completion.RightExactlyIfAdmissible | src/reassembler.cc:8-95 | for pieces of a stream: known bytes, end and close are right at every moment if and only if no empty piece for index 0 comes while byte 0 is missing and byte 1, or the end of a one-byte stream, is known |
| Completion.EmptySubstringMisplacesByte | src/reassembler.cc:14-14 | an input on which byte 1 is written out in the place of byte 0 |
| Completion.EmptySubstringClosesEarly | src/reassembler.cc:92-94 | an input on which a one-byte stream is closed without its byte |
| Completion.FullStreamStaysOpen | src/reassembler.cc:23-25 | an input on which a complete, full stream is not closed |
| TcpReceiving.ReceiveKeepsValid | src/tcp_receiver.cc:6-34 | every segment keeps the receiver's invariant |
| TcpReceiving.TCPReceiver.NoteFlags | src/tcp_receiver.cc:15-25 | SYN, FIN and the index of the payload in the stream |
| TcpReceiving.TCPReceiver.InsertPayload | src/tcp_receiver.cc:26-26 | the payload goes into the reassembler and nothing else of the receiver changes |
| TcpReceiving.TCPReceiver.UpdateAckno | src/tcp_receiver.cc:28-33 | the acknowledgment from the bytes pushed, SYN, and FIN once closed |
| TcpReceiving.TCPReceiver.Receive | src/tcp_receiver.cc:6-34 | the whole method computes `Receiver.Receive`, errors included |
| TcpReceiving.TCPReceiver.Send | src/tcp_receiver.cc:36-46 | window and acknowledgment as functions of the state, with the truncation to 16 bits |
| ReceiverPromises.AckIsExactOverRuns | src/tcp_receiver.cc:15-33 | in every run of a new receiver that has seen SYN: the ackno is wrap(1 + bytes pushed + 1 if closed, isn) if and only if the stream is open or a segment with FIN that was not rejected arrived with SYN or after it |
| ReceiverPromises.AckNamesNextNeeded | src/tcp_receiver.cc:28-33 | for one segment, in terms of the flags it leaves: the ackno names the next number needed if and only if a closed stream had its FIN counted |
| ReceiverPromises.AnswerOverRuns | src/tcp_receiver.cc:36-46 | in every run what is sent carries RST if and only if a segment with RST arrived, and a number if and only if SYN did |
| ReceiverPromises.EventKeepsPromise | src/tcp_receiver.cc:6-46 | every segment but a FIN before SYN, and every read, keeps that, and makes the next number needed no smaller |
| ReceiverPromises.AckPromiseOverRuns | src/tcp_receiver.cc:15-46 | in every run without a FIN before SYN the acknowledgment names the next number needed after SYN, which never decreases |
| ReceiverPromises.WindowIsAvailable | src/tcp_receiver.cc:40-40 | the window never exceeds the available capacity, whatever the capacity; it is the smaller of 65535 minus the pending bytes and what is available, and with more than 65535 bytes pending what is available modulo 65536 |
| ReceiverPromises.PendingIsBounded | src/reassembler.cc:99-106 | pending bytes never exceed the available capacity |
| ReceiverPromises.WindowBytesAreKept | src/tcp_receiver.cc:36-46 | every byte inside the advertised window is kept by the next segment that carries it |
| ReceiverPromises.EarlyFinUnderstatesAck | src/tcp_receiver.cc:21-23 | a run of two segments after which the acknowledgment is one too low |
| TcpSending.TCPSender.MakeEmptyMessage | src/tcp_sender.cc:65-73 | the next seqno, and RST after an error |
| TcpSending.TCPSender.FillSegment | src/tcp_sender.cc:33-50 | one segment with SYN, payload and FIN as the window permits |
| TcpSending.TCPSender.Record | src/tcp_sender.cc:54-58 | a transmitted segment takes room in the window and sequence numbers and stays outstanding |
| TcpSending.TCPSender.Push | src/tcp_sender.cc:23-63 | the sending loop terminates (bytes, SYN and FIN unsent decrease) and sends what `Sender.Push` says, in order |
| TcpSending.TCPSender.CountAcked | src/tcp_sender.cc:87-100 | the erasing loop counts the segments wholly below the acknowledgment and reopens the window for each |
| TcpSending.TCPSender.WidenWindow | src/tcp_sender.cc:103-107 | a larger window makes room for the difference |
| TcpSending.TCPSender.RestartTimer | src/tcp_sender.cc:108-113 | a new acknowledgment restarts the timer with the initial timeout |
| TcpSending.TCPSender.Receive | src/tcp_sender.cc:75-114 | the whole method computes `Sender.Receive` |
| TcpSending.TCPSender.Tick | src/tcp_sender.cc:116-131 | the whole method computes `Sender.Tick` |
| TcpSending.TCPSender.SequenceNumbersInFlight | src/tcp_sender.cc:8-15 | the sum of the lengths of the outstanding segments |
| SenderInvariants.SendOneConsistent | src/tcp_sender.cc:31-62 | one round keeps: segments contiguous from 0, non-empty, each carrying its part of the stream with seqno wrap(number, isn) |
| SenderInvariants.PushConsistent | src/tcp_sender.cc:23-63 | the whole loop keeps it |
| SenderInvariants.ReceiveConsistent | src/tcp_sender.cc:75-114 | acknowledgments keep it |
| SenderInvariants.Conservation | src/tcp_sender.cc:31-101 | acknowledged payloads ++ outstanding payloads ++ bytes still in the stream == all bytes accepted |
| SenderInvariants.SegmentShape | src/tcp_sender.cc:33-58 | SYN is on the first segment only, FIN on the last only, and the last ends at the next absolute number |
| SenderInvariants.ErasedExactly | src/tcp_sender.cc:87-101 | a segment is taken out if and only if it ends at or below the acknowledgment |
| SenderInvariants.AckTakesEffectExactly | src/tcp_sender.cc:75-114 | an acknowledgment beyond the last number sent changes nothing while anything is outstanding; every other one takes out exactly the segments that end at or below it, says whether the receiver is full, and restarts timer and timeout if and only if it is new |
| SenderInvariants.EmptyMessageNamesNext | src/tcp_sender.cc:65-73 | a segment without content carries the next sequence number, before SYN the initial one |
| SenderFlowControl.PushSends | src/tcp_sender.cc:31-62 | segments of at most 1000 bytes concatenate to the bytes popped; afterwards the permitted window is used up or nothing is left to send |
| SenderFlowControl.OnlyTheLastIsShort | src/tcp_sender.cc:40-46 | all segments of a push but the last carry exactly 1000 bytes |
| SenderFlowControl.FailureResets | src/tcp_sender.cc:65-73 | every segment sent carries RST if and only if the stream has failed |
| SenderFlowControl.PushAccounts | src/tcp_sender.cc:54-55 | window + in flight stays the largest window, so the 16-bit subtraction never wraps |
| SenderFlowControl.PushRespectsWindow | src/tcp_sender.cc:23-63 | `push` as called: both of these, with the whole window permitted, or one sequence number after a zero window |
| SenderFlowControl.ReceiveKeepsAccounting | src/tcp_sender.cc:87-107 | an acknowledgment keeps the accounting if and only if it does not take out SYN while anything else is outstanding |
| SenderFlowControl.SynTravelsAlone | src/tcp_sender.hh:50-51 | until SYN is acknowledged, SYN alone is outstanding |
| SenderFlowControl.HonestAckKeepsAccounting | src/tcp_sender.cc:75-107 | with a peer whose first acknowledgment covers SYN the accounting holds and the window is the largest advertised |
| SenderTimer.TickTimed | src/tcp_sender.cc:116-131 | the timer stays below the timeout, which is the initial one doubled once per recorded expiry |
| SenderTimer.ReceiveTimed | src/tcp_sender.cc:108-113 | acknowledgments keep that |
| SenderTimer.PushTimed | src/tcp_sender.cc:33-38 | sending keeps that |
| SenderTimer.QuietBeforeTimeout | src/tcp_sender.cc:118-123 | any sequence of ticks adding up to less than the timeout retransmits nothing |
| SenderTimer.ExpiresOnTime | src/tcp_sender.cc:116-131 | the tick that makes the accumulated time reach the timeout, and no other, retransmits the lowest outstanding segment, and nothing else |
| SenderRuns.ConservedOverRuns | src/tcp_sender.cc:23-131 | in every run, whatever the peer acknowledges and advertises: acknowledged payloads ++ outstanding payloads ++ bytes still in the stream == all bytes accepted, and the segments are contiguous |
| SenderRuns.SafeOverRuns | src/tcp_sender.cc:23-131 | in every run with an honest peer: conservation; in flight <= max(1, largest window advertised); timeout == initial * 2^k with k the expiries since the last new acknowledgment that were of SYN or outside zero-window mode; timer, retransmission count and zero-window mode are what the trace of messages says |
| SenderRuns.EventIsGood | src/tcp_sender.cc:23-131 | every event keeps all sender invariants |
| SenderRuns.EventAgrees | src/tcp_sender.cc:75-131 | every event changes windows, timer and counters exactly as the trace of messages says |
| SenderRuns.EarlyWindowBreaksAccounting | src/tcp_sender.cc:90-107 | a run with a window advertised before SYN is acknowledged, after which the accounting is wrong |
| ConnectionSending.PushKeepsInv | src/tcp_sender.cc:23-63 | everything `push` puts into the network carries its part of the stream; before SYN is acknowledged it is SYN |
| ConnectionSending.TickKeepsInv | src/tcp_sender.cc:116-131 | so does everything retransmitted |
| ConnectionSending.EmptyKeepsInv | util/tcp_peer.hh:73-77 | empty segments for acknowledgments keep the connection's invariant |
| ConnectionReceiving.IndexIsNearest | src/tcp_receiver.cc:15-25 | SYN stands for index 0; after SYN the index is, of all a sequence number can stand for, the one nearest to the bytes pushed |
| ConnectionReceiving.SegmentInserts | src/tcp_receiver.cc:15-26 | every segment in the network reaches the reassembler at the index its payload has in the stream |
| ConnectionReceiving.InsertIsTruthful | src/reassembler.cc:8-95 | a true substring leaves only true bytes and a true end |
| ConnectionReceiving.DeliverKeepsInv | src/tcp_receiver.cc:6-34 | delivering any segment, any number of times, in any order, keeps the invariant |
| ConnectionAcks.AckIsUnderstood | src/tcp_sender.cc:77-77 | the sender unwraps every acknowledgment in the network to the number the receiver meant |
| ConnectionAcks.DeliverAckKeepsInv | src/tcp_sender.cc:75-114 | processing any acknowledgment, old or repeated, keeps the invariant |
| ConnectionAcks.SendAckKeepsInv | src/tcp_receiver.cc:36-46 | a new acknowledgment is true |
| ConnectionRuns.StepKeepsInv | src/tcp_sender.cc:23-131 | every step of the composed system keeps the invariant |
| ConnectionRuns.EndToEnd | src/tcp_receiver.cc:6-46 | in every run the receiver's output is a prefix of the bytes the sender accepted; if it is closed it is all of them and the sender had closed (section 3.4 of RFC 9293) |
| ConnectionRuns.AcksNeverLie | src/tcp_sender.cc:87-101 | no acknowledgment in flight or processed exceeds what the receiver needs next, and every segment dropped from the send buffer is in the receiver's output |
| ConnectionRuns.InFlightFitsReceiver | src/tcp_sender.cc:27-30 | what is in flight never exceeds the receiver's capacity |
| ConnectionRuns.AllAckedMeansDelivered | src/tcp_sender.cc:87-101 | when everything including FIN is acknowledged, the receiver has the whole stream and has closed it |
| ConnectionRuns.OnlyEmptyAtStartIsExcluded | src/reassembler.cc:14-14 | the only deliveries the model excludes are empty segments for index 0 before the first byte |
| ConnectionHazard.RepeatedSynMisplacesByte | src/tcp_receiver.cc:15-26 | a run of the connection, for any two bytes, after which the delivery of a SYN in the network is not enabled and would write the second byte out first |
| NetworkInterfaces.NetworkInterface.SendDatagram | src/network_interface.cc:31-61 | transmits to a cached address, or queues and asks |
| NetworkInterfaces.NetworkInterface.TransmitAll | src/network_interface.cc:111-120 | transmits a queue in order |
| NetworkInterfaces.NetworkInterface.HandleArp | src/network_interface.cc:78-122 | learns, replies if asked, and flushes the queue once |
| NetworkInterfaces.NetworkInterface.RecvFrame | src/network_interface.cc:64-124 | frames for other addresses are dropped, except ARP |
| NetworkInterfaces.NetworkInterface.AgeCache | src/network_interface.cc:129-137 | the erase-while-iterating loop ages every entry once, in any order |
| NetworkInterfaces.NetworkInterface.AgePending | src/network_interface.cc:139-148 | so does the loop over pending requests |
| NetworkInterfaces.NetworkInterface.Tick | src/network_interface.cc:127-149 | both |
| ArpRuns.CacheIsFresh | src/network_interface.cc:81-137 | a cache entry exists exactly when less than 30000 ms have passed since the last ARP message from that address, and holds the address that message gave |
| ArpRuns.NeverBothOverRuns | src/network_interface.cc:31-122 | no address is both cached and pending, and no request is pending longer than 5000 ms |
| ArpRuns.StepRequests | src/network_interface.cc:45-59 | a request goes out exactly when a datagram is submitted for an address that is not cached and not pending, or pending for more than 5000 ms |
| ArpRuns.RequestsLieApart | src/network_interface.cc:45-148 | any two requests for the same address are separated by more than 5000 ms of ticks |
| ArpExchange.AddressIsFound | src/network_interface.cc:31-122 | for any two interfaces: the first datagram for an unknown neighbour makes one ask, the other learn and answer, the first learn and send, and the other receive the datagram |
| ArpExchange.AnswersExactly | src/network_interface.cc:82-96 | an ARP reply goes out if and only if a readable request names the interface's own address, first and once |
| ArpExchange.AskedIsAnswered | src/network_interface.cc:83-96 | it goes to the asker, names the interface as sender and the asker as target |
| ArpExchange.EveryFrameIsSigned | src/network_interface.cc:36-119 | every frame names the interface as its source, and is a datagram, a broadcast question for a next hop, or an answer |
| ArpExchange.ReceivesWhatIsAddressed | src/network_interface.cc:64-76 | in every run the datagrams received are exactly those in frames for the interface or for everybody, in order |
| ArpConservation.EveryDatagramHasOneFate | src/network_interface.cc:31-149 | every datagram submitted was transmitted once, is still queued, or expired; transmissions to a next hop keep the order of submission |
| ArpConservation.DatagramsGoWhereHeard | src/network_interface.cc:35-119 | every datagram goes to the address in the last ARP message from its next hop, less than 30 seconds old |
| RoutingTables.BestIsLongestAndLatest | src/router.cc:8-13 | the plain scan picks a route exactly when one matches, the longest, the latest of equal ones |
| RoutingTables.MatchesIsSamePrefix | src/router.cc:8-13 | a route matches if and only if prefix and destination agree when divided by 2 to the 32 minus length |
| RoutingTables.TableHoldsLatest | src/router.cc:23-24 | the nested map holds the latest route of each length and prefix |
| RoutingTables.LookupFindsFindable | src/router.cc:43-65 | for every sequence of routes, every length and every destination the bucket scan finds the longest route whose prefix equals the masked destination, the latest of equal ones; of length 0 first the one for the address itself |
| RoutingTables.FoundIsBestIfReached | src/router.cc:43-65 | that is the longest matching route, the latest of equal ones, if and only if the lookup reaches it |
| RoutingTables.LookupAgreesIfReached | src/router.cc:43-65 | for every sequence of routes the bucket scan and a plain scan of all routes give the same answer if and only if the longest match is reached, or an equally long route with the same next hop is found in its place |
| RoutingTables.LookupAgrees | src/router.cc:43-65 | in particular they agree for every sequence of normalised routes (section 5.2.4.3 of RFC 1812) |
| RoutingTables.OneRouteIsFoundIffNormalised | src/router.cc:51-55 | a single route is found for exactly the destinations it matches if and only if its prefix is normalised |
| Routers.Router.AddInterface | src/router.hh:18-22 | appends the interface and returns its index; the interfaces stay different if and only if it is a new one |
| Routers.Router.AddRoute | src/router.cc:14-25 | enters the route into its bucket, replacing one with the same prefix; the table stays the one built from all routes entered |
| Routers.Router.FindRoute | src/router.cc:43-65 | the loop over the buckets computes `Lookup` |
| Routers.Router.RouteDatagram | src/router.cc:33-65 | one datagram: popped, hop limit lowered, checksum renewed, handed to its interface or dropped |
| Routers.Router.DrainInterface | src/router.cc:33-66 | the inner loop |
| Routers.Router.Forward | src/router.cc:56-62 | a datagram goes to the interface of the route found, or the routing ends with an exception if and only if that interface does not exist |
| Routers.Router.Route | src/router.cc:28-68 | the nested loops with their early return and the exception for a missing interface compute `RouteFrom`, which has done what `RouteIsInOrder` says |
| Routers.RouteIsInOrder | src/router.cc:28-68 | in terms of the routes entered: the queues are taken one after the other, in order; everything up to the first datagram whose hop limit is at most 1 or whose route names no interface is given to its interface or dropped, everything after it stays queued |
| Routers.StopsExactly | src/router.cc:35-62 | a datagram ends the routing if and only if its hop limit is at most 1 or the best route the lookup can find names no interface |
| Routers.ForwardedVerifies | src/router.cc:37-41 | a forwarded header differs in hop limit and checksum only, and its checksum verifies |
| Routers.HandFollowsLongestPrefix | src/router.cc:43-65 | for every table: a datagram is handed to the interface and next hop of the longest route the lookup can find, or to nobody |
| Checksums.InternetChecksum.Add | util/checksum.hh:15-25 | the byte loop adds the byte sum, with the parity carried across calls |
| Checksums.InternetChecksum.AddBuffers | util/checksum.hh:38-43 | several buffers count as their concatenation |
| Checksums.InternetChecksum.Value | util/checksum.hh:27-36 | the fold loop terminates and yields the complement of the folded sum |
| Checksums.FoldIsRemainder | util/checksum.hh:31-33 | folding keeps the remainder modulo 65535, and only 0 folds to 0 |
| Checksums.SplitDoesNotMatter | util/checksum.hh:38-43 | the value does not depend on how the bytes are split (section 2 of RFC 1071) |
| Checksums.ValueOfBytes | util/checksum.hh:15-36 | no 32-bit overflow up to 65535 bytes |
| Checksums.ByteSumIsWordSum | util/checksum.hh:15-25 | the byte loop adds up the 16-bit big-endian words (section 1 of RFC 1071) |
| Checksums.ValueIsZero | util/checksum.hh:27-36 | the value is 0 if and only if the sum, in 32 bits, is a positive multiple of 65535 |
| Checksums.OneByteIsNoticed | util/checksum.hh:15-36 | one changed byte makes a value of 0 different from 0 |
| Checksums.ComputedChecksumVerifies | util/tcp_segment.cc:84-93 | a computed checksum written into its field makes the receiver's value exactly 0 |
| BigEndians.RoundTrip | util/parser.hh:103-112 | reading back what was written, for every width |
| BigEndians.RoundTripBack | util/parser.hh:72-92 | writing what was read gives the same bytes |
| Parsing.BufferList.RemovePrefix | util/parser.cc:16-28 | the loop leaves the same bytes in the same buffers as `Drop`: used-up buffers go, of the next one more is skipped |
| Parsing.BufferList.Truncate | util/parser.cc:30-68 | the loop keeps the leading buffers that fit whole, and nothing of the one that would be cut |
| Parsing.TruncateIsPrefix | util/parser.cc:30-68 | `truncate` leaves the first bytes if and only if nothing or everything is cut, or nothing is skipped and the cut falls between two buffers |
| Parsing.BufferList.DumpAll | util/parser.cc:70-85 | all bytes left, in non-empty buffers |
| Parsing.BufferList.AllViews | util/parser.cc:87-100 | the bytes left, without using them up |
| Parsing.Parser.Integer | util/parser.hh:72-92 | reads a big-endian integer across buffers, or sets the error and changes nothing |
| Parsing.Parser.ConcatenateAllRemaining | util/parser.cc:117-131 | the bytes left, as one string |
| Parsing.Serializer.Integer | util/parser.hh:103-112 | appends the big-endian bytes |
| Parsing.Serializer.Flush | util/parser.cc:133-139 | moves the buffered bytes to the output |
| Parsing.Serializer.Buffer | util/parser.cc:141-147 | appends a buffer |
| Parsing.Serializer.Finish | util/parser.cc:164-168 | everything written, in order, in non-empty buffers |
| Ipv4.HeaderRoundTrip | util/ipv4_header.cc:10-78 | a header with the computed checksum is parsed back, whatever follows (section 3.1 of RFC 791) |
| HeaderLayouts.HeaderLayout | util/ipv4_header.cc:55-78 | the header byte by byte (section 3.1 of RFC 791) |
| HeaderLayouts.ParsesExactlyHeaders | util/ipv4_header.cc:10-52 | parsing succeeds if and only if there are 20 bytes, version 4, a header length of at least 5, and a complete checksum over the first 20 bytes; every field is given by its bytes |
| HeaderLayouts.ParsesExactlyDatagrams | util/ipv4_datagram.hh:16-21 | the payload is what follows the options, up to the total length or the end of the bytes |
| HeaderLayouts.OptionsBreakTheChecksum | util/ipv4_header.cc:46-51 | a right header with options is accepted if and only if the options add up to a multiple of 65535 |
| HeaderLayouts.HeaderWithOptionsIsRejected | util/ipv4_header.cc:46-51 | a right header of 24 bytes that is rejected |
| Ipv4.HeaderChecksumVerifies | util/ipv4_header.cc:105-115 | the checksum over a header with the computed checksum is complete |
| Ipv4.SerializeHeader | util/ipv4_header.cc:55-78 | writes the encoding of the header |
| Ipv4.ParseHeaderFrom | util/ipv4_header.cc:10-52 | computes `ParseHeader`: version, header length, options and checksum checked |
| Ipv4.ComputeHeaderChecksum | util/ipv4_header.cc:105-115 | computes the checksum with the field set to 0 |
| Ipv4.SerializeDatagram | util/ipv4_datagram.hh:23-27 | header and payload, in non-empty buffers |
| Ipv4.PiecesParseAsBytes | util/ipv4_datagram.hh:16-21 | for non-empty buffers with a header in order: header and payload come out as from the bytes in one string if and only if nothing or everything is cut off, or both ends of the payload lie between two buffers |
| Ipv4.ParseDatagramFrom | util/ipv4_datagram.hh:16-21 | parses a datagram from any non-empty buffers, cutting off what follows as `truncate` does, wherever that is defined |
| Ipv4.TrailingBytesLoseThePayload | util/parser.cc:59-65 | with bytes after the payload in the one buffer of a datagram, parsing reaches the undefined case |
| TcpSegments.SegmentRoundTrip | util/tcp_segment.cc:12-93 | a segment with the computed checksum is parsed back, the two RST flags made one |
| SegmentLayouts.SegmentLayout | util/tcp_segment.cc:67-82 | the segment byte by byte (section 3.1 of RFC 9293) |
| SegmentLayouts.ParsesExactlySegments | util/tcp_segment.cc:12-59 | parsing succeeds if and only if the checksum over pseudo-header and bytes is complete, there are 20 bytes, and the data offset is at least 5; every field is given by its bytes, the payload by what follows the options |
| SegmentLayouts.ChangedSegmentIsRejected | util/tcp_segment.cc:14-20 | a segment of which one byte was changed is rejected |
| TcpSegments.SegmentChecksumVerifies | util/tcp_segment.cc:14-20 | its checksum value is 0 for every segment of up to 65535 bytes |
| TcpSegments.SerializeSegment | util/tcp_segment.cc:67-82 | writes the encoding of the segment |
| TcpSegments.ComputeSegmentChecksum | util/tcp_segment.cc:84-93 | computes the checksum with the field set to 0 |
| TcpSegments.ParseSegmentFrom | util/tcp_segment.cc:12-59 | computes `ParseSegment`: the checksum first, then the fields, options and payload |
| TcpOverIp.TCPOverIPv4Adapter.WrapTcpInIp | util/tcp_over_ip.cc:76-96 | header and segment for a message, checksums computed |
| TcpOverIp.TCPOverIPv4Adapter.UnwrapTcpInIp | util/tcp_over_ip.cc:25-72 | every rejection, and what a listening adapter learns |
| TcpOverIp.DatagramComesBack | util/tcp_over_ip.cc:76-96 | a wrapped datagram has nothing to cut off and parses into its header and segment |
| TcpOverIp.RoundTrip | util/tcp_over_ip.cc:25-96 | between mirrored adapters every message that fits comes back, the two RST flags made one (section 3.1 of RFC 9293) |
| AdapterLaws.PseudoChecksumIsSum | util/ipv4_header.cc:85-103 | the contribution of the header is the sum of the 12 bytes of the pseudo-header (section 3.1 of RFC 9293) |
| AdapterLaws.HeaderWritten | util/tcp_over_ip.cc:84-93 | every field of the header written for a message, and a complete checksum |
| AdapterLaws.SegmentWritten | util/tcp_over_ip.cc:78-92 | message and ports in the segment, and a complete sum over pseudo-header and segment |
| AdapterLaws.AcceptsExactly | util/tcp_over_ip.cc:25-72 | exactly which datagrams give a message, which message, and what the adapter is afterwards, listening or not |
| AdapterLaws.ListenerMirrorsClient | util/tcp_over_ip.cc:54-64 | the first SYN makes a listening adapter the mirror image of the client that sent it |
| AdapterLaws.ChangedMessageIsLost | util/tcp_over_ip.cc:43-47 | a message of which one byte was changed is delivered by no adapter |
| TcpOverIp.RoundTripHoweverCut | util/tcp_over_ip.cc:25-96 | the same from any non-empty buffers that hold the bytes sent, with the header read and the prefix cut off as the code does it |
| TcpOverIp.TCPOverIPv4Adapter.Read | util/tuntap_adapter.cc:6-18 | parse, then unwrap; what the mirrored adapter wrapped and serialized comes back, however it was cut into non-empty buffers |
| TcpOverIp.SurvivesExactlyIfItFits | util/tcp_over_ip.cc:86-93 | for every cut into non-empty buffers, with `truncate` as it is, a message comes back if and only if its payload has at most 65515 bytes |

## Left out

- Reassembly.Reassembler.Insert: not for casts that do harm while segments are cached or fewer than 2^31 bytes are written; the source then caches entries that end before they start.
- TcpReceiving.TCPReceiver.Receive: requires window and payload to end at or below 2^31, because of the same casts; `AssemblyLimits` says what the reassembler does beyond.
- TcpSending.TCPSender.Receive: only acknowledgments that carry a number; the source dereferences a missing one before it tests for it, so the branch at `src/tcp_sender.cc:82-85` is not part of this model.
- Ipv4.ParseDatagramFrom: only where `ParsePieces` is defined; otherwise the source takes the front of an empty list (`util/parser.cc:70-85`). Buffers are non-empty.
- Ipv4.ParseHeaderFrom: headers and segments are values, so filling their fields in place is modelled as returning a new value (also for segments).
- Ipv4.ComputeHeaderChecksum: requires version 4; for any other the source throws.
- Routers.Router.Route: requires that no interface object was added twice; two entries for the same queue are not modelled.
- RoutingTables.LookupFindsFindable: for lengths above 32 the source shifts by a wrapped count, which is not defined; the model then compares whole addresses.
- ConnectionRuns.EndToEnd: stream length plus receive capacity at most 2^31, no write after the close, an active opener with an honest peer, and no empty segment that meets `Assembly.Hazard`.
- SenderRuns.SafeOverRuns: fewer than 2^64 - 2 bytes in all; 64-bit counters, the timer and the timeout are unbounded numbers, so their overflow is not modelled.
- RST and error propagation in the connection, and the linger timing of `util/tcp_peer.hh`.
- Liveness: nothing is proved about networks that deliver eventually.
- Sockets, event loop, tunnels, threads and the command-line programs; loss is a network that need not deliver.
- Ethernet and ARP codecs: frames carry parsed payloads, and one that cannot be parsed has no effect.
- Ownership and moves of buffers (`util/ref.hh`): buffers are byte sequences, and a list is not used after it is dumped.
- Text output (`to_string`, `summary`, debug messages).
