# Verification model of the tcp-impl-demo stack

A user-space TCP stack keeps three things straight: which bytes it has sent and which
of them are acknowledged, what the bytes of a segment are on the wire, and what state a
connection is in. This project models the code that does this and proves what it
guarantees, for all inputs and all runs.

**The reliable sender** (`Sender.dfy`, `TCPReliability.dfy`, `TCPSocket.dfy`,
`ConnectionManager.dfy`). The objects of the program are classes: counters and lists are
fields that methods update, segments are shared objects that a pass marks in place, and the
loops are loops. Each class has a view, a plain value, and every method is proved to do to
the view what a function of module `ReliableSender` or `SendLoop` says. The laws are about
these functions:

- `SlidingWindow.dfy`: every call of every run is a step of the window of RFC 793, section
  3.2; removed, unacknowledged and unsent bytes are always exactly the bytes ever buffered;
  an acknowledgment removes exactly a prefix. The invariant holds for every initial sequence
  number, under two hypotheses: the numbers of bytes sent stay below 2^32, and nothing
  unsent is acknowledged.
  `bytes_in_flight_` is *not* exact in general, because `last_ack_received_` starts at 0
  whatever the origin; the exact size of the error is proved (`AckDrift`), and when it is 0.
- `SequenceWrap.dfy`: why the first hypothesis is needed. Over every run, whatever is
  acknowledged, a segment stays in the list for good once the numbers have reached 2^32.
- `AckLaws.dfy`: acknowledgments in any order and number act as the highest of them; the
  window guard is safe over every interleaving; without the guard the subtraction wraps, and
  exactly when that sends too much is proved.
- `Retransmission.dfy`: a silent peer is given up on within a bounded time, which shrinks with
  the timeouts of the run, and not before a minimal one.
- `SendLoop.dfy`: what one `send` call does to the bytes, how many it reports (a closed
  form for every pattern of failures), that the wire carries all that was written in order,
  and that header and tracked sequence numbers agree until a transmission fails or a segment
  is retransmitted. Over runs with failures and retransmission passes the wire stays numbered
  consecutively, and connection and sender end on the same number exactly when as many bytes
  were sent again as were lost. Every run of a socket is a run of the sender, so the laws
  about the sender hold for sockets.
- `RttEstimator.dfy`: the estimates stay in the hull of the samples and converge at a
  logarithmic rate to a band that cannot be narrowed. Times are in milliseconds here and in
  nanoseconds where the clock is compared.

**Checksum and wire format** (`Checksum.dfy`, `ChecksumLaws.dfy`, `TcpWire.dfy`,
`IpWire.dfy`, `Packets.dfy`). The checksum loops are proved against the unbounded word sum;
its meaning mod 65535, its agreement with RFC 1071, composition, order independence and
error detection follow. Everything is parametrised by the byte order of the host. A packet
survives both layers exactly when it fits the 16-bit total length, *any* one-byte error in
it is refused, and a changed word is missed exactly when one zero of one's-complement
arithmetic becomes the other. The documentation calls the checksum the Internet checksum of
RFC 1071. The code differs from that on a little-endian host: an odd last byte is always
shifted left by 8, the IP checksum goes through an extra `htons`, and the TCP checksum is
taken over the header in host order. The model follows the code; it is self-consistent
between hosts of the same order and standard on a big-endian host. When a little-endian host
still agrees is proved for each of the three: `ChecksumIsRfc1071Iff` for one buffer,
`WireChecksumStandardIff` for the IP header and `ChecksumIsRfc793Iff` for the segment, each
with an input on which it does not. `AnyOrderRoundTripIff` says exactly which packets pass
between hosts of different order.

**The state machine** (`StateMachine.dfy`). Until it returns to CLOSED, the state is a
function of the events that happened, from the open call to TIME_WAIT; what ends a
connection, and when it may send and receive, is characterised exactly; every life of a
connection climbs a rank.

`Widths.dfy` holds the fixed-width integers and their memory images.

The results of system calls and the clock are parameters: `net(i)` is what the raw socket
does with the i-th packet, `clock(i)` the i-th reading of the clock. Both are arbitrary.
`size_t` is 64 bits wide, as segment ends and the window guard need it.

## Model

| member | source | states |
|---|---|---|
| SlidingWindow.RunRefines | src/tcp_reliability.cpp:13-70 | Every call of every run that sends no number past 2^32 and gets no ack of unsent bytes, from any origin, however much is buffered, is a step of the (stream, SND.UNA, SND.NXT) window between valid windows |
| SlidingWindow.InvariantHolds | src/tcp_reliability.cpp:13-147 | Over every such run: removed ++ unacked ++ buffered bytes are the stream; segments are contiguous, in order, end at next_seq_num_; only acknowledged ones are gone; the counter errs by at most the acknowledged part of the origin |
| SlidingWindow.StepRefines | src/tcp_reliability.cpp:13-147 | One call keeps the invariant and is a window step |
| SlidingWindow.AckRuleIff | src/tcp_reliability.cpp:13-31 | An ack is handled by the rule SND.UNA < SEG.ACK =< SND.NXT if and only if it does not exceed next_seq_num_: the code does not refuse acks of unsent bytes |
| SlidingWindow.StrayAckBreaksRule | src/tcp_reliability.cpp:13-19 | On a fresh sender an ack of 5 moves the cursor |
| SlidingWindow.SentBytes | src/tcp_reliability.cpp:48-70 | The bytes handed out are the stream between the old and the new SND.NXT |
| SlidingWindow.AckRemovesPrefix | src/tcp_reliability.cpp:136-147 | The removed segments are exactly a prefix, those ending at or before the ack; only the first remaining one may be partly acknowledged |
| SlidingWindow.ExactAccounting | src/tcp_reliability.cpp:13-31 | Origin 0: in flight = next - last ack; tracked bytes = in flight + acknowledged part of the head |
| SlidingWindow.FullAckDrains | src/tcp_reliability.cpp:13-31 | Acknowledging next_seq_num_ empties the list and zeroes the counter, for any origin |
| SlidingWindow.SentIsAcknowledgedOrTracked | src/tcp_reliability.cpp:33-35 | Nothing is lost: a sent number that is_seq_acknowledged denies is carried by a segment still tracked, and every number of a removed segment is acknowledged |
| SlidingWindow.RunTracksNoEmpty | src/tcp_reliability.cpp:48-70 | No run tracks an empty segment, whatever wraps and whatever is acknowledged |
| SlidingWindow.AckDrift | src/tcp_reliability.cpp:13-31 | The exact shortfall of bytes_in_flight_ after an ack, from the shortfall before it, the origin and the cursor |
| SlidingWindow.ExactAfterAckIff | src/tcp_reliability.cpp:7-31 | Exact accounting survives an ack if and only if the cursor had reached the origin or next_seq_num_ is the larger of ack and origin |
| SlidingWindow.FirstAckLosesCount | src/tcp_reliability.cpp:21-27 | From origin 100, with two bytes sent one by one, the ack of the first loses count of the second |
| SlidingWindow.OthersKeepDrift | src/tcp_reliability.cpp:48-70 | No call but an ack changes the shortfall |
| SlidingWindow.RecordsTheRun | src/tcp_reliability.cpp:13-147 | The history bookkeeping does not influence the sender |
| SequenceWrap.FinalAckDrainsIff | src/tcp_reliability.cpp:136-147 | After any run of any calls and acks, from any origin, acknowledging SND.NXT empties the list if and only if it was empty, or the bytes sent have not reached number 2^32 and the cursor has not run ahead; once they have, no ack ever empties it |
| SequenceWrap.CrossingSegmentStays | src/tcp_reliability.cpp:136-147 | Two bytes numbered 2^32 - 1 and 0 stay tracked when both are acknowledged |
| AckLaws.TwoAcks | src/tcp_reliability.cpp:13-31 | Two acks in a row act as the larger one, from any state |
| AckLaws.AcksConfluent | src/tcp_reliability.cpp:13-31 | Any non-empty list of acks leaves the whole sender as its maximum alone would; no hypothesis on wrap or origin |
| AckLaws.AckOrderIrrelevant | src/tcp_reliability.cpp:13-31 | Order and repetition of acks do not matter |
| AckLaws.CanSendIff | src/tcp_reliability.cpp:37-40 | The guard admits a size exactly when it fits both windows, or when the 64-bit sum wraps |
| AckLaws.WithinWindowIff | src/tcp_reliability.cpp:48-70 | A dequeue ends within the window if and only if it began within it or wraps the 32-bit counter |
| AckLaws.UnguardedOverrun | src/tcp_reliability.cpp:48-51 | Two bytes buffered, one sent, the window closed: an unguarded dequeue sends the other |
| AckLaws.WindowSafety | src/tcp_socket.cpp:166-177 | Over any interleaving of guarded sends, acks and window changes, the subtraction never wraps at a send, each send ends within the window of that moment, and the counter fits 16 bits |
| Retransmission.PassKeepsOnTime | src/tcp_reliability.cpp:72-91 | One pass, one segment, timeouts up to any bound R: marks stay counted, within the limit and bounded in time by R; a mark comes more than the timeout after the previous one |
| Retransmission.RunStaysOnTime | src/tcp_socket.cpp:265-281 | The count, the limit and the bound, for every segment over every run whose passes are at most a period apart |
| Retransmission.RunSpacesMarks | src/tcp_reliability.cpp:72-91 | Between any two neighbouring calls of any run, from any state and with passes at any time, a tracked segment is new, unchanged, or marked once more, within the limit and more than the timeout of that moment after its last mark |
| Retransmission.GivesUpInTime | src/tcp_reliability.cpp:93-105 | If no timeout exceeded R, a segment unacknowledged for more than limit*(R + period) + R makes has_timeout true, its limit used up |
| Retransmission.GivesUpNotBefore | src/tcp_reliability.cpp:93-105 | After any run, has_timeout true implies some segment has waited more than limit + 1 of the least timeout, 200 ms unless set_initial_rto asked for less |
| Retransmission.SilentPeerIsNoticed | src/tcp_socket.cpp:265-281 | From a fresh sender, over any timely run with timeouts up to R, that deadline makes has_timeout true; R = 60 s serves every measured timeout |
| SendLoop.SendConserves | src/tcp_socket.cpp:155-180 | Sent chunks, failed chunk and remaining buffer are the old buffer followed by the data; chunks have 1 to 1024 bytes; the result counts the sent bytes and is at most the length if nothing was buffered |
| SendLoop.SendTracksNew | src/tcp_socket.cpp:166-177 | A call leaves the tracked segments alone and appends new ones, the k-th sent at the k-th reading of the clock |
| SendLoop.SendClosedForm | src/tcp_socket.cpp:166-177 | Whatever fails, the result is the smaller of all that was buffered and the full chunks before the first failure, among those that cover the data and fit the window |
| SendLoop.SendFailsIff | src/tcp_socket.cpp:170-176 | A chunk is lost if and only if one of the transmissions the call wants fails, their number being known before the call |
| SendLoop.OverReportsIff | src/tcp_socket.cpp:155-180 | send reports more than it was given if and only if older bytes waited, the data does not end a chunk, the window admits the last chunk, and no transmission up to it fails |
| SendLoop.OneByteReportedAsTwo | src/tcp_socket.cpp:155-180 | A byte sent to a closed window, the window opened, one more byte: the second call returns 2 |
| SendLoop.SendWorkConserving | src/tcp_socket.cpp:166-177 | If no wanted transmission fails, the loop stops only when the data is covered or the window is too full for a chunk |
| SendLoop.RoundsAgree | src/tcp_socket.cpp:166-177 | In one call tracked and transmitted segments carry the same numbers and bytes; the two counters part exactly when a transmission fails |
| SendLoop.WireAgreesWithTracking | src/tcp_socket.cpp:83-177 | Over any run of successful send calls and environment steps, every header number is the tracked one, modulo 2^32 |
| SendLoop.WireCarriesWritten | src/tcp_socket.cpp:155-180 | Over any such run, the payload on the wire followed by the buffer is all that was ever passed to send, numbered consecutively modulo 2^32 |
| SendLoop.WireNumbered | src/tcp_socket.cpp:155-281 | Over every run, failures and passes included, the wire is numbered consecutively from the initial number and local_seq is where it ends |
| SendLoop.CountersAgreeIff | src/tcp_socket.cpp:155-281 | At the end of every run, bytes on the wire, lost and buffered are those written and sent again; local_seq is next_seq_num_ if and only if as many bytes were sent again as were lost, modulo 2^32 |
| SendLoop.SendNumbered | src/tcp_socket.cpp:166-177 | Whatever fails, the segments of one call are numbered consecutively from local_seq, which ends behind them |
| SendLoop.SocketRunIsGuarded | src/tcp_socket.cpp:155-180 | Every run of a socket, failures and passes included, is a guarded run of its sender |
| SendLoop.SocketsAreSafe | src/tcp_socket.cpp:155-180 | So window safety and, within its hypotheses, the invariant of the sliding window hold over every run of a fresh socket |
| SendLoop.ResendBreaksAgreement | src/tcp_socket.cpp:273-278 | Resending non-empty segments leaves the connection's number where it was if and only if every transmission fails |
| Socket.PassKeepsAgreementIff | src/tcp_socket.cpp:271-279 | With less than 2^32 bytes tracked, after a retransmission pass the two counters still agree if and only if the state may not send or every transmission of the pass fails |
| Socket.PassPartsCounters | src/tcp_socket.cpp:271-279 | One byte sent, overdue, sent again: the sender is at 1 and the connection at 2 |
| RttEstimator.WeightedMeans | src/tcp_reliability.cpp:117-123 | The truncated weighted means of the program are integer divisions |
| RttEstimator.UpdateIsRfc6298 | src/tcp_reliability.cpp:112-124 | Both estimates are within 1 ms below the values RFC 6298 prescribes, the variance taken against the old mean |
| RttEstimator.TimeoutIsRfc6298 | src/tcp_reliability.cpp:107-159 | After every update the timeout is mean + 4*variance, at least mean + 100, and the nearer end outside 200 to 60000 ms; a first sample gives half of itself as variance |
| RttEstimator.UpdateStaysInHull | src/tcp_reliability.cpp:107-130 | One update keeps the estimates in the hull of the samples, through either branch |
| RttEstimator.SamplesHull | src/tcp_reliability.cpp:107-159 | After any samples in [m, M]: mean in [m, M], variance at most max(M/2, M-m), timeout in [200, 60000] and at least mean + 100 or the cap |
| RttEstimator.GapsShrink | src/tcp_reliability.cpp:107-124 | One update closes an eighth of the mean's gap, then a quarter of the variance's |
| RttEstimator.Convergence | src/tcp_reliability.cpp:107-159 | From estimates below 2^k a constant sample r settles mean in [r-7, r] and variance at most 7 within 9k updates, for good, and the timeout at the clamped mean + 100 |
| RttEstimator.BandIsTight | src/tcp_reliability.cpp:117-123 | For every sample from 8 ms on, a mean 7 below it never moves, and neither does a variance of 7 with it: both edges of the band are reached |
| ReliableSender.Dequeue | src/tcp_reliability.cpp:48-70 | The handed-out bytes are the front of the buffer, and the rest stays |
| ReliableSender.DequeueTakes | src/tcp_reliability.cpp:48-70 | get_data_to_send takes as much as request, buffer and free window allow, the window difference modulo 2^32; numbers and counter move by it, and a new segment carries it |
| ReliableSender.AckEffect | src/tcp_reliability.cpp:13-31 | From any state: the cursor never goes back, the counter falls by its move but not below 0, and exactly the segments that end beyond the ack stay |
| ReliableSender.PassMarksIff | src/tcp_reliability.cpp:72-91 | A pass marks a segment if and only if it is unacknowledged, has waited longer than the timeout and is below the limit; it is counted once more and nothing else changes |
| ReliableSender.TimedOutIff | src/tcp_reliability.cpp:93-105 | has_timeout is true if and only if an unacknowledged segment has waited longer than the timeout and used up the limit |
| ReliableSender.SettersSet | include/tcp_reliability.h:28-56 | What a fresh sender holds, and the one field each setter changes |
| Reliability.TCPReliability.constructor | src/tcp_reliability.cpp:7-11 | A new object shows the initial sender |
| Reliability.TCPReliability.ProcessAck | src/tcp_reliability.cpp:13-31 | The object's view changes as the specification says; cursor, counter and remaining objects on the fields themselves |
| Reliability.TCPReliability.RemoveAcknowledgedSegments | src/tcp_reliability.cpp:136-147 | The list keeps exactly the uncovered segments, in order and untouched; every dropped one is flagged |
| Reliability.TCPReliability.CanSendData | src/tcp_reliability.cpp:37-40 | The guard of the specification |
| Reliability.TCPReliability.GetEffectiveWindow | src/tcp_reliability.cpp:132-134 | The smaller window |
| Reliability.TCPReliability.BufferData | src/tcp_reliability.cpp:42-46 | Byte by byte, the data is appended |
| Reliability.TCPReliability.GetDataToSend | src/tcp_reliability.cpp:48-70 | State and bytes are those of the specification; size, numbers, counter and the fresh segment on the fields themselves |
| Reliability.TCPReliability.GetSegmentsToRetransmit | src/tcp_reliability.cpp:72-86 | The list's own objects, in list order; an object is selected if and only if it is unacknowledged, has waited longer than the timeout and is below the limit |
| Reliability.TCPReliability.MarkSegmentSent | src/tcp_reliability.cpp:88-91 | The shared object gets the new time and one more count |
| Reliability.TCPReliability.HasTimeout | src/tcp_reliability.cpp:93-105 | True exactly when some overdue segment has used up its limit |
| Reliability.TCPReliability.UpdateRtt | src/tcp_reliability.cpp:107-130 | The weighted means in real arithmetic give the integer update, and the timeout follows mean and variance |
| Reliability.TCPReliability.CalculateRto | src/tcp_reliability.cpp:149-159 | Mean plus the larger of 100 and four times the variance, held between 200 and 60000 |
| Reliability.DueFacts | src/tcp_reliability.cpp:76-83 | The selection is complete, sound and in order |
| Socket.TCPSocket.constructor | src/tcp_socket.cpp:73-85 | The sender of an accepted connection starts at the connection's local_seq |
| Socket.TCPSocket.Send | src/tcp_socket.cpp:155-180 | -1 and no change when not connected; otherwise sender, local_seq and result are the specification's and the packets carry exactly its segments under consecutive ids |
| Socket.TCPSocket.SendWhatFits | src/tcp_socket.cpp:167-177 | The loop, proved against its recursive specification |
| Socket.SendDelivers | src/tcp_socket.cpp:155-180 | The packets of a call, parsed and checked by a receiver, are all accepted with flags 0x18 and give back the chunks; these bytes, the failed chunk and the remaining buffer are the old buffer and the data |
| Socket.CarriedLayout | src/tcp_socket.cpp:170-171 | Every packet of a call: flags PSH and ACK (0x18), the chunk, its number, the addresses, and the next packet id modulo 2^16 |
| Socket.TCPSocket.RetransmissionPass | src/tcp_socket.cpp:271-279 | Every selected segment is marked in order, whatever its transmission does; each packet carries the segment's bytes under the connection's current number and the next packet id; local_seq advances past what was resent |
| Socket.ResentLayout | src/tcp_socket.cpp:275-276 | The same layout for every packet of a pass, under the connection's current number |
| Socket.AttemptsCount | src/tcp_connection_manager.cpp:75-98 | A transmission of a pass reaches the socket if and only if the state is ESTABLISHED or CLOSE_WAIT and the socket open; the ids count exactly those |
| Socket.PassMarksInOrder | src/tcp_socket.cpp:273-278 | The k-th selected segment is marked at the k-th reading of the clock, and no other is touched |
| Checksum.ChecksumAccumulate | src/network_utils.cpp:57-72 | The loop adds the word sum of the buffer modulo 2^32 |
| Checksum.FoldCarries | src/network_utils.cpp:11-17 | Terminates and gives the complement of the canonical residue mod 65535 |
| Checksum.CalculateChecksum | src/network_utils.cpp:8-18 | The one-buffer checksum |
| Checksum.CalculateChecksumOfSegments | src/network_utils.cpp:20-34 | The checksum over a list of segments |
| ChecksumLaws.ChecksumMeaning | src/network_utils.cpp:8-34 | It is the one value that brings the sum to 0 mod 65535, 0xFFFF only for a zero sum |
| ChecksumLaws.OverflowMatters | src/network_utils.cpp:57-72 | Exactly when a wrapped 32-bit sum still gives the right checksum |
| ChecksumLaws.LongBufferMissed | src/network_utils.cpp:57-72 | 131076 bytes of 0xFF wrap the sum and give a wrong checksum on either host |
| ChecksumLaws.FoldIsCarriedSum | src/network_utils.cpp:11-14 | Deferred carries equal carry-by-carry one's-complement addition of the words as the program reads them |
| ChecksumLaws.ChecksumIsRfc1071Iff | include/network_utils.h:13-14 | Without overflow the checksum of a buffer is that of RFC 1071 if and only if the host is big-endian, the length even or the last byte 0 |
| ChecksumLaws.OddTailMissesRfc1071 | src/network_utils.cpp:66-69 | The one-byte buffer [1] on a little-endian host |
| ChecksumLaws.SegmentsCompose | src/network_utils.cpp:20-34 | Equal to the checksum of the concatenation when every segment but the last has even length |
| ChecksumLaws.OddSegmentComposesIff | src/network_utils.cpp:66-69 | Behind an odd segment composition holds if and only if the alternating byte sum of what follows is 0 mod 257; on a little-endian host, that of the odd byte and all but the last byte that follows |
| ChecksumLaws.OddSegmentsFail | src/network_utils.cpp:66-69 | [1] before [2, 1] does not compose on either host |
| ChecksumLaws.WordOrderIrrelevant | src/network_utils.cpp:57-72 | Permuting the words leaves the checksum unchanged |
| ChecksumLaws.HostOrderSwapsChecksum | src/network_utils.cpp:57-72 | The two host orders give byte-swapped checksums if and only if the length is even or the last byte is 0 |
| ChecksumLaws.HostsDisagree | src/network_utils.cpp:66-69 | The buffer [1] gives the hosts checksums that are not byte-swapped |
| ChecksumLaws.SwappingBytesSwapsChecksum | src/network_utils.cpp:57-72 | Swapping the bytes of every word swaps those of the checksum |
| ChecksumLaws.ByteWeight | src/network_utils.cpp:57-72 | Each byte counts with weight 1 or 256 |
| ChecksumLaws.ByteChangeShows | src/network_utils.cpp:8-18 | Changing one summed byte always changes the folded sum |
| ChecksumLaws.WordChangeShows | src/network_utils.cpp:8-18 | A changed word leaves a positive folded sum alone if and only if 0x0000 became 0xFFFF or the reverse |
| TcpWireLaws.WireImage | include/tcp_header.h:44-52 | On the wire every field is most significant byte first, on either host |
| TcpWireLaws.WireLoad | include/tcp_header.h:55-63 | Reading it back gives the same fields, on either host |
| TcpWireLaws.SegmentLayout | include/tcp_header.h:9-18 | Every byte of a built segment, in the layout of RFC 793, section 3.1, on either host |
| TcpWireLaws.PseudoHeaderLayout | src/tcp_connection_manager.cpp:205-211 | The pseudo header of RFC 793, section 3.1, its length cut to 16 bits |
| TcpWireLaws.SegmentRoundTrip | src/tcp_connection_manager.cpp:81-134 | Every segment built is accepted and its header and data recovered |
| TcpWireLaws.AcceptedIff | src/tcp_connection_manager.cpp:110-135 | Acceptance in terms of the received bytes alone, and the header and data then taken from them |
| TcpWireLaws.HandlerIff | src/tcp_connection_manager.cpp:138-150 | Which handler an accepted segment reaches, by the bits of its byte 13 |
| TcpWireLaws.OneByteErrorRefused | src/tcp_connection_manager.cpp:108-129 | No two accepted segments differ in exactly one byte |
| TcpWireLaws.WordErrorRefusedIff | src/tcp_connection_manager.cpp:108-129 | Changing one aligned word of an accepted segment is refused if and only if it is the checksum or not an exchange of 0x0000 and 0xFFFF |
| TcpWireLaws.SingleBitErrorRefused | src/tcp_connection_manager.cpp:108-129 | Inverting one bit of a built segment makes it refused |
| TcpWireLaws.ChecksumIsRfc793Iff | src/tcp_connection_manager.cpp:202-224 | The checksum is that of RFC 793 over pseudo header, wire header and data if and only if the host is big-endian or the segment neutral: pseudo header, whole data words and flags minus data offset cancel mod 257 |
| TcpWireLaws.LittleEndianMissesRfc793 | src/tcp_connection_manager.cpp:202-224 | A bare ACK from 127.0.0.1 to itself, built on a little-endian host |
| TcpWireLaws.OtherHostAcceptsIff | src/tcp_connection_manager.cpp:108-135 | A host of either order accepts a built segment, as it was sent, if and only if the orders agree or the segment is neutral, and refuses it otherwise |
| ConnectionManager.TCPConnectionManager.CalculateTcpChecksum | src/tcp_connection_manager.cpp:202-224 | Pseudo header, header, then data if any |
| ConnectionManager.TCPConnectionManager.CreateTcpHeader | src/tcp_connection_manager.cpp:181-200 | The header with its checksum, from the connection |
| ConnectionManager.TCPConnectionManager.SendSegment | src/tcp_connection_manager.cpp:75-106 | Refused outside ESTABLISHED and CLOSE_WAIT; the packet carries the connection as it was; local_seq moves past the data exactly on success |
| ConnectionManager.TCPConnectionManager.Connect | src/tcp_connection_manager.cpp:52-73 | It fails and puts nothing on the wire: after the active open no state may send, so no SYN is ever transmitted |
| ConnectionManager.TCPConnectionManager.CloseConnection | src/tcp_connection_manager.cpp:159-168 | It fails in every state and puts nothing on the wire: the close call leaves the sending states before send_fin, so no FIN is ever transmitted |
| ConnectionManager.TCPConnectionManager.ProcessIncomingSegment | src/tcp_connection_manager.cpp:108-156 | Refusal, or the handler, header and data the program goes on with |
| ConnectionManager.TCPConnectionManager.ReceivePacket | src/tcp_connection_manager.cpp:36-40 | One packet of the accept loop through both layers |
| IpWire.IPLayer.constructor | src/ip_layer.cpp:10-12 | Ids start at 1 |
| IpWire.IPLayer.CreateIpHeader | src/ip_layer.cpp:119-137 | The setters build version 4, five words, Don't Fragment; the id advances and wraps |
| IpWire.IPLayer.CreatePacket | src/ip_layer.cpp:18-38 | Header with checksum, then payload |
| IpWire.IPLayer.CalculateChecksum | src/ip_layer.cpp:115-117 | The checksum of the header image |
| IpWire.IPLayer.ValidateChecksum | src/ip_layer.cpp:107-113 | The field against the checksum of the header with the field cleared |
| IpWire.IPLayer.ParsePacket | src/ip_layer.cpp:40-80 | Every check in the program's order |
| IpWireLaws.PacketLayout | include/ip_header.h:12-22 | Every byte of a built packet but its checksum, in the layout of RFC 791, section 3.1, on either host |
| IpWireLaws.PacketRoundTrip | src/ip_layer.cpp:18-80 | Header and payload come back, whatever follows the packet, if and only if the payload has at most 65515 bytes |
| IpWireLaws.BuiltPacketArrives | src/ip_layer.cpp:18-80 | What arrives of a longer payload |
| IpWireLaws.AcceptedIff | src/ip_layer.cpp:40-80 | Exactly which byte strings parse, and their payload, by the bytes alone: version 4, at least 5 words, header and total length in bounds, checksum |
| IpWireLaws.PayloadByteChange | src/ip_layer.cpp:70-77 | A change after the header changes that payload byte only |
| IpWireLaws.OneByteErrorRefused | src/ip_layer.cpp:40-68 | Changing any header byte of an accepted packet makes it refused |
| IpWireLaws.WordErrorRefusedIff | src/ip_layer.cpp:40-68 | Changing one aligned header word of an accepted packet is refused if and only if it is the total length, the checksum, or not an exchange of 0x0000 and 0xFFFF |
| IpWireLaws.SingleBitErrorRefused | src/ip_layer.cpp:40-68 | Inverting any of the 160 header bits of a built packet makes it refused |
| IpWireLaws.WireChecksumStandardIff | src/ip_layer.cpp:22-24 | The field is the RFC 1071 value if and only if the host is big-endian or the header as built sums to 0 mod 257 |
| IpWireLaws.LittleEndianMissesStandard | src/ip_layer.cpp:22-24 | The first packet of a little-endian host from 127.0.0.1 to itself, around a bare ACK |
| IpWireLaws.BlankHeaderSum | src/ip_layer.cpp:119-137 | That sum by the fields: the host order plays no part but in the addresses |
| IpWireLaws.OtherHostParsesIff | src/ip_layer.cpp:40-80 | A host of either order parses a built packet if and only if the orders agree or the header sums to 0 mod 257; payload, protocol and address bytes are unchanged |
| Packets.TransmitRoundTrip | src/tcp_connection_manager.cpp:75-135 | Through both layers the receiver recovers ports, numbers, flags, window and data, whatever follows, if and only if the packet fits 65535 bytes |
| Packets.AnyOrderRoundTripIff | src/tcp_connection_manager.cpp:75-135 | Between hosts of any order a packet that fits is received as it was sent if and only if the orders agree, or IP header and segment both meet their mod 257 conditions; otherwise it is refused |
| Packets.ReceiverSeesSender | src/tcp_connection_manager.cpp:181-193 | The accepted header carries the sending connection's ports, numbers and window, the flags and five words |
| Packets.CoveredByteErrorRefused | src/ip_layer.cpp:40-80 | Changing any checksummed byte of an accepted packet makes one layer refuse it |
| Packets.TransmittedByteErrorRefused | src/tcp_connection_manager.cpp:108-129 | Every one-byte error in a transmitted packet is caught |
| Packets.CoveredWordErrorRefusedIff | src/tcp_connection_manager.cpp:108-129 | Changing one checksummed aligned word of an accepted packet is missed by both layers if and only if 0x0000 became 0xFFFF or the reverse, outside total length and checksums; that includes the addresses, which both checksums cover |
| Packets.HandledIff | src/tcp_connection_manager.cpp:138-150 | Only TCP is received, and for each of the six handlers: it is reached if and only if the bits of the flag byte say so; a FIN with ACK goes to the ACK handler |
| Packets.TransmittedHandled | src/tcp_connection_manager.cpp:138-150 | Through both layers a transmitted SYN (0x02), SYN-ACK (0x12), ACK (0x10), data segment (0x18) and RST (0x04) reach their own handlers, the FIN of send_fin (0x11) the ACK handler |
| Packets.TransmitLayout | src/tcp_connection_manager.cpp:75-106 | Length, protocol, id, addresses, ports, numbers, flags and data of a transmitted packet by their byte positions |
| StateMachine.TCPStateMachine.ProcessEvent | src/tcp_state_machine.cpp:8-18 | The object follows the transition table |
| StateMachineLaws.StateFollowsHistory | src/tcp_state_machine.cpp:52-174 | From ESTABLISHED until CLOSED, for every event sequence, the state is a function of close call, FIN, their order and an ACK after the close |
| StateMachineLaws.ClosesExactlyWhen | src/tcp_state_machine.cpp:99-169 | The next event returns to CLOSED exactly when it is a reset, the last ACK, or the timeout in TIME_WAIT |
| StateMachineLaws.ListeningClosesExactlyWhen | src/tcp_state_machine.cpp:64-97 | A passive connection, from its open on: the close call while listening, the close call or a reset before the handshake ends, then as above |
| StateMachineLaws.ConnectingClosesExactlyWhen | src/tcp_state_machine.cpp:74-97 | An active connection, from its open on: also a timeout while it waits for an answer |
| StateMachineLaws.SynReceivedClosesExactlyWhen | src/tcp_state_machine.cpp:88-97 | From SYN_RECEIVED on |
| StateMachineLaws.PermissionsFollowHistory | src/tcp_state_machine.cpp:20-29 | Sending is allowed exactly until the close call, receiving exactly until the FIN |
| StateMachineLaws.LifeFromClosed | src/tcp_state_machine.cpp:52-97 | From CLOSED: nothing but an open call leaves it, a passive one begins the listening life, an active one the connecting life |
| StateMachineLaws.PermissionsFromClosed | src/tcp_state_machine.cpp:20-29 | Over every life from CLOSED, sending is allowed exactly once established and until the close call, receiving exactly once established and until the FIN |
| StateMachineLaws.ListeningLife | src/tcp_state_machine.cpp:64-97 | The whole life of a passive connection by its history |
| StateMachineLaws.ConnectingLife | src/tcp_state_machine.cpp:74-97 | The whole life of an active connection by its history |
| StateMachineLaws.SynReceivedLife | src/tcp_state_machine.cpp:88-97 | From SYN_RECEIVED on |
| StateMachineLaws.HistoryStep | src/tcp_state_machine.cpp:99-169 | One more event ends the connection or is followed by the history function |
| StateMachineLaws.ChangesBounded | src/tcp_state_machine.cpp:8-18 | At most 7k + 6 state changes with k returns to CLOSED, for every run |
| StateMachineLaws.BoundIsTight | src/tcp_state_machine.cpp:52-174 | For every k some run reaches the bound |
| StateMachineLaws.NoStateReentered | src/tcp_state_machine.cpp:52-174 | Between returns to CLOSED no state is left and entered again |
| StateMachineLaws.StepRaisesRank | src/tcp_state_machine.cpp:52-174 | Every change that does not return to CLOSED raises the rank |

## Left out

- SlidingWindow.RunRefines: assumes that the numbers of bytes sent stay below 2^32 and that nothing unsent is acknowledged, because the code compares numbers plainly; SequenceWrap.FinalAckDrainsIff and SlidingWindow.AckRuleIff show what happens otherwise.
- Retransmission.SilentPeerIsNoticed: assumes that the limit stays fixed during the run and that a pass begins at most a period after the last; the background thread sleeps 10 ms between passes, and the rest is up to the scheduler.
- RttEstimator.Convergence: estimates and samples are exact integers; the program's doubles agree with them below 2^50 ms.
- ConnectionManager.TCPConnectionManager.ProcessIncomingSegment: stops at the choice of handler; what the handlers do to connections is not modelled.
- Handshake and teardown across TCPConnectionManager: SYN, SYN-ACK and FIN pass a gate that only ESTABLISHED and CLOSE_WAIT open, so the code does not perform them; that connect and close_connection transmit nothing is proved, and states are studied in the state machine alone.
- The call of process_ack and update_rtt: nothing in the repository calls them, so acknowledgments and samples are environment steps. has_timeout has no caller either.
- Receiving: handle_data_segment neither orders nor buffers data, and process_received_data has no caller.
- Lookup of connections, listening sockets, last_activity and remote_seq.
- Threads, mutexes and condition variables: calls and passes are atomic.
- Raw sockets, the local socket variant, examples, tests and log output: system calls and output only.
- IP string conversion and random sequence numbers: addresses and initial numbers are inputs.
- State names and the inline getters: one returns a constant string each, the others a field.
