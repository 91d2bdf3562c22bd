# A verified model of the Sponge TCP/IP stack

Sponge is a user-space TCP/IP stack in C++. An application writes bytes into a `ByteStream`; a `TCPSender` cuts them
into segments, keeps a copy of every unacknowledged one and sends the oldest again when its timer runs out; a
`TCPReceiver` turns sequence numbers back into stream positions and hands the payload to a `StreamReassembler`, which
writes the bytes out in order; a `TCPConnection` joins one sender and one receiver into an endpoint. Below that,
segments are serialized into IPv4 datagrams, a `NetworkInterface` resolves next hops with ARP, and a `Router` forwards
by longest prefix. This project models those parts in Dafny and proves what they are for.

## How the model is built

Every class of the source that changes in place is a Dafny class (`TCPSender`, `StreamReassembler`, `TCPConnection`,
`NetworkInterface`, `Router`, ...) whose methods have the source's loops and branches. Each method is proved equal to a
function on a plain value, its view: `View() == AckReceived(old(View()), ackno, window)`. The theorems are about those
functions and about whole runs of them, so they hold of the classes.

- What C++ leaves open is an argument. The iteration order of an `unordered_map`, and the key that the reassembler's
  overflow branch looks at first, form an `Oracle`; theorems hold for every oracle that fits the map.
- What C++ leaves undefined (`front()` of an empty queue when a timer fires) may lead anywhere in the step relations,
  and the invariants show that no run gets there.
- The network is a set of segments ever sent, each of which may be delivered any number of times, in any order, or never.
- Integer widths are written out where the source depends on them: 32-bit sequence numbers, the 64-bit arithmetic of
  `unwrap`, the unsigned window subtraction of `fill_window`, the 32-bit `_rto` and checksum accumulator, the 16-bit
  payload length.
- The source unwraps every sequence number with checkpoint 0, which is right for exactly the first 2^32 numbers
  (`UnwrapWrapFromZeroIff`). The transport theorems therefore speak of streams of at most 2^32 - 3 bytes, which with
  SYN and FIN fill that space.

## Main results

- **Sequence numbers.** `unwrap` returns a number nearest to its checkpoint if and only if its one overflowing branch
  is not taken (`UnwrapClosestIff`).
- **Reassembly.** For every run of truthful pushes and reads, trimmed, duplicated or overlapping, the output is a prefix
  of the source and ends exactly when it should (`RunSafe`). Without overflow it holds exactly the bytes pushed
  (`RunExact`), whatever the hash order (`RunAnyOrder`). The capacity bound its comment promises is false
  (`CapacityExceeded`); `RunWithinIff` says for every run exactly when it is met.
- **Sending.** Every unacknowledged byte is in the retransmission queue (`UnackedBytesQueued`), the in-flight count and
  the queue and the timer agree (`FlightIffQueue`), and filling keeps to the window if and only if the flight fitted it
  before (`FillWithinWindowIff`). In every run the timer fires exactly when the time since its start reaches the timeout
  (`FiresAtTimeout`), and count and timeout are exactly what the history says (`CountExact`, `TimeoutExact`).
- **End to end.** Over a network that loses, repeats and reorders, the receiver's output is always a prefix of what was
  written (`EndToEndSafety`), nothing is lost (`NoLoss`), in-order acknowledgments keep the flight within the window
  (`OrderedNotesHoldWindow`), and from every reachable state the transfer can still be completed (`CanAlwaysComplete`).
- **Flow control.** Windows, window check and reassembler fit together: in two-party runs with 16-bit capacities and
  acknowledgments in order, a receiver keeps exactly the bytes it let in (`KeepsAllLetIn`) and stays within its capacity
  (`CapacityKept`), so the branch that discards stored bytes discards nothing.
- **Connections.** Two endpoints exchange both streams safely (`TwoPartySafety`), and a clean close at either end means
  both streams were delivered whole (`CleanCloseMeansDelivered`). From every state in which both are still open and both
  writers have ended, both can close with everything delivered (`CanAlwaysClose`), and they still can after the network
  has lost all it carried, as long as a retransmission is left to each (`RecoversFromLoss`). When an endpoint closes is
  known exactly (`ClosesExactly`). A reset can always reach the peer, and it is final for both (`ResetReachesPeer`,
  `SysResetIsFinal`).
- **Wire formats.** Segments and datagrams survive the wire (`TcpOverIpv4RoundTrip`), and one changed byte anywhere in a
  segment is always caught (`CorruptSegmentRejected`).
- **ARP and routing.** The cache is exactly what was learned in the last 30 seconds (`LookupExact`), no datagram is lost,
  repeated or reordered while an address is resolved (`NothingLostOrReordered`, `ResolutionDelivers`), and the chosen
  route is the last of the longest matching ones (`FindRoute`, `MatchesTopBits`).

## Where the code and its documentation differ

The model follows the code.

- `unwrap` is documented to return the closest number; when 2^64 is exceeded it does not (`OverflowNotClosest`,
  `UnwrapFarthest`).
- The reassembler is documented to stay within its capacity; it looks at one stored string and stops.
- `IPv4Datagram::parse` ignores what the header's parser returns, so a wrong header checksum does not make it fail
  (`AnyChecksumAccepted`, `DatagramAcceptedIff`). `TCPSegment::parse` ignores it too, after its own checksum test, so a
  header that claims to be too short is accepted (`ShortHeaderAccepted`, `SegmentAcceptedIff`).
- Lingering is documented to be for a peer that does not know its whole stream was received. The code gives it up on a
  FIN flag, though bytes before the FIN may be missing, and can then close while the peer still waits for an
  acknowledgment (`PeerLeftWaiting`). If the peer's stream had ended before our FIN went out, the peer knows
  (`CloseLeavesPeerDone`).
- `AsyncNetworkInterface` is documented to learn from the target fields of an ARP reply; the code learns from the
  sender fields of every ARP message that reaches it.
- A zero window is treated as a window of one, and a window smaller than the flight makes the unsigned difference huge,
  so that the sender empties its buffer (`FillOverruns`, `OverrunHappens`).

## Model

| member | source | states |
|---|---|---|
| `WrappingIntegers.UnwrapWraps` | libsponge/wrapping_integers.cc:34-57 | the result of `unwrap` always wraps back to the number it was given, on every branch, the overflowing one included |
| `WrappingIntegers.WrapApart` | libsponge/wrapping_integers.cc:17-22 | two absolute numbers that wrap alike are equal or at least 2^32 apart |
| `WrappingIntegers.UnwrapNear` | libsponge/wrapping_integers.cc:34-57 | off the overflowing branch the result is within 2^31 of the checkpoint, or lies past it in the first 2^32 |
| `WrappingIntegers.UnwrapClosestIff` | libsponge/wrapping_integers.cc:24-57 | no 64-bit number that wraps to `n` is nearer to the checkpoint than the result, if and only if the `(times + 1) * 2^32 + A` branch does not pass 2^64 |
| `WrappingIntegers.OverflowNotClosest` | libsponge/wrapping_integers.cc:47-48 | where that branch overflows there is a strictly nearer number |
| `WrappingIntegers.UnwrapFarthest` | libsponge/wrapping_integers.cc:24-48 | that happens: with the largest checkpoint `unwrap(0)` is 0, though 2^64 - 2^32 wraps to 0 too and is nearer |
| `WrappingIntegers.UnwrapWrap` | libsponge/wrapping_integers.cc:17-57 | `unwrap(wrap(v))` is `v` for every checkpoint less than 2^31 away |
| `WrappingIntegers.UnwrapFromZero` | libsponge/wrapping_integers.cc:34-57 | with checkpoint 0 `unwrap` is the distance from the initial number modulo 2^32 |
| `WrappingIntegers.UnwrapWrapFromZeroIff` | libsponge/wrapping_integers.cc:17-57 | with checkpoint 0, the only one the transport uses, the round trip holds exactly for numbers below 2^32 |
| `Prelude.FlattenAppend` | libsponge/util/buffer.cc:15-41 | the bytes of two chunk lists in a row are the bytes of one after those of the other |
| `BufferLists.BufferList.Append` | libsponge/util/buffer.cc:15-19 | the contents grow by exactly the appended chunks |
| `BufferLists.BufferList.Size` | libsponge/util/buffer.cc:43-49 | the loop counts the bytes of the contents |
| `BufferLists.BufferList.Concatenate` | libsponge/util/buffer.cc:34-41 | the loop returns the contents |
| `BufferLists.BufferList.RemovePrefix` | libsponge/util/buffer.cc:51-65 | removes exactly the first `n` bytes across chunks; if there are fewer it fails, with everything removed |
| `ByteStreams.WriteTwice` | libsponge/byte_stream.cc:19-36 | two writes are one write of the joined data, whether or not the first was cut short |
| `ByteStreams.ByteStream.constructor` | libsponge/byte_stream.cc:15-17 | an empty stream of the given capacity |
| `ByteStreams.ByteStream.Write` | libsponge/byte_stream.cc:19-36 | appends the longest prefix that fits, nothing after the end, and returns its length; counters and buffer agree with the history |
| `ByteStreams.ByteStream.PeekOutput` | libsponge/byte_stream.cc:39-42 | the next `n` unread bytes, or all there are |
| `ByteStreams.ByteStream.PopOutput` | libsponge/byte_stream.cc:45-51 | drops `n` unread bytes, or fails with the buffer emptied and the counters unchanged |
| `ByteStreams.ByteStream.Read` | libsponge/byte_stream.cc:56-65 | returns and drops the next `n` unread bytes or all there are; with `Write` this is first in, first out |
| `ByteStreams.ByteStream.EndInput` | libsponge/byte_stream.cc:67-70 | ends the input and changes nothing else |
| `ByteStreams.ByteStream.SetError` | libsponge/byte_stream.hh:49 | marks the error and changes nothing else |
| `StreamReassemblers.MergeSubstrings` | libsponge/stream_reassembler.cc:15-32 | the copying code computes the union of two overlapping or touching pieces, the second winning where they meet, with zeros in a gap |
| `Reassembly.MergeSlice` | libsponge/stream_reassembler.cc:15-32 | merging two overlapping slices of one source gives the slice that spans both |
| `Reassembly.MergeAllHull` | libsponge/stream_reassembler.cc:74-88 | for every key order the merged string spans exactly the pushed range and every stored string that touches it: it covers them and no shorter range does |
| `Reassembly.MergeAllNoGap` | libsponge/stream_reassembler.cc:74-88 | every position of the merged string was pushed or stored |
| `Reassembly.MergeAllUntouched` | libsponge/stream_reassembler.cc:74-88 | the non-empty stored strings that touch the pushed range are gone, all other non-empty ones are there, and nothing kept is changed |
| `Reassembly.MergeAllSlice` | libsponge/stream_reassembler.cc:74-89 | with a consistent store the merged string is a slice of the source |
| `Reassembly.PositionsAreTotal` | libsponge/stream_reassembler.cc:152-164 | stored strings never overlap, so counting each position once is adding up the lengths |
| `Reassembly.PushInv` | libsponge/stream_reassembler.cc:39-150 | a truthful push keeps the invariant: output a prefix of the source, `willing`, `bytes_writed` and the output length equal, stored strings disjoint, past `willing` and slices of the source, end flag set exactly when all is written; output never shrinks |
| `ReassemblyRuns.PushHas` | libsponge/stream_reassembler.cc:39-150 | without overflow a push adds exactly its own positions to those written or stored |
| `ReassemblyRuns.MergeAnyOrder` | libsponge/stream_reassembler.cc:66-89 | the merge does not depend on the hash order of the keys |
| `ReassemblyRuns.PushAnyOrder` | libsponge/stream_reassembler.cc:39-150 | without overflow neither does the whole push |
| `ReassemblyRuns.RunInv` | libsponge/stream_reassembler.cc:39-150 | every run of truthful pushes and reads keeps the invariant, and remembers exactly whether an end was pushed |
| `ReassemblyRuns.RunSafe` | libsponge/stream_reassembler.cc:39-150 | for every such run, trimming included: output is a prefix of the source, the three counters agree, the buffer fits the capacity, stored strings are disjoint and past `willing`, and input is ended exactly when an end was pushed and everything is written |
| `ReassemblyRuns.RunExact` | libsponge/stream_reassembler.cc:39-150 | without overflow, what was written is the longest run of pushed positions from 0, and what is stored is exactly what was pushed beyond it |
| `ReassemblyRuns.RunAnyOrder` | libsponge/stream_reassembler.cc:39-150 | without overflow two runs that differ only in hash orders end in the same state |
| `ReassemblyCapacity.CapacityExceeded` | libsponge/stream_reassembler.hh:26-34 | the documented bound on buffered plus stored bytes fails: one push past a gap into a reassembler of capacity two |
| `ReassemblyCapacity.GatheredPlusKept` | libsponge/stream_reassembler.cc:112-143 | bytes written by a flush and bytes it keeps are all the bytes there were |
| `ReassemblyCapacity.StalePushKeepsCapacity` | libsponge/stream_reassembler.cc:39-150 | a push of bytes already written never breaks the bound |
| `ReassemblyCapacity.FreshPushWithinIff` | libsponge/stream_reassembler.cc:91-143 | a push with a new byte ends within the bound if and only if the one trimmed string covers the excess, or the contiguous bytes fill the buffer and nothing is stored past them |
| `ReassemblyCapacity.RunWithinIff` | libsponge/stream_reassembler.cc:39-150 | a run stays within the documented bound throughout if and only if each of its pushes meets that condition |
| `StreamReassemblers.MarkRange` | libsponge/stream_reassembler.cc:155-161 | the inner loop of `unassembled_bytes` counts every position once |
| `StreamReassemblers.FlushKeyKeeps` | libsponge/stream_reassembler.cc:112-143 | visiting one key of the map, in any order, changes neither what the flush will have written nor what it will have kept |
| `StreamReassemblers.PushWellFormed` | libsponge/stream_reassembler.cc:39-150 | any push, truthful or not, leaves the stored strings disjoint and past `willing` |
| `StreamReassemblers.StreamReassembler.constructor` | libsponge/stream_reassembler.cc:34 | an empty reassembler of the given capacity |
| `StreamReassemblers.StreamReassembler.CollectKeys` | libsponge/stream_reassembler.cc:66-72 | the list holds exactly the keys of the map |
| `StreamReassemblers.StreamReassembler.MergeStored` | libsponge/stream_reassembler.cc:74-89 | the loop that merges and erases is the one-pass merge in that key order |
| `StreamReassemblers.StreamReassembler.StoredTotal` | libsponge/stream_reassembler.cc:91-94 | the loop adds up the stored lengths |
| `StreamReassemblers.StreamReassembler.TrimFirst` | libsponge/stream_reassembler.cc:96-109 | only one old key is looked at; it loses the excess or all of its bytes, and the key stays |
| `StreamReassemblers.StreamReassembler.WriteOrDrop` | libsponge/stream_reassembler.cc:122-135 | one string at or before `willing` is erased, and its unwritten part is written as far as it fits |
| `StreamReassemblers.StreamReassembler.FlushPass` | libsponge/stream_reassembler.cc:115-136 | one pass over the map leaves the outcome of the flush unchanged, and shrinks the map or has nothing more to do |
| `StreamReassemblers.StreamReassembler.FlushLoop` | libsponge/stream_reassembler.cc:112-143 | the passes end and have done exactly the flush: the contiguous bytes written, every key not past `willing` dropped |
| `StreamReassemblers.StreamReassembler.PushSubstring` | libsponge/stream_reassembler.cc:39-150 | the whole operation is the specified push for some key order and some trimmed key |
| `StreamReassemblers.StreamReassembler.UnassembledBytes` | libsponge/stream_reassembler.cc:152-164 | the number of stored positions, each counted once, which is the sum of the stored lengths |
| `TcpReceivers.TCPReceiver.constructor` | libsponge/tcp_receiver.hh:31 | a receiver without an initial sequence number and an empty reassembler |
| `TcpReceivers.TCPReceiver.SegmentReceived` | libsponge/tcp_receiver.cc:14-35 | a SYN sets the initial number, segments before it are ignored, every other payload is pushed at its stream position with the FIN as the end |
| `TcpReceivers.TCPReceiver.Ackno` | libsponge/tcp_receiver.cc:37-43 | none before the SYN, then the wrapped count of written bytes plus one, plus one once the input has ended |
| `TcpReceivers.TCPReceiver.WindowSize` | libsponge/tcp_receiver.cc:45-47 | the free capacity of the output stream |
| `SenderInvariants.InFlightExact` | libsponge/tcp_sender.cc:77-82 | within the sequence space the in-flight count is exact, and the unsigned difference to the window is the true difference if the flight fits and at least 2^32 if it does not |
| `SenderInvariants.FlightIffQueue` | libsponge/tcp_sender.cc:77-161 | the retransmission queue is non-empty exactly when the timer runs and exactly when something is in flight |
| `SenderInvariants.FillOneInv` | libsponge/tcp_sender.cc:82-119 | each round of the filling loop keeps the sender invariant and only extends what has been sent |
| `SenderInvariants.FillWindowInv` | libsponge/tcp_sender.cc:81-120 | so does the whole loop; acknowledgment and window stay as they were |
| `SenderInvariants.DropAckedTiles` | libsponge/tcp_sender.cc:143-150 | popping acknowledged segments leaves a queue whose first segment holds the first unacknowledged number, or an empty queue if all is acknowledged |
| `SenderInvariants.AckReceivedInv` | libsponge/tcp_sender.cc:124-161 | every acknowledgment, old, new or for numbers never sent, keeps the sender invariant; it is taken exactly when it is new and for something sent |
| `SenderInvariants.RetransmitTimer` | libsponge/tcp_sender.cc:42-66 | a retransmission raises the count by exactly one and keeps the timeout, for counts up to 16, between the initial value and that value doubled once per count |
| `SenderInvariants.TickInv` | libsponge/tcp_sender.cc:164-166 | a timer that fires finds a segment to send again; the invariant is kept and nothing new is sent |
| `SenderInvariants.SendEmptyInv` | libsponge/tcp_sender.cc:173-178 | an empty segment takes no sequence numbers and keeps the invariant |
| `SenderRuns.RunInv` | libsponge/tcp_sender.cc:42-178 | every reachable state of the sender satisfies the invariant, whatever it is told |
| `SenderRuns.UnackedBytesQueued` | libsponge/tcp_sender.cc:81-161 | every byte sent and not acknowledged is in some queued segment, at its own sequence number |
| `SenderRuns.FillAppends` | libsponge/tcp_sender.cc:111-113 | the same new segments go to the output and to the retransmission queue, in order |
| `SenderRuns.NewSegmentsShort` | libsponge/tcp_sender.cc:93-97 | no new segment carries more than the maximum payload |
| `SenderRuns.FillConserves` | libsponge/tcp_sender.cc:81-120 | the payloads of the new segments, joined, are exactly the bytes taken from the stream |
| `SenderRuns.FillWithinWindowIff` | libsponge/tcp_sender.cc:81-120 | after filling the flight fits the window if and only if it fitted before, and it never shrinks |
| `SenderRuns.FillStops` | libsponge/tcp_sender.cc:82-107 | filling stops only with the window used up, the FIN sent, or nothing left to send |
| `SenderRuns.FillOverruns` | libsponge/tcp_sender.cc:82-95 | if the flight exceeds the window the unsigned difference wraps and filling empties the stream |
| `SenderRuns.ShrunkenWindowOverruns` | libsponge/tcp_sender.cc:82-138 | an old acknowledgment that shrinks the window below the flight leads there |
| `SenderRuns.OverrunHappens` | libsponge/tcp_sender.cc:81-138 | such a run exists: SYN and two bytes sent, the SYN acknowledged with a window of two and then again with one, and a third byte goes out into a full window |
| `SenderRuns.NewAckResets` | libsponge/tcp_sender.cc:138-160 | a new acknowledgment resets timeout and count, and the timer runs afresh exactly when something is still in flight |
| `SenderTiming.CountdownExact` | libsponge/tcp_sender.cc:17-161 | in every state of every run the timer runs exactly while something is queued, and shows the timeout less the time ticked since its countdown last started; starts are read off the queue, the acknowledgments and the expiries, not the timer |
| `SenderTiming.FiresAtTimeout` | libsponge/tcp_sender.cc:30-66 | a tick sends the oldest unacknowledged segment again exactly when something is queued and the time since the start reaches the timeout, with any other events in between; then it counts, doubles the timeout unless probing, and starts afresh; otherwise it changes nothing but the time left |
| `SenderTiming.QuietBeforeTimeout` | libsponge/tcp_sender.cc:30-161 | over any stretch in which something stays queued and no new acknowledgment comes, writes, fills and old acknowledgments do not touch the countdown, the timeout or the count |
| `SenderTiming.CountExact` | libsponge/tcp_sender.cc:42-56 | the retransmission count is the number of expiries since the last new acknowledgment |
| `SenderTiming.TimeoutExact` | libsponge/tcp_sender.cc:42-66 | the timeout is the initial one doubled once for each expiry since the last new acknowledgment, those while probing a zero window left out, modulo 2^32 |
| `TcpSenders.RetransmissionTimer.Start` | libsponge/tcp_sender.cc:17-20 | running with the given time left |
| `TcpSenders.RetransmissionTimer.Stop` | libsponge/tcp_sender.cc:26-28 | no longer running |
| `TcpSenders.RetransmissionTimer.TimePassed` | libsponge/tcp_sender.cc:30-40 | fires exactly if it runs and the time has come; otherwise runs down |
| `TcpSenders.TCPSender.constructor` | libsponge/tcp_sender.cc:71-75 | a sender with nothing sent and a window of one |
| `TcpSenders.TCPSender.BuildSegment` | libsponge/tcp_sender.cc:83-103 | the next segment and the state it leaves: SYN first, payload up to window and maximum, FIN when it fits |
| `TcpSenders.TCPSender.FillRound` | libsponge/tcp_sender.cc:82-118 | one round sends and queues the next segment, or stops if it would be empty |
| `TcpSenders.TCPSender.FillWindow` | libsponge/tcp_sender.cc:81-120 | the loop ends and has sent exactly the specified segments |
| `TcpSenders.TCPSender.PopAcked` | libsponge/tcp_sender.cc:143-150 | the loop drops exactly the wholly acknowledged segments at the front |
| `TcpSenders.TCPSender.AckReceived` | libsponge/tcp_sender.cc:124-161 | the whole acknowledgment handling, including the zero window and the ignored acknowledgments |
| `TcpSenders.TCPSender.Retransmit` | libsponge/tcp_sender.cc:42-66 | sends the oldest segment again, with count, back-off and timer |
| `TcpSenders.TCPSender.Tick` | libsponge/tcp_sender.cc:164-166 | lets time pass and retransmits when the timer fires |
| `TcpSenders.TCPSender.SendEmptySegment` | libsponge/tcp_sender.cc:173-178 | queues one empty segment with the next sequence number |
| `Transport.ReceiveAgrees` | libsponge/tcp_receiver.cc:14-35 | delivering any segment ever sent, again or out of order, keeps the receiver in agreement with the sender and never moves it back |
| `Transport.AcknoIssued` | libsponge/tcp_receiver.cc:37-43 | the acknowledgment unwraps to the receiver's position, so the sender reads what the receiver meant |
| `Transport.RightEdgeIs` | libsponge/tcp_receiver.cc:37-47 | acknowledgment plus window is capacity plus bytes read plus one, plus one once ended |
| `Transport.RightEdgeMonotone` | libsponge/tcp_receiver.cc:37-47 | the advertised right edge never moves left |
| `Transport.CutEdgeFallsIff` | libsponge/tcp_connection.cc:18-22 | reading one byte moves the right edge that the 16-bit field tells of to the left exactly when the window ends in sixteen ones, which takes a capacity above 65535 |
| `Transport.CutEdgeFalls` | libsponge/tcp_connection.cc:18-22 | it happens: with a capacity of 65536, one byte received and then read brings the edge from 65537 down to 2 |
| `Links.PathInv` | libsponge/tcp_sender.cc:42-178 | over a network that loses, repeats and reorders segments and acknowledgments, sender and receiver invariants and their agreement hold in every reachable state |
| `Links.EndToEndSafety` | libsponge/tcp_receiver.cc:14-35 | in every reachable state the receiver's output is a prefix of what was written, and if it has ended it is all of it and the writer has ended |
| `Links.NoLoss` | libsponge/tcp_sender.cc:81-161 | in every reachable state a byte not yet delivered is still in the sender's stream or in its retransmission queue, and acknowledged <= delivered <= sent |
| `Links.OrderedNotesHoldWindow` | libsponge/tcp_sender.cc:77-138 | as long as no advertised window is cut to fit 16 bits: acknowledgments and right edges only rise, and while acknowledgments arrive in order the flight fits the last window, so the unsigned window subtraction never wraps |
| `Links.SmallCapacityUntruncated` | libsponge/tcp_connection.cc:18-22 | a receive capacity of at most 65535 never has its window cut |
| `Completion.PushAdvances` | libsponge/stream_reassembler.cc:58-143 | a push that covers the next byte always gets at least that byte written, for every trimming choice, if the buffer has room |
| `Completion.FrontAdvances` | libsponge/tcp_sender.cc:42-45 | the oldest unacknowledged segment always moves the receiver past the sender's acknowledgment, if there is room for a byte or the segment has none |
| `Completion.CanAlwaysComplete` | libsponge/tcp_sender.cc:42-178 | once the writer has ended, from every reachable state some further run delivers every byte, gets everything acknowledged and ends the receiver's stream |
| `FlowControl.AllowedKept` | libsponge/stream_reassembler.cc:39-150 | a push of positions the sender was allowed to send is kept whole, none of it and nothing stored before is discarded, for every key order and trimmed key |
| `FlowControl.PassedIsAllowed` | libsponge/tcp_connection.cc:28-50 | of what a sender that heeds the window sent, whatever passes the window check is such a push: repeats and probes past the edge are turned away there |
| `FlowControl.FillHeeds` | libsponge/tcp_sender.cc:77-120 | filling sends nothing past the right edge the receiver stands by, except one byte to probe a zero window |
| `FlowControlRuns.RunHeeds` | libsponge/tcp_connection.cc:15-151 | in two-party runs with capacities of at most 65535 and no acknowledgment older than the last, every segment sent, queued or on the wire lies below the peer's bound or is a probe at it, and every stored byte lies below the endpoint's own |
| `FlowControlRuns.CapacityKept` | libsponge/stream_reassembler.hh:26-34 | in such runs buffered and stored bytes together never exceed the capacity, at either endpoint |
| `FlowControlRuns.KeepsAllLetIn` | libsponge/stream_reassembler.cc:91-143 | in such runs the positions written or stored are exactly those brought by the segments that were let in: the overflow branch never discards a byte |
| `TcpConnections.TCPConnection.constructor` | libsponge/tcp_connection.hh:93 | an open endpoint with a fresh sender and receiver |
| `TcpConnections.TCPConnection.SendSegment` | libsponge/tcp_connection.cc:15-26 | every queued segment leaves in order, stamped with the receiver's acknowledgment and 16-bit window once there is one |
| `TcpConnections.TCPConnection.CheckSegmentInWindow` | libsponge/tcp_connection.cc:28-50 | true before both ends are known, otherwise exactly when the segment overlaps the window |
| `TcpConnections.TCPConnection.SendRst` | libsponge/tcp_connection.cc:52-68 | everything unsent is replaced by one RST, both streams are in error, the connection is closed |
| `TcpConnections.TCPConnection.FinAlreadySent` | libsponge/tcp_helpers/tcp_state.cc:94-110 | the sender summary is FIN_SENT or FIN_ACKED |
| `TcpConnections.TCPConnection.TakeSynFin` | libsponge/tcp_connection.cc:104-114 | notes the peer's initial number on SYN, and stops lingering on a FIN that comes before ours |
| `TcpConnections.TCPConnection.TakeFlags` | libsponge/tcp_connection.cc:86-114 | records the time, closes with both streams in error on RST, and takes SYN and FIN |
| `TcpConnections.TCPConnection.ReplyTo` | libsponge/tcp_connection.cc:126-133 | for a segment that takes sequence numbers the window is filled, and an empty segment queued if that queued nothing |
| `TcpConnections.TCPConnection.SendAnswer` | libsponge/tcp_connection.cc:126-139 | replies, answers a keep-alive, and sends |
| `Copies.AnswersExactly` | libsponge/tcp_connection.cc:116-140 | an open endpoint answers exactly the segments that take sequence numbers or keep alive, in or out of the window, and every answer carries the newest acknowledgment and window |
| `TcpConnections.TCPConnection.SegmentReceived` | libsponge/tcp_connection.cc:86-140 | the whole handling of an arriving segment |
| `TcpConnections.TCPConnection.Write` | libsponge/tcp_connection.cc:146-151 | writes, fills the window, sends, and returns what was accepted |
| `TcpConnections.TCPConnection.Connect` | libsponge/tcp_connection.cc:210-213 | sends the SYN |
| `TcpConnections.TCPConnection.EndInputStream` | libsponge/tcp_connection.cc:204-208 | ends the outbound stream and sends the FIN if it fits |
| `TcpConnections.TCPConnection.PrerequisitesMet` | libsponge/tcp_connection.cc:175-188 | true exactly when nothing is unassembled, the inbound stream is read to its end, the outbound one sent to its end, and nothing is in flight |
| `TcpConnections.TCPConnection.SettleState` | libsponge/tcp_connection.cc:175-202 | closes exactly when the three prerequisites hold and lingering is over or not needed |
| `TcpConnections.TCPConnection.Tick` | libsponge/tcp_connection.cc:154-202 | fills, lets time pass, sends, aborts after too many retransmissions, and settles |
| `TcpConnections.TCPConnection.Destroy` | libsponge/tcp_connection.cc:215-226 | an active connection is reset |
| `ConnectionRuns.TickConnInv` | libsponge/tcp_connection.cc:154-202 | no tick of an open endpoint reaches the undefined `front()` of an empty queue; it keeps the endpoint invariant and only extends what has been sent |
| `ConnectionRuns.ConnRunInv` | libsponge/tcp_connection.cc:15-226 | in every run of an endpoint, whatever arrives, the endpoint invariant holds: the sender invariant, and while open at most 8 retransmissions and nothing left in the sender's output; the class `TCPConnection` has these runs for arrivals whose payload ends below 2^64 |
| `ConnectionRuns.BackoffBounded` | libsponge/tcp_connection.cc:163-173 | the retransmission count never exceeds 9, and 8 while open; the timeout stays between the initial one and 512 times it and never wraps |
| `ConnectionRuns.CleanClose` | libsponge/tcp_connection.cc:154-202 | a tick that closes without giving up leaves the outbound stream wholly sent and acknowledged, FIN included, and the inbound stream ended, read and with nothing unassembled |
| `ConnectionEnds.OpenKnows` | libsponge/tcp_connection.cc:82-114 | while open, the idle time is the time ticked since the last arrival, and the endpoint lingers exactly unless a FIN came in before its own was out |
| `ConnectionEnds.ClosesExactly` | libsponge/tcp_connection.cc:154-202 | a tick closes exactly when it gives up, or when both streams are finished and either ten initial timeouts have passed since the last arrival or the peer closed first |
| `ConnectionEnds.Lingers` | libsponge/tcp_connection.cc:109-201 | an endpoint whose FIN was out first and that nobody resets stays open until ten initial timeouts have passed since the last arrival, the time being counted from the events alone |
| `ConnectionEnds.ResetSendsRst` | libsponge/tcp_connection.cc:52-68 | an open endpoint that is dropped or gives up is reset, and the one segment it has for the wire is a RST |
| `ConnectionEnds.ResetIsFinal` | libsponge/tcp_connection.cc:95-102 | after a RST arrives, an open endpoint is dropped, or a tick gives up, the endpoint is closed with both streams in error for ever, whatever comes |
| `TwoParty.StepSide` | libsponge/tcp_connection.cc:15-226 | one step of an endpoint, given what its peer can have sent, keeps its half of the two-party invariant |
| `TwoParty.SysRunInv` | libsponge/tcp_connection.cc:15-226 | the invariant of both endpoints and of all segments on the wire holds in every reachable state |
| `TwoParty.RunFlips` | libsponge/tcp_connection.cc:15-226 | exchanging the two endpoints turns a run into a run, so what is proved of the first in every run holds of the second |
| `TwoParty.TwoPartySafety` | libsponge/tcp_connection.cc:86-151 | in both directions, in every reachable state, the received stream is a prefix of the written one, and equal to it with the writer ended once it has ended |
| `TwoParty.CleanCloseMeansDelivered` | libsponge/tcp_connection.cc:175-202 | when either endpoint closes without giving up, both streams have been delivered whole, at both ends |
| `PassiveClose.CloseLeavesPeerDone` | libsponge/tcp_connection.cc:109-202 | if the peer's stream had ended here whenever our own FIN was out, a tick that closes without giving up, lingering or not, leaves the peer with its FIN sent, everything acknowledged and nothing to retransmit |
| `UnsafeClose.PeerLeftWaiting` | libsponge/tcp_connection.cc:109-202 | without that it fails: a run in which the peer's FIN overtakes its byte, the endpoint stops lingering and closes cleanly with everything delivered, and the peer has two segments unacknowledged and nobody to send them to |
| `Copies.RunLive` | libsponge/tcp_connection.cc:15-26 | in every reachable state, each segment an open endpoint may have to send again has a copy on the wire or on its way there |
| `Closing.DeliverFront` | libsponge/tcp_connection.cc:28-50 | once the peer's reader has made room for a byte, the oldest unacknowledged segment passes the peer's window check whenever it is needed, and leaves the peer past our acknowledgment |
| `Closing.TickResends` | libsponge/tcp_connection.cc:154-173 | a tick that runs out the timer, with an attempt to spare, puts the oldest unacknowledged segment on its way again and changes neither acknowledgment nor receiver |
| `Closing.RoundTrip` | libsponge/tcp_connection.cc:86-140 | delivering that segment and bringing back its answer always moves the sender's acknowledgment on |
| `Closing.CanAlwaysClose` | libsponge/tcp_connection.cc:15-213 | from every reachable state in which both endpoints are still open and both writers have ended, some continuation closes both endpoints without giving up, with every byte delivered in both directions |
| `Closing.RecoversFromLoss` | libsponge/tcp_connection.cc:15-213 | so does some continuation from that state with everything on the wire lost, if neither endpoint has used up its retransmissions |
| `Resets.SysResetIsFinal` | libsponge/tcp_connection.cc:95-102 | in two-party runs an endpoint that was reset stays so, whatever either side does |
| `Resets.RstIsFinal` | libsponge/tcp_connection.cc:86-102 | in two-party runs an endpoint that takes a RST off the wire is reset for good, whatever its sequence number |
| `Resets.ResetReachesPeer` | libsponge/tcp_connection.cc:170-226 | in two-party runs an open endpoint that is dropped or gives up has a RST as its only segment, and delivering it leaves both endpoints reset |
| `NetParsers.ParseUnparse` | libsponge/util/parser.cc:28-62 | reading back a written big-endian integer of any width gives the integer |
| `NetParsers.ReadBack` | libsponge/util/parser.cc:20-74 | reading a chain of written fields gives back every value and leaves exactly what followed |
| `NetParsers.UnparseInt` | libsponge/util/parser.cc:56-62 | the loop appends the big-endian bytes |
| `NetParsers.NetParser.ParseNext` | libsponge/util/parser.cc:20-44 | value and remaining buffer, or zero and an error when too short or already in error |
| `NetParsers.NetParser.U16` | libsponge/util/parser.cc:66 | two bytes, most significant first |
| `NetParsers.NetParser.U32` | libsponge/util/parser.cc:64 | four bytes, most significant first |
| `NetParsers.NetParser.RemovePrefix` | libsponge/util/parser.cc:46-52 | skips bytes, or records an error when too short |
| `InternetChecksums.SumIsWordSum` | libsponge/util/util.cc:89-98 | byte by byte with a parity flag is the sum of big-endian 16-bit words, an odd last byte padded with zero |
| `InternetChecksums.SumConcat` | libsponge/util/util.cc:89-98 | adding data in parts is adding it at once, the parity carried over |
| `InternetChecksums.FoldKeeps` | libsponge/util/util.cc:100-108 | folding keeps the sum modulo 65535, and keeps it non-zero |
| `InternetChecksums.ValueZeroIff` | libsponge/util/util.cc:100-108 | the checksum is zero exactly for a positive multiple of 65535 |
| `InternetChecksums.ValueCompletes` | libsponge/util/util.cc:100-108 | adding its own checksum to a sum makes it check out |
| `InternetChecksums.OneByteDetected` | libsponge/util/util.cc:87-108 | data that checks out no longer does when any one byte changes |
| `InternetChecksums.InternetChecksum.Add` | libsponge/util/util.cc:89-98 | the 32-bit accumulator and the parity after any data |
| `InternetChecksums.InternetChecksum.GetValue` | libsponge/util/util.cc:100-108 | the folding loop ends with the one's complement of the folded sum |
| `InternetChecksums.ChecksumOfParts` | libsponge/tcp_helpers/tcp_segment.cc:35-38 | the checksum over two parts is the checksum over both joined |
| `TcpWire.HeaderRoundTrip` | libsponge/tcp_helpers/tcp_header.cc:17-78 | every TCP header with a `doff` of 5 to 15 is parsed back as it was serialized, and leaves exactly what followed |
| `TcpWire.SerializedChecksOut` | libsponge/tcp_helpers/tcp_segment.cc:30-45 | a serialized segment checks out against the pseudo-header |
| `TcpWire.SegmentRoundTrip` | libsponge/tcp_helpers/tcp_segment.cc:12-45 | every segment that fits a datagram is parsed back as it was, with the computed checksum |
| `TcpWire.CorruptSegmentRejected` | libsponge/tcp_helpers/tcp_segment.cc:12-23 | changing any one byte of a serialized segment makes it a bad checksum |
| `TcpWire.SegmentAcceptedIff` | libsponge/tcp_helpers/tcp_segment.cc:12-23 | bytes are accepted exactly when the checksum is zero, there are at least 20, and `doff` is below 5 or at most a quarter of their number |
| `TcpWire.ShortHeaderAccepted` | libsponge/tcp_helpers/tcp_segment.cc:12-23 | it happens: twenty bytes with a `doff` of 0 are accepted, though the header's own parser reports the header too short |
| `TcpWire.SerializeTcpHeader` | libsponge/tcp_helpers/tcp_header.cc:51-78 | field by field, padded to `doff`; no result where the source throws |
| `TcpWire.ParseTcpHeader` | libsponge/tcp_helpers/tcp_header.cc:17-48 | all fields, the result code, and what is left |
| `TcpWire.SerializeTcpSegment` | libsponge/tcp_helpers/tcp_segment.cc:30-45 | header with the checksum filled in, then the payload |
| `TcpWire.ParseTcpSegment` | libsponge/tcp_helpers/tcp_segment.cc:12-23 | bad checksum first, then the header, whose result code is not looked at |
| `Ipv4.Ipv4HeaderChecksOut` | libsponge/tcp_helpers/ipv4_datagram.cc:28-38 | the header with its checksum filled in checks out |
| `Ipv4.DatagramRoundTrip` | libsponge/tcp_helpers/ipv4_datagram.cc:11-41 | every well-sized datagram is parsed back as it was, with the computed checksum |
| `Ipv4.AnyChecksumAccepted` | libsponge/tcp_helpers/ipv4_datagram.cc:11-21 | whatever its header checksum, a well-sized datagram is accepted, though the header's own parser reports the bad checksum |
| `Ipv4.DatagramAcceptedIff` | libsponge/tcp_helpers/ipv4_datagram.cc:11-21 | bytes are accepted exactly when there are at least 20 and either version, header length and total length are right, or the bytes after the first 20 happen to number the payload length |
| `Ipv4.TcpOverIpv4RoundTrip` | libsponge/tcp_helpers/tcp_over_ip.cc:43-89 | a segment sent in a datagram comes out of it as it was, with the checksum computed over its pseudo-header |
| `Ipv4.SerializeHeaderBytes` | libsponge/tcp_helpers/ipv4_header.cc:78-110 | field by field, padded to `hlen`; no result where the source throws |
| `Ipv4.ParseHeaderBytes` | libsponge/tcp_helpers/ipv4_header.cc:23-75 | all fields, the first failing test in the source's order, and what is left |
| `Ipv4.ParseIpv4Datagram` | libsponge/tcp_helpers/ipv4_datagram.cc:11-21 | header and payload, judged by length and by the parser's own error only |
| `Ipv4.SerializeIpv4Datagram` | libsponge/tcp_helpers/ipv4_datagram.cc:23-41 | header with the checksum filled in, then the payload; no result where the source throws |
| `ArpHistory.LookupExact` | libsponge/network_interface.cc:81-171 | in every run an address is in the cache exactly if it was learned less than 30 seconds ago, with the hardware address of the last lesson and the exact time left |
| `ArpHistory.FramesUseFreshAddress` | libsponge/network_interface.cc:32-128 | every datagram frame goes to the hardware address last learned for its next hop, less than 30 seconds before |
| `ArpHistory.RequestOnlyOnSend` | libsponge/network_interface.cc:51-74 | a request goes out exactly when a datagram is sent to an unknown hop that is not being asked for |
| `ArpHistory.RequestsExact` | libsponge/network_interface.cc:51-161 | the request table holds exactly the addresses asked for in the last five seconds |
| `ArpHistory.RequestsApart` | libsponge/network_interface.cc:51-161 | two requests for one address are at least five seconds apart |
| `ArpHistory.NothingLostOrReordered` | libsponge/network_interface.cc:32-128 | for every hop, the datagrams framed so far followed by those still queued are exactly the datagrams sent, in order; nothing waits for a known address |
| `ArpHistory.ResolutionDelivers` | libsponge/network_interface.cc:32-150 | between two interfaces: a datagram for an unknown neighbour asks for it, the neighbour answers, and on the answer everything that waited goes out in frames the neighbour hands up, in order |
| `NetworkInterfaces.AgeRequestTable` | libsponge/network_interface.cc:154-161 | the loop ages every entry and drops the expired ones |
| `NetworkInterfaces.AgeCacheTable` | libsponge/network_interface.cc:163-170 | the loop ages every entry and drops the expired ones |
| `NetworkInterfaces.NetworkInterface.SendDatagram` | libsponge/network_interface.cc:32-78 | frames to a known address, or queues, asking unless already asked |
| `NetworkInterfaces.NetworkInterface.DrainQueue` | libsponge/network_interface.cc:113-128 | the loop frames the whole queue in order |
| `NetworkInterfaces.NetworkInterface.RecvFrame` | libsponge/network_interface.cc:81-150 | ignores frames for others, returns parsed datagrams, learns from ARP, frees the queue and answers requests for its own address |
| `NetworkInterfaces.NetworkInterface.RecvFrameAsync` | libsponge/router.hh:30-35 | the same, with received datagrams queued |
| `NetworkInterfaces.NetworkInterface.Tick` | libsponge/network_interface.cc:153-171 | both tables age |
| `Routing.MaskedIs` | libsponge/router.cc:18-22 | masking with the constructed mask clears all but the first `n` of 32 bits |
| `Routing.MatchesTopBits` | libsponge/router.cc:56-62 | a route matches exactly when the first `prefix_length` bits agree |
| `Routing.BestIsUnique` | libsponge/router.cc:52-68 | there is one best route: the last of the longest matching ones |
| `Routers.FindRoute` | libsponge/router.cc:52-68 | the loop finds the best route, or -1 exactly when none matches |
| `Routing.DecideByBest` | libsponge/router.cc:43-83 | whatever is forwarded goes out by the best route, one hop older, to the route's next hop or its own destination |
| `Routing.DeliverIsSends` | libsponge/router.cc:85-94 | each interface receives exactly the sends decided for it, in order |
| `Routing.RouteMore` | libsponge/router.cc:85-94 | routing some datagrams and then more is routing all of them |
| `Routing.EachGoesOutOnce` | libsponge/router.cc:43-94 | for every send: it is made, over all interfaces together, exactly as often as there are datagrams with life left and a route that give it, each aged by one and addressed to the next hop of its best route |
| `Routers.Router.AddInterface` | libsponge/router.hh:57-60 | appends the interface and returns its index |
| `Routers.Router.AddRoute` | libsponge/router.cc:31-40 | appends any route; routing stays defined exactly if its prefix length is at most 32 and its interface exists |
| `Routers.Router.RouteOneDatagram` | libsponge/router.cc:43-83 | the interfaces change by exactly the decision for the datagram; nothing happens to an expired or unroutable one |
| `Routers.Router.DrainInterface` | libsponge/router.cc:88-92 | everything waiting at one interface is routed in order |
| `Routers.Router.Route` | libsponge/router.cc:85-94 | all queues end empty and the interfaces are as after routing all waiting datagrams, interface by interface |

## Left out

- Applications, scripts, the event loop, sockets, `Address`, TUN/TAP and file-descriptor adapters, `tcp_sponge_socket`: they are I/O around the core.
- The address and port filtering of `tcp_over_ip`: `TcpOverIpv4RoundTrip` covers its wrapping and its two parsers.
- Printing, string summaries, random initial sequence numbers (a parameter here) and wall-clock time (ticks are parameters).
- `Buffer`'s shared storage and `BufferViewList`: bytes are values here, and neither sharing nor scatter lists change which bytes are sent.
- `StreamReassembler::empty`, `bytes_in_flight`, `remaining_outbound_capacity` and other one-line accessors without a rule of their own.
- The byte layouts of Ethernet frames and ARP messages: frames carry values, and a payload that fails to parse, or has a type the interface does not know, is `Malformed`. The wire proofs are made for the TCP and IPv4 formats.
- The exception `IPv4Datagram::serialize` throws inside `send_datagram` when a datagram is badly sized: interfaces carry datagrams as values.
- The descending sort of keys as `int` in the overflow branch: the trimmed key is any stored key, which includes the one sorted first.
- The segment that `send_rst` moves out of the sender's queue and leaves there: it is the bare segment in every reachable state, so moving from it changes nothing.
- Streams of more than 2^32 - 3 bytes: the source unwraps with checkpoint 0 and does not support them (`UnwrapWrapFromZeroIff`). Counters of 64 bits and times are unbounded.
- Fairness of the network: `CanAlwaysComplete`, `CanAlwaysClose` and `RecoversFromLoss` show that completion stays possible, for receive capacities of at least one, not that a given network brings it about.
- Ticks of a connection that is already closed: runs tick an endpoint only while it is active, as its owner does.
- Links.OrderedNotesHoldWindow: says nothing once a window above 65535 has been advertised, because the source cuts it to 16 bits and the right edge can then move left (`CutEdgeFallsIff`, `CutEdgeFalls`).
- StreamReassemblers.StreamReassembler.PushSubstring: requires that the pushed bytes end below 2^64, where the source's index arithmetic wraps.
- TcpReceivers.TCPReceiver.SegmentReceived: requires the same of the payload's stream positions; only a segment numbered with the initial number itself, without SYN and with a payload, breaks it.
- TcpConnections.TCPConnection.SegmentReceived: requires the same for the same reason.
- TcpSenders.TCPSender.Tick: requires a segment to retransmit when the timer fires; the source would be undefined, and `SenderInvariants.TickInv` shows it never happens.
- TcpConnections.TCPConnection.Tick: requires the same; `ConnectionRuns.TickConnInv` shows it never happens in a run.
- TcpWire.SegmentRoundTrip: is for `doff` of 5 to 15 and lengths below 2^16, which is what the header fields can express.
- Routers.Router.RouteOneDatagram: requires prefix lengths of at most 32, where the shift is defined, and routes to interfaces that exist, since anything else is undefined in the source.
- Routers.Router.AddInterface: requires an interface object not added before, where the source takes it over by move.
