# jive5ab: the reliable transport, the processing chain and their supporting structures

This project models four independent parts of jive5ab and proves what they promise.

**The UDT transport** (`libudt5ab`). A sliding-window protocol with full and lite acknowledgements, loss reports and
a 31-bit sequence space that wraps around.

- `SeqNo`, `Packets` and `Naks` are the sequence arithmetic, the message header word and the loss-report encoding.
- `SndLossLists` and `RcvLossLists` are the two loss lists, interval lists threaded through circular arrays, as
  classes over those arrays. Their abstract value is a plain set of unbounded packet counters; `LossTables` and
  `Intervals` hold the set algebra and the table lemmas.
- `SndBuffers` and `RcvBuffers` are the growing ring of blocks and the ring of units. Their abstract values are a
  sequence of packets and a row of slots. Stream reads are proved to be cuts of one byte stream.
- `Protocol` is a transition system: a sender, a receiver and a network that keeps every packet ever put into it, so
  each may be delivered once, many times, in any order or never, as long as its numbers are recent. The main theorems
  are about all its runs.
- `ProtocolLaws` says what each step does in every reachable state, in terms of packets, slots and windows and without
  the functions that `Protocol` computes the steps with: when a packet goes out and which one, what an acknowledgement
  changes, what is reported as lost. `Protocol` is proved to obey these laws.
- `Recovery` says exactly when a connection can still deliver everything after every packet under way is lost, and
  `Stranding` gives a run from which it cannot.
- `Senders` and `Receivers` are the two halves of a connection on wrapped 31-bit numbers, built from the classes
  above. Each method is proved to be the step of `Protocol` on the counters its wrapped numbers stand for.
- `Connections` joins a real `Sender` and a real `Receiver` by a network of packets with wrapped numbers. Whatever a
  script makes these do, they go event by event through the run of `Protocol` that the script stands for, and through no
  other, so its theorems hold of them.
- `Messages` is the message mode of the receive buffer: an arbitrary run of arrivals, acknowledgements and reads, judged
  against the calls that sent the messages. `MessageProgress` says exactly which messages a receive buffer can deliver
  at all. `MessageTransport` carries the messages over the lossy transport of `Protocol`. The search for a message is
  proved to find the readable message that ends first, in order or ahead of its turn, whenever there is one.

**The threaded pipeline** (`src/bqueue.h`, `src/chain.cc`). `BQueues` is the monitor with its two condition variables.
Each stretch of code under the mutex is one atomic section, and sleeping and woken threads are explicit sets.
`QueueLaws` says what each call does in every reachable state: when it waits, is refused or goes through, and whom it
wakes.
`Chains` runs the threads of an N-step chain on such queues; `ChainCounts`, `ChainFlow` and `ChainDrain` prove who
shuts what when, that nothing is lost or processed twice, that there is no deadlock, and that every stop, gentle or
blunt, comes to an end. In them a thread that waits at a queue is one whose wait condition holds. `ChainSleep` puts the
two together: its threads fall asleep at the queues' condition variables and go on only when woken; it follows the chain
of `Chains`, and there is no deadlock in it either. `ChainImpls` is the chain object whose fields the threads change.

**The Boyer-Moore search** (`src/boyer_moore.cc`). `BoyerMoores` builds both tables with the linear-time suffix
computation and proves the search equal to "leftmost occurrence".

**Supporting structures.** `Md5s` is the streaming digest of RFC 1321, `SendHeaps` the send scheduler's heap with back
pointers, `RcvLists` the receive-timer list, `CircularBuffers` the overwriting ring, and `Blocks` the
reference-counted blocks, block pools and the can of retired pools. `BlockRaces` runs threads that let go of copies of
one block at the same time, `PoolRaces` threads that take, copy and let go of the slots of a pool.

Conventions: a `ghost` parameter of a method on wrapped numbers is the unbounded counter that the number stands for.
A class has `Valid()` and an abstract value (`View`, `Contents` or `spine`). Where code that is
a loop in the repository is specified by a function here, the method's contract equates the two and the lemmas are
about the function.

What turned out not to hold, with the exact condition under which it does:

- `CSeqNo::seqoff` measures distances up to half a circle exactly when they are below the threshold or the pair
  straddles the wrap-around (`SeqNo.SeqOffExact`); at the threshold itself it comes out negative (`SeqNo.SeqOffFails`).
- Recovery from loss. A full acknowledgement, the only packet that opens the window again, goes out only while its
  number looks newer than the last one confirmed (core.cpp:1806, `Recovery.FullAckGoesOut`). When confirmations are lost
  for half the sequence space, that comparison turns round. A connection that has lost every packet under way can still
  deliver everything if and only if all that is queued fits what may be sent already, or some number not received yet
  can be sent and would look newer once acknowledged (`Recovery.RecoversExactly`); it always can while the unconfirmed
  span is below the threshold (`Recovery.AlwaysRecovers`). With the smallest receive buffer the code allows, a run leads
  to a state that no continuation gets out of (`Stranding.SomeRunsStrand`).
- Removing an inner node leaves the send heap out of order exactly when the last node, which takes its place, is
  earlier than the removed node's parent (`SendHeaps.RemovedOrdered`, `SendHeaps.RemovalCanBreakOrder`).
- A timed pop, `trypop` and `clear` never wake poppers. The first two leave other sleeping poppers behind on a queue
  disabled for good exactly when they take the last element of a queue that nobody may push to
  (`BQueues.TimedPopStrands`), and `clear` exactly when nobody may push (`BQueues.ClearStrands`); all of it happens
  (`BQueues.StrandedPopper`). A popper stranded so stays asleep until an untimed pop, which is refused and wakes all, a
  call that enables or disables the queue, or a wake-up for no reason (`BQueues.StrandedUntil`,
  `BQueues.StrandedThroughTimed`).
- `CRcvBuffer::scanMsg` says that a message larger than the buffer is returned in part. The branch that should do so
  (libudt5ab/buffer.cpp:653-659) selects an empty range, so nothing is returned. It is taken exactly when
  no message is found, the first slot is still the head of the one looked at, and the search has gone up to the slot in
  front of the one that stays empty (`RcvBuffers.RcvBuffer.Scan`, `RcvBuffers.EmptySuccessHappens`); so not any more
  when the whole buffer is acknowledged (`RcvBuffers.EmptySuccessEnds`). A message can be delivered if and only if it
  leaves one slot empty (`MessageProgress.ReadableExactly`).
- `CRcvBuffer::scanMsg` takes a buffer for empty when nothing is acknowledged and the furthest position is zero
  (libudt5ab/buffer.cpp:558-560), which it also is when the packet awaited has just arrived. A message that need not keep
  its order and has arrived in whole is found by the next read if and only if anything is acknowledged or has arrived
  behind the packet awaited (`Messages.FoundAhead`, `MessageTransport.FoundAhead`); one of one packet that is alone in
  the buffer has to wait (`Messages.AloneWaits`).
- A block lets go of its memory in two steps: the atomic decrement, then a second look at the counter
  (src/block.cc:150-154). Memory that is not a pool's is freed once for every thread that was between the two when the
  counter became zero, so twice when two threads drop the last two copies together (`BlockRaces.FreedByRacers`,
  `BlockRaces.TwoRacers`). This takes it that a thread which looks after the first free still reads a zero there; freed
  memory promises nothing. Pool slots are not affected (`BlockRaces.PoolSlots`, `PoolRaces.TakenWhenFree`).
- `block::sub` adds offset and length in 32 bits, so it grants a slice if and only if the slice fits or its end wraps
  around to a number that does (`Blocks.GrantedSlices`, `Blocks.SliceCanLieOutside`).
- A retired pool is released when its uses, added up in 32 bits, come to zero: when there are none, or a multiple of
  2^32 (`Blocks.Garbage.TryDelete`).
- The receive-timer loop takes its limit as a difference of unsigned words (queue.cpp:1103). The limit lies in the past
  exactly when the clock has reached the timeout (`RcvLists.LimitInThePast`); then the loop ends
  (`RcvLists.RcvUList.ServiceLate`). Before that, the loop finds a late node again after every turn while a node is
  alive (`RcvLists.NeverThrough`).

One hypothesis is shown to be sharp: recovery wants a receive buffer of two slots, and with one slot, which is always
kept empty, nothing is ever received (`Recovery.OneSlotIsTooFew`). The code never makes a buffer of fewer than 32
(core.cpp:288-291).

## Model

| member | source | states |
|---|---|---|
| SeqNo.WrapStep | libudt5ab/common.h:243-247 | increment and decrement of a wrapped number are increment and decrement of the counter it stands for, at the wrap-around too |
| SeqNo.WrapCompare | libudt5ab/common.h:226-241 | for counters less than the threshold apart, comparison, equality and offset of the wrapped numbers are those of the counters |
| SeqNo.WrapLength | libudt5ab/common.h:229-230 | the length helper counts an interval of counters right whenever it is shorter than a full circle |
| SeqNo.SeqOffExact | libudt5ab/common.h:232-241 | the exact condition under which the offset of two numbers up to half a circle apart is their true distance |
| SeqNo.SeqOffFails | libudt5ab/common.h:232-241 | the first pair, a threshold apart, for which the offset has the wrong sign |
| SeqNo.NewerExact | libudt5ab/common.h:226-227 | for any two counters, exactly when the first is taken to come after the second: less than the threshold ahead on the circle, or a little more across the wrap-around |
| SndLossLists.SndLossList.constructor | libudt5ab/list.cpp:43-70 | a new list is empty and has the size asked for |
| SndLossLists.SndLossList.Insert | libudt5ab/list.cpp:85-255 | the list becomes its union with the interval and the result is the number of elements not there before, while everything spans less than the array; covers insertion before, at, after and inside the present intervals and swallowing those that follow |
| SndLossLists.SndLossList.Remove | libudt5ab/list.cpp:257-367 | exactly the elements after the given number stay, wherever the number falls: on an interval's start, inside one, in a gap, before or past everything |
| SndLossLists.SndLossList.GetLostSeq | libudt5ab/list.cpp:376-418 | takes out and returns the circular minimum; -1 exactly when the list is empty |
| SndLossLists.SndLossList.GetLossLength | libudt5ab/list.cpp:369-374 | the length kept is the number of elements of the set |
| RcvLossLists.RcvLossList.GetLossLength | libudt5ab/list.cpp:669-672 | the length kept is the number of elements of the set |
| RcvLossLists.RcvLossList.constructor | libudt5ab/list.cpp:422-443 | a new list is empty |
| RcvLossLists.RcvLossList.Insert | libudt5ab/list.cpp:453-499 | appending an interval above everything listed is union with it, whether or not it is merged with the last node |
| RcvLossLists.RcvLossList.Remove | libudt5ab/list.cpp:501-629 | removes exactly the given element and tells whether it was listed; the split, shrink, shift and unlink cases keep next and prior mutually inverse (part of `Valid`) |
| RcvLossLists.RcvLossList.Find | libudt5ab/list.cpp:649-667 | true exactly when some listed element lies in the interval |
| RcvLossLists.RcvLossList.GetFirstLostSeq | libudt5ab/list.cpp:674-680 | the circular minimum, or -1 when the list is empty |
| RcvLossLists.RcvLossList.GetLossArray | libudt5ab/list.cpp:682-703 | the words written encode the listed elements below some bound, all of them unless the limit cuts the report short, and never nothing when there is room and something to report |
| Naks.NakRoundTrip | libudt5ab/core.cpp:2124-2160 | decoding an encoded loss report gives back exactly the reported intervals |
| Naks.EncodedConveys | libudt5ab/core.cpp:2124-2160 | an encoded report is whole and conveys its intervals to whoever decodes it |
| Naks.EncodeSingle | libudt5ab/core.cpp:2424-2431 | a report of an interval is two words, the first with its top bit set; of one number, that number alone |
| Packets.HeaderRoundTrip | libudt5ab/packet.cpp:327-343 | message number, order flag and both boundary flags packed into a header word are read back from it |
| Packets.HeaderLayout | libudt5ab/buffer.cpp:142-158 | bit 31 of the header word marks the first packet of a message, bit 30 the last one, bit 29 that it keeps its order, and the other bits are its number |
| SndBuffers.ChopFlatten | libudt5ab/buffer.cpp:144-164 | cutting a message into packets loses, repeats and reorders no byte |
| SndBuffers.ChopCount | libudt5ab/buffer.cpp:132-134 | a message is cut into exactly as many packets as the block count computed beforehand |
| SndBuffers.ChopSizes | libudt5ab/buffer.cpp:144-160 | every packet but the last is full, none is empty or too large; all carry the message's number and order flag, exactly the first and the last their marks |
| SndBuffers.SndBuffer.constructor | libudt5ab/buffer.cpp:47-92 | a new buffer is an empty circle of blocks whose next message has number 1 |
| SndBuffers.SndBuffer.Add | libudt5ab/buffer.cpp:130-174 | the packets of the message are appended behind those queued, with its flags and number, and the number after it wraps to 1; the unsent position stays |
| SndBuffers.SndBuffer.ReadData | libudt5ab/buffer.cpp:227-240 | hands out the oldest packet never sent and steps past it; nothing exactly when all were sent |
| SndBuffers.SndBuffer.ReadDataAt | libudt5ab/buffer.cpp:242-276 | hands out the packet that many places after the oldest one held |
| SndBuffers.SndBuffer.GetCurrBufSize | libudt5ab/buffer.cpp:290-293 | the count kept is the number of packets queued |
| SndBuffers.SndBuffer.Ack | libudt5ab/buffer.cpp:278-288 | the oldest packets go, the others keep their order and the unsent position its packet; the blocks stay in the circle |
| SndBuffers.SndBuffer.Increase | libudt5ab/buffer.cpp:295-352 | splicing new blocks into the circle changes neither the queued packets nor the unsent position |
| RcvBuffers.ReadIsStream | libudt5ab/buffer.cpp:401-436 | a read returns the next bytes of the acknowledged stream, as many as there are up to the length asked for, and leaves exactly the rest, with a notch inside a packet where needed |
| RcvBuffers.ReadCells | libudt5ab/buffer.cpp:416-434 | reading only empties slots at the front of the ring; every other slot keeps its packet and place |
| RcvBuffers.RcvBuffer.constructor | libudt5ab/buffer.cpp:354-368 | a new buffer has all slots empty |
| RcvBuffers.RcvBuffer.Add | libudt5ab/buffer.cpp:384-399 | fills the slot at that offset from the acknowledged point, or returns -1 and changes no slot when it is taken; the furthest position is remembered in both cases |
| RcvBuffers.RcvBuffer.ReadBuffer | libudt5ab/buffer.cpp:401-436 | new state and bytes returned are those of the stream read of `ReadIsStream`, across the end of the array |
| RcvBuffers.RcvBuffer.Ack | libudt5ab/buffer.cpp:477-485 | moves the acknowledged point over that many slots and shortens the furthest position, not below zero |
| RcvBuffers.RcvBuffer.GetRcvDataSize | libudt5ab/buffer.cpp:493-499 | the number of acknowledged slots not read yet, wrapped or not |
| RcvBuffers.RcvBuffer.GetAvailBufSize | libudt5ab/buffer.cpp:487-491 | the free slots behind the acknowledged point, one always kept empty |
| RcvBuffers.RcvBuffer.LookAhead | libudt5ab/buffer.cpp:574-590 | true exactly when no slot up to the end of the message, or up to the acknowledged point, is empty or read |
| RcvBuffers.RcvBuffer.SkipBadMsgs | libudt5ab/buffer.cpp:562-603 | drops what is in front of the first message that begins in front of the acknowledged point with no hole up to its end or up to that point, and nothing behind it |
| RcvBuffers.RcvBuffer.FindFirst | libudt5ab/buffer.cpp:605-651 | succeeds if and only if some slots hold one whole unread message that is acknowledged or need not keep its order; of these it selects the message that ends first, and says whether it reaches past the acknowledged point |
| RcvBuffers.FindExact | libudt5ab/buffer.cpp:605-651 | from any slot on, with the head of the message begun before, the search selects the readable message that ends first from there, and nothing if and only if none ends there |
| RcvBuffers.FindsFirst | libudt5ab/buffer.cpp:605-651 | from the first slot on something is found exactly if some unread slots from a first packet to a last one, with no first one between, are acknowledged or need not keep their order; what is found ends first, and only one message ends there |
| RcvBuffers.SkipExact | libudt5ab/buffer.cpp:562-603 | what is dropped is exactly the slots in front of the first one in which a message begins that is unread up to its end or the acknowledged point, or all acknowledged slots if there is none |
| RcvBuffers.RcvBuffer.Scan | libudt5ab/buffer.cpp:556-662 | the message selected is the one found after dropping bad ones, with its acknowledgement status; when there is none, success is reported if and only if the first slot is still the head of a message and the search went up to the slot in front of the one that stays empty, and then the range selected is empty |
| RcvBuffers.EmptySuccessHappens | libudt5ab/buffer.cpp:653-659 | a buffer of three slots with which the search succeeds and the read returns nothing and changes nothing |
| RcvBuffers.EmptySuccessEnds | libudt5ab/buffer.cpp:653-659 | with the whole buffer acknowledged that branch is not taken: the last slot looked at is the empty one |
| RcvBuffers.FoundUnread | libudt5ab/buffer.cpp:610-651 | every packet of a message found is present and unread: a hole restarts the search |
| RcvBuffers.RcvBuffer.CopyUnits | libudt5ab/buffer.cpp:515-541 | returns the packets' payload cut to the caller's length; frees the slots of an acknowledged message and marks those of another one as read |
| RcvBuffers.RcvBuffer.ReadMessage | libudt5ab/buffer.cpp:508-547 | new state and bytes returned are those of the message read the lemmas are about |
| Messages.SentFramed | libudt5ab/buffer.cpp:144-164 | over any sequence of calls the packets sent are framed: a packet ends a message exactly when the next one begins one, and all packets of a message agree about order |
| Messages.MessageIsCall | libudt5ab/buffer.cpp:130-174 | every framed message in the sent packets is the payload of one call |
| Messages.NextInv | libudt5ab/buffer.cpp:384-662 | arrivals in any order, acknowledgements and reads keep: a slot is marked read exactly when its message was read, and everything in front of the buffer was read |
| Messages.RunInv | libudt5ab/buffer.cpp:384-662 | the invariant holds in every reachable state of the message mode |
| Messages.EachMessageOnce | libudt5ab/buffer.cpp:508-547 | over every run each message read is the payload of exactly one call, cut to the reader's length, none is read twice, and in-order messages come out in the order of their calls |
| Messages.NothingLeftBehind | libudt5ab/buffer.cpp:556-662 | when a read finds nothing, every message whose packets are all acknowledged has been read |
| Messages.FoundAhead | libudt5ab/buffer.cpp:556-651 | over every run, when a message that need not keep its order has arrived in whole and is unread, the next read finds a message if and only if anything is acknowledged or has arrived behind the packet awaited |
| Messages.AloneWaits | libudt5ab/buffer.cpp:558-560 | a run after which a whole unread message of one packet, alone in the buffer, is not found |
| Messages.SearchedUpTo | libudt5ab/buffer.cpp:384-399 | over every run, the last slot that the search looks at is that of the packet furthest ahead that ever arrived, or the first one not acknowledged |
| MessageTransport.PlainNext | libudt5ab/core.cpp:2388-2451 | the transport does not look at the marks of packets read ahead of their turn: with the marks taken off every step of the protocol does the same |
| MessageTransport.ReadShifts | libudt5ab/buffer.cpp:508-547 | a read in message mode makes the buffer lose slots in front and, marks aside, changes nothing else |
| MessageTransport.RunInv | libudt5ab/core.cpp:1212-1412 | over every run of messages handed over and read and of any steps of the lossy protocol, the protocol's invariant without the marks and the message buffer's with them both hold |
| MessageTransport.MessagesSafety | libudt5ab/core.cpp:1212-1412 | over every such run, whatever is lost, repeated and reordered, each message read is the payload of exactly one message handed over, none is read twice, and in-order messages come out in order |
| MessageTransport.NothingLost | libudt5ab/core.cpp:1315-1412 | when a read finds nothing, every message acknowledged up to its end has been read |
| MessageTransport.FoundAhead | libudt5ab/core.cpp:1315-1412 | over every run of the lossy transport, when a message that need not keep its order has arrived in whole and is unread, the next read finds a message if and only if anything is acknowledged or has arrived behind the packet awaited |
| MessageTransport.EveryMessage | libudt5ab/core.cpp:1212-1312 | in every reachable state a message is taken over if and only if it is not empty and fits the free packets of the send buffer, as full packets and a rest that carry its number and order flag and make up its bytes; otherwise nothing changes |
| MessageTransport.NumbersInTurn | libudt5ab/buffer.cpp:171-173 | over every run the messages are numbered one after the other from 1, starting over after 0x1FFFFFFE |
| MessageProgress.ReadingsFit | libudt5ab/buffer.cpp:556-662 | over every run, each message read has at most one packet fewer than the ring has slots |
| MessageProgress.CanRead | libudt5ab/buffer.cpp:384-662 | from every reachable state, a message that leaves a slot empty, as do the unread ones before it, is read by some continuation |
| MessageProgress.ReadableExactly | libudt5ab/buffer.cpp:653-659 | when the calls before it leave a slot empty, the message of a call is read by some continuation of any run if and only if it leaves one empty itself |
| Protocol.NextKeeps | libudt5ab/core.cpp:1740-2177 | every step, of the application, the sender, the receiver, a timer or the network, keeps the joint invariant |
| Protocol.RunInv | libudt5ab/core.cpp:1740-2177 | the joint invariant holds after every run |
| Protocol.StreamSafety | libudt5ab/core.cpp:1016-1210 | over every run with any loss, duplication and reordering of packets younger than half the sequence space, the bytes received are a prefix of the bytes sent |
| Protocol.CompleteDelivery | libudt5ab/core.cpp:1746-1842 | once everything is acknowledged and read, the bytes received are all the bytes sent |
| Protocol.SamePayload | libudt5ab/core.cpp:2277-2330 | all transmissions of one sequence number carry the same packet |
| Protocol.NothingReleasedEarly | libudt5ab/core.cpp:2000-2037 | the sender gives up only packets the receiver has in order, and an honest peer's reports never break the connection |
| Protocol.OutstandingBounded | libudt5ab/core.cpp:1972-2014 | while lite acknowledgements shrink the window, newest acknowledgement plus window never exceeds oldest held packet plus negotiated window, and what is outstanding and listed as lost fits the negotiated window |
| Protocol.LossListExact | libudt5ab/core.cpp:2412-2448 | the receiver's loss list is exactly the numbers between acknowledged point and largest received with no packet buffered; every slot in use holds its own packet; everything below any acknowledgement ever sent has arrived |
| Protocol.YoungIsNear | libudt5ab/core.cpp:2412-2414 | every packet delivered while younger than half the sequence space carries numbers closer than the threshold to those its addressee compares them with, the confirmed acknowledgement excepted |
| Protocol.PackIsSteps | libudt5ab/core.cpp:2266-2346 | one turn of the sending thread is the protocol's steps of taking and resending a lost number, or of sending a new one |
| ProtocolLaws.EveryStep | libudt5ab/core.cpp:1016-2646 | in every reachable state every step does what its law says: the rows that follow, put together for all runs |
| ProtocolLaws.EveryLossReported | libudt5ab/core.cpp:2418-2431 | over every run, each number that the receiver lists as lost has been named in a loss report |
| ProtocolLaws.Sends | libudt5ab/core.cpp:1016-1100 | of the data handed over as much is queued as the buffer limit leaves room for, as full packets and a rest that make up its bytes |
| ProtocolLaws.Takes | libudt5ab/core.cpp:2277-2278 | the smallest lost number leaves the list and is taken in hand |
| ProtocolLaws.Resends | libudt5ab/core.cpp:2279-2305 | the packet in hand is resent, as it was first sent, if and only if it has not been given up meanwhile |
| ProtocolLaws.Transmits | libudt5ab/core.cpp:2316-2330 | the packet after the last one sent goes out if and only if one more fits the window granted and the congestion window, and it is queued; otherwise nothing happens |
| ProtocolLaws.Expires | libudt5ab/core.cpp:2635-2646 | with nothing listed as lost exactly the unacknowledged numbers become lost; a list that is not empty stays as it is |
| ProtocolLaws.Arrives | libudt5ab/core.cpp:2412-2448 | a packet is stored if and only if its slot is empty, not before the acknowledged point, and not the one that stays empty; then the numbers it skips become lost, and are reported on the spot as one interval if there are any, and its own number is lost no more |
| ProtocolLaws.Acknowledged | libudt5ab/core.cpp:1997-2039 | a full acknowledgement moves what is acknowledged and given up forward only, takes what is given up off the loss list, and grants its window unless a newer one has been seen |
| ProtocolLaws.AcknowledgedLightly | libudt5ab/core.cpp:1971-1982 | a lite acknowledgement raises the newest acknowledgement to its number, takes as much off the window, and changes nothing else |
| ProtocolLaws.Complains | libudt5ab/core.cpp:2114-2168 | a loss report adds exactly the numbers it names that are not acknowledged |
| ProtocolLaws.Confirms | libudt5ab/core.cpp:2107-2109 | a confirmation is taken if and only if it looks newer, which below the threshold means that it is |
| ProtocolLaws.Acknowledges | libudt5ab/core.cpp:1746-1818 | what is acknowledged, lightly or in full, is the number missing first; a full acknowledgement that is new or due moves the acknowledged point there and goes out, with the free slots but at least two, if the number looks newer than the confirmed one |
| ProtocolLaws.Reads | libudt5ab/core.cpp:1125-1210 | a read hands out the next bytes sent, as many as are acknowledged and asked for, and empties acknowledged slots only |
| Recovery.FullAckGoesOut | libudt5ab/core.cpp:1757-1812 | in every reachable state a full acknowledgement goes out if and only if it is new or due and its wrapped number looks newer than the confirmed one; its number is the first missing one |
| Recovery.RecoversExactly | libudt5ab/core.cpp:1805-1817 | from every reachable state with every packet under way lost, some continuation delivers everything sent if and only if all of it may be sent already or a number not received yet may be sent and looks newer than the confirmed acknowledgement |
| Recovery.AlwaysRecovers | libudt5ab/core.cpp:1805-1817 | so it does, without new data, from every reachable state whose unconfirmed span is below the comparison threshold |
| Stranding.SomeRunsStrand | libudt5ab/core.cpp:1805-1817 | with the smallest receive buffer, a run to a span of exactly the threshold after which no continuation delivers everything |
| Recovery.OneSlotIsTooFew | libudt5ab/buffer.cpp:487-491 | with a single receive slot, which is always kept empty, nothing is ever received, so two slots are needed |
| Recovery.CanResend | libudt5ab/core.cpp:2277-2312 | emptying the loss list and, when it is empty, the timeout get any unacknowledged packet sent again |
| Recovery.CanCatchUp | libudt5ab/core.cpp:1746-1842 | all that has arrived in order can be acknowledged and read, and the acknowledgement is under way if it looks newer than the confirmed one |
| Recovery.CanConfirm | libudt5ab/core.cpp:1997-2014 | an acknowledgement under way that still looks newer than the confirmed one can be delivered and confirmed, and then the sender has a window of at least two from it on, however far lite acknowledgements had shrunk it |
| Connections.Transfer | libudt5ab/core.cpp:1740-2450 | for every script of writes, sending turns, timeouts, acknowledgements, reads and deliveries of wrapped packets, lost, repeated and reordered but younger than half the sequence space, the two endpoint objects go through the protocol's steps that the script stands for, event by event, what is sent and posted included, and the bytes received are a prefix of the bytes sent |
| Connections.Play | libudt5ab/core.cpp:1740-2450 | the same from any state of a run on |
| Connections.Perform | libudt5ab/core.cpp:1740-2450 | one event: the run goes on with exactly its steps, and the network and the applications' bytes change as they say |
| Connections.OneMeaning | libudt5ab/common.h:226-241 | two packets that may be delivered and look alike on the wire are the same packet, so a wrapped packet has one meaning |
| Connections.ScriptDecides | libudt5ab/core.cpp:1740-2450 | the script determines the steps and what is outside the endpoints after it, although the wire carries wrapped numbers only |
| Connections.PostedIsDeliverable | libudt5ab/core.cpp:1740-2450 | whatever packet an event posts can be delivered by the next one |
| Connections.DoArrive | libudt5ab/core.cpp:1957-2177 | a packet that is not under way or too old changes nothing; any other one is delivered: the run goes on with the delivery of the packet it stands for, and the answer is posted |
| Connections.DoDeliver | libudt5ab/core.cpp:1957-2177 | the addressee's method is called within its preconditions and is that delivery, for each of the five kinds of packet |
| Connections.DoTurn | libudt5ab/core.cpp:2266-2346 | the run goes on with the steps of one turn, the sender becomes what they make of it, and exactly the packet they send, if any, is posted in wrapped form |
| Connections.DoAcknowledge | libudt5ab/core.cpp:1746-1842 | an acknowledgement, sent or withheld at any unconfirmed span, is the protocol's step |
| Connections.DoData | libudt5ab/core.cpp:2388-2450 | a data packet that arrives is the protocol's delivery, its loss report included |
| Connections.DoFullAck | libudt5ab/core.cpp:1997-2039 | a full acknowledgement that arrives is the protocol's delivery, its confirmation included |
| Connections.DoNak | libudt5ab/core.cpp:2114-2168 | a loss report in words that arrives is the protocol's delivery |
| Connections.Open | libudt5ab/core.cpp:609-766 | a new sender and a new receiver are the protocol's initial state |
| Senders.NakExact | libudt5ab/core.cpp:2124-2168 | a loss report adds exactly the reported numbers that are not acknowledged, up to the first entry about something never sent, and breaks the connection if and only if there is such an entry |
| Senders.Sender.constructor | libudt5ab/core.cpp:609-765 | a new sender is the initial sender of the protocol at its initial sequence number |
| Senders.Sender.Send | libudt5ab/core.cpp:1016-1100 | takes over as many bytes as the buffer limit leaves room for, and none when it leaves none, as the protocol's application step |
| Senders.Sender.PackData | libudt5ab/core.cpp:2266-2346 | on wrapped numbers, does what the protocol's sending turn does: lost packets first, then new ones |
| Senders.Sender.PackNew | libudt5ab/core.cpp:2313-2346 | sends a new packet if and only if what is outstanding is less than the flow window and the congestion window and a packet is queued; it is the one after the last sent, and otherwise nothing changes |
| Senders.Sender.ProcessLiteAck | libudt5ab/core.cpp:1971-1982 | the newest acknowledgement becomes the larger of the two, its sum with the window stays, and so does everything else; it is the protocol's step |
| Senders.Sender.ProcessFullAck | libudt5ab/core.cpp:1997-2039 | a number beyond what was sent breaks the connection and changes nothing else; any other one moves acknowledged number and oldest packet held forward only, drops what is before it from buffer and loss list, and grants its window unless it is old; it is the protocol's step |
| Senders.Sender.TakeWindow | libudt5ab/core.cpp:2009-2014 | window and newest acknowledgement change together, and only for acknowledgements not older than the newest |
| Senders.Sender.Release | libudt5ab/core.cpp:2019-2037 | packets before the acknowledgement leave the buffer and the loss list together |
| Senders.Sender.ProcessNak | libudt5ab/core.cpp:2114-2168 | decoding and handling any whole report of words, single numbers written as intervals included, is the protocol's loss report on the counters they stand for, on a broken connection too |
| Senders.Sender.OneEntry | libudt5ab/core.cpp:2124-2160 | one entry of a report, an interval or a single number, is decoded, handled as the protocol does, and stepped over |
| Senders.Sender.LossRange | libudt5ab/core.cpp:2126-2145 | one interval of a report, of one number or more: refused, inserted whole, inserted from the newest acknowledgement on, or ignored |
| Senders.Sender.LossSingle | libudt5ab/core.cpp:2146-2159 | one single number of a report: ignored, refused or inserted |
| Senders.Sender.ExpTimeout | libudt5ab/core.cpp:2635-2646 | with an empty loss list, exactly the unacknowledged numbers become lost; a list that is not empty stays as it is |
| Receivers.SoundIsProtocolState | libudt5ab/core.cpp:2388-2451 | every state the receiver can be in by its own knowledge is a protocol state for some history of packets, so the protocol's invariants apply to it |
| Receivers.Receiver.constructor | libudt5ab/core.cpp:748-766 | a new receiver is the initial receiver of the protocol |
| Receivers.Receiver.ProcessData | libudt5ab/core.cpp:2412-2450 | 0 exactly when the packet's slot is empty, not before the acknowledged point and not the one that stays empty; then, and only if numbers are skipped, their report is sent, in the words of one interval or one number, they become lost, and the packet's own number is lost no more; it is the protocol's step |
| Receivers.Receiver.NoteArrival | libudt5ab/core.cpp:2419-2448 | the numbers skipped over become lost and are reported, the number of a late packet stops being lost, the largest number is kept |
| Receivers.Receiver.SendAck | libudt5ab/core.cpp:1746-1842 | is the protocol's acknowledgement step at any unconfirmed span: number chosen, lite or full, silence when nothing is new or the number does not look newer than the confirmed one |
| Receivers.Receiver.SendFullAck | libudt5ab/core.cpp:1775-1842 | advances to a newer number, and is the protocol's full acknowledgement whether or not one goes out |
| Receivers.Receiver.Advertise | libudt5ab/core.cpp:1805-1818 | sends the acknowledged number with at least two free slots if and only if it looks newer than the confirmed one |
| Receivers.Receiver.Advance | libudt5ab/core.cpp:1775-1781 | acknowledged number and acknowledged point of the buffer move together |
| Receivers.Receiver.FirstMissing | libudt5ab/core.cpp:1750-1755 | returns the first number not received |
| Receivers.Receiver.ProcessAckAck | libudt5ab/core.cpp:2107-2109 | the confirmed acknowledgement becomes the given number exactly when that looks newer, as in the protocol |
| Receivers.Receiver.Recv | libudt5ab/core.cpp:1125-1210 | is the protocol's read step |
| BQueues.PushBodyKeeps | src/bqueue.h:200-222 | a section of push keeps the wake-up invariant, whether it waits, pushes or is refused, whichever popper the signal goes to |
| BQueues.PopBodyKeeps | src/bqueue.h:274-314 | a section of pop keeps the wake-up invariant, also when it takes the last element of a queue disabled with delay |
| BQueues.DoKeeps | src/bqueue.h:82-316 | every section of every operation, and every spurious wake-up, keeps the wake-up invariant |
| BQueues.NoLostWakeup | src/bqueue.h:189-316 | over every run, while a popper sleeps the elements do not outnumber the woken poppers still to run, dually for pushers and free places, and nobody sleeps on a disabled end |
| BQueues.NeverAllAsleep | src/bqueue.h:497-518 | pushers and poppers never all sleep together, unless the capacity is zero |
| BQueues.FirstInFirstOut | src/bqueue.h:189-316 | over every run, what was delivered followed by what is queued is what was accepted since the queue was last cleared |
| BQueues.RefusedMeansDrained | src/bqueue.h:96-121 | a pop is refused only when everything accepted has been delivered |
| QueueLaws.EveryStep | src/bqueue.h:82-316 | in every reachable state: a push is refused exactly when pushing is disabled, waits exactly while the queue is full, and otherwise appends its element and wakes a popper that sleeps; dually for pop, which takes the first element, ends popping with the last one once pushing is over, and then wakes all; every disable and enable wakes those concerned, and a new capacity takes effect unless it is zero |
| QueueLaws.EveryTimedPop | src/bqueue.h:323-431 | in every reachable state a timed pop or attempt is refused when popping is disabled, takes the first element if there is one, and otherwise gives up when late and waits when not; it wakes a pusher exactly when it takes an element, and no popper |
| QueueLaws.ClearObeys | src/bqueue.h:436-465 | clear throws all elements away, ends popping if pushing is over, and wakes all pushers if it made room, and no popper |
| QueueLaws.NeverOverfull | src/bqueue.h:189-225 | over every run a queue never holds more elements than its capacity |
| BQueues.TimedPopStrands | src/bqueue.h:323-431 | a timed pop on entry, after a signal or when its time is over, and equally an attempt to pop, breaks the wake-up invariant if and only if others sleep and it takes the last element of a queue closed to pushers |
| BQueues.ClearStrands | src/bqueue.h:436-465 | clear breaks the invariant exactly when poppers sleep and pushing is disabled |
| BQueues.StrandedPopper | src/bqueue.h:323-465 | one run after which a woken timed pop, a timed pop on entry, an attempt to pop, and a clear each leave a popper asleep on a disabled queue |
| BQueues.StrandedUntil | src/bqueue.h:82-316 | a stranded popper stays so through exactly the pushes and other threads' spurious wake-ups; untimed pops and every disable or enable wake it |
| BQueues.StrandedThroughTimed | src/bqueue.h:323-431 | no timed pop and no attempt wakes it, unless its own time is over |
| BQueues.BQueue.constructor | src/bqueue.h:549-558 | a new queue is the initial state of the runs, disabled exactly for the invalid size |
| BQueues.BQueue.Push | src/bqueue.h:189-225 | the call up to its first wait or its end is the section the runs are made of |
| BQueues.BQueue.PushAgain | src/bqueue.h:202-224 | a woken push goes on with that section |
| BQueues.BQueue.PushSection | src/bqueue.h:202-224 | wait, refusal or push with its signal, field by field |
| BQueues.BQueue.Pop | src/bqueue.h:265-316 | the call up to its first wait or its end is the section the runs are made of |
| BQueues.BQueue.PopAgain | src/bqueue.h:276-315 | a woken pop goes on with that section |
| BQueues.BQueue.PopSection | src/bqueue.h:276-315 | wait, refusal or pop with its signal and the broadcast of a final drain, field by field |
| BQueues.BQueue.TimedSection | src/bqueue.h:332-382 | wait, timeout, refusal or pop with its signal and without the broadcast, field by field, equal to the section the stranding lemmas are about |
| BQueues.BQueue.Attempt | src/bqueue.h:386-431 | trypop is the timed section whose time is over |
| BQueues.BQueue.ThrowAway | src/bqueue.h:436-465 | clear takes the elements out one by one and wakes only pushers |
| BQueues.BQueue.DisableAll | src/bqueue.h:82-94 | clears the queue, disables both ends and wakes everybody |
| BQueues.BQueue.DisableDelayed | src/bqueue.h:102-121 | disables pushing at once and popping when the queue is empty, and wakes those concerned |
| BQueues.BQueue.EnableResized | src/bqueue.h:142-156 | starts afresh with both ends enabled and the new capacity, if one is given |
| ChainCounts.NextCounts | src/chain.cc:640-691 | every act keeps the counters equal to the threads still in a step and in the chain, with at most one thread shutting a step's queues |
| ChainCounts.FinalsOnce | src/chain.cc:488-508 | over every run the finals run at most once, exactly once by the time all threads are gone, and not before; the chain is not marked stopped earlier either |
| ChainCounts.NobodyLeftWhenShutting | src/chain.cc:664-678 | while a thread shuts its step's queues no thread of the step is still in the step's function, with an element or without |
| ChainFlow.NextClean | src/chain.cc:640-691 | every act other than a blunt disable or a step giving up keeps: what was put into a queue is what was taken from it followed by what is in it |
| ChainFlow.InputShutAlready | src/chain.cc:676-677 | the last thread of a step finds its input queue dry and shut already, so disabling it discards nothing |
| ChainFlow.NothingRefused | src/chain.cc:301-328 | a thread that holds an element always finds the queue behind it open |
| ChainFlow.EveryElementOnce | src/chain.cc:317-328 | when all threads are gone, every later step has put out exactly one result for each element the first queue accepted, made by all the steps in their order |
| ChainDrain.NeverStuck | src/chain.cc:640-691 | there is no deadlock: in every run, stopped or not, gently or bluntly, and whatever step has given up, either some thread can move or all are gone with the finals run once |
| ChainDrain.MoveDecreases | src/chain.cc:640-691 | once the first queue is shut, every move of a thread brings the chain closer to its end, a producer that stops and a step that gives up included |
| ChainDrain.MovesBounded | src/chain.cc:301-361 | so the threads make only a bounded number of moves, whatever further stops and disables come in between, and joining them ends |
| ChainSleep.DoKeeps | src/bqueue.h:189-316 | whatever a thread does, who waits at a queue is about to push or to pop there, each queue's wake-up invariant holds, and an act that is not blocked happens as in the chain |
| ChainSleep.ChainFollows | src/chain.cc:640-691 | every run of the chain with sleeping threads is a run of the chain, so what holds of the runs of `Chains` holds of it |
| ChainSleep.NobodySleepsForGood | src/bqueue.h:189-316 | there is no deadlock with sleeping threads: in every run, whichever sleeper each signal went to, some thread that is not asleep makes a move, or all are gone with the finals run once |
| ChainImpls.ChainImpl.Start | src/chain.cc:161-299 | enables all queues and counts all threads; refused, with nothing changed, unless closed and not running |
| ChainImpls.ChainImpl.CreateThreads | src/chain.cc:216-273 | each step's counter is its number of threads and the chain's counter is their sum |
| ChainImpls.ChainImpl.EnableAll | src/chain.cc:206-208 | every queue is enabled and empty and keeps its capacity |
| ChainImpls.ChainImpl.EndThread | src/chain.cc:664-690 | the step's and the chain's counters go down by one, not below zero; with the step's at zero the queue behind it runs dry and the one before it is dead; with the chain's at zero a running chain's finals run unless they have |
| ChainImpls.ChainImpl.DoFinals | src/chain.cc:488-508 | the finals run exactly when the chain runs and has not run them |
| ChainImpls.ChainImpl.DelayedDisable | src/chain.cc:317-328 | lets the first queue, and no other, run dry, unless not running, not closed or cancelled |
| ChainImpls.ChainImpl.Stop | src/chain.cc:334-358 | lets the first queue run dry, or empties and disables all queues, and marks the chain cancelled; once only, and only while running |
| ChainImpls.StartIsInit | src/chain.cc:161-299 | a chain just started is the initial state of the runs |
| ChainImpls.EndIsFourActs | src/chain.cc:664-690 | the end of a thread that nobody interrupts is the run of the acts the invariants are about |
| BoyerMoores.PrepareBadCharacter | src/boyer_moore.cc:130-136 | every entry is the distance of the byte's last occurrence, the final position not counting, from the needle's end |
| BoyerMoores.Suffixes | src/boyer_moore.cc:138-155 | the linear-time loop computes the longest common suffix of the needle and each of its prefixes |
| BoyerMoores.BorderShifts | src/boyer_moore.cc:163-171 | the first pass leaves at each position the smallest shift by a border past it |
| BoyerMoores.PrepareGoodSuffix | src/boyer_moore.cc:157-177 | every entry is the smallest admissible positive shift for a mismatch there |
| BoyerMoores.OccurrenceIsAdmissible | src/boyer_moore.cc:106-113 | an occurrence within one needle's length of a mismatch lies at an admissible shift |
| BoyerMoores.NothingSkipped | src/boyer_moore.cc:112 | no occurrence lies in front of the position that either table shifts to |
| BoyerMoores.BoyerMoore.constructor | src/boyer_moore.cc:15-31 | a search object has both tables filled in for its needle |
| BoyerMoores.Compile | src/boyer_moore.cc:15-31 | a pattern is refused exactly when its length does not fit an int |
| BoyerMoores.BoyerMoore.Search | src/boyer_moore.cc:90-115 | the leftmost occurrence of the needle, or nothing exactly when there is none, for every haystack; refused exactly when the haystack's length does not fit an int |
| Md5s.FoldConcat | libudt5ab/md5.cpp:352-354 | folding the block function over whole blocks and then over more is folding it over all |
| Md5s.CountedMore | libudt5ab/md5.cpp:334-338 | the two 32-bit words with their carry stay the 64-bit bit count |
| Md5s.StartRegisters | libudt5ab/md5.cpp:313-321 | the registers start with the bytes that section 3.3 of RFC 1321 lists, low-order byte first |
| Md5s.LittleEndianValue | libudt5ab/md5.cpp:373-381 | the bytes written for a number stand for it, low-order byte first |
| Md5s.PaddedIsWhole | libudt5ab/md5.cpp:376-379 | padding per sections 3.1 and 3.2 of RFC 1321 fills whole blocks and adds at most one block more than needed |
| Md5s.Md5State.constructor | libudt5ab/md5.cpp:313-321 | a new state has consumed nothing |
| Md5s.Md5State.Append | libudt5ab/md5.cpp:323-359 | the bytes consumed grow by exactly the data, whatever was buffered; a length of zero or less changes nothing |
| Md5s.Md5State.FirstBlock | libudt5ab/md5.cpp:340-350 | data that completes or extends the buffered block is consumed like any other |
| Md5s.Md5State.Blocks | libudt5ab/md5.cpp:352-358 | whole blocks are folded in and the rest is buffered |
| Md5s.Md5State.LengthBytes | libudt5ab/md5.cpp:373-375 | the eight bytes are the bit count, low byte first |
| Md5s.Md5State.Pad | libudt5ab/md5.cpp:376-377 | consumes exactly the padding of what was consumed: 0x80, then zeros up to 56 modulo 64 bytes |
| Md5s.Md5State.Finish | libudt5ab/md5.cpp:361-382 | the digest is the block function folded over everything consumed, padded, as RFC 1321 defines it |
| Md5s.HashPieces | libudt5ab/md5.cpp:313-382 | however a message is cut into pieces, the digest is that of the whole message |
| SendHeaps.AddedOrdered | libudt5ab/queue.cpp:368-383 | adding keeps the heap ordered |
| SendHeaps.RemovedOrdered | libudt5ab/queue.cpp:411-435 | removing the entry at k keeps the heap ordered if and only if the last entry is not earlier than the parent of k, or k is the root or the last |
| SendHeaps.RootIsEarliest | libudt5ab/queue.cpp:346-354 | nothing in an ordered heap is earlier than its root |
| SendHeaps.RemovalCanBreakOrder | libudt5ab/queue.cpp:411-435 | a heap that removing an inner entry leaves out of order |
| SendHeaps.SndUList.Insert | libudt5ab/queue.cpp:256-281 | grows the array when full and adds the node, unless it is there; every node knows its place |
| SendHeaps.SndUList.InsertNode | libudt5ab/queue.cpp:356-402 | the heap becomes the old one with the node sifted up, and every node's back pointer is its place |
| SendHeaps.SndUList.Remove | libudt5ab/queue.cpp:404-443 | the heap becomes the old one without the node, the last one sifted down in its place, and the node knows that it is out |
| SendHeaps.SndUList.TakeDue | libudt5ab/queue.cpp:307-321 | on an ordered heap takes the earliest node when its time has come, leaves the heap ordered, and takes none exactly when all are in the future |
| SendHeaps.SndUList.Update | libudt5ab/queue.cpp:283-305 | the node is on the heap afterwards: untouched, in front, or moved, as the flag and its place say |
| RcvLists.RcvUList.Insert | libudt5ab/queue.cpp:600-619 | the node goes to the end of a well-formed doubly linked list with the present time |
| RcvLists.RcvUList.Remove | libudt5ab/queue.cpp:621-650 | exactly that node leaves, from front, middle or end |
| RcvLists.RcvUList.Update | libudt5ab/queue.cpp:652-680 | the node moves to the end with the present time; one not on the list is left alone |
| RcvLists.RcvUList.ServiceLate | libudt5ab/queue.cpp:1102-1122 | with the limit in the past the loop ends, having serviced in order exactly the late nodes that are alive and removed the late others; the list is in time order again and holds nobody late |
| RcvLists.LimitInThePast | libudt5ab/queue.cpp:1103 | the limit, an unsigned difference, lies in the past exactly from the timeout onwards |
| RcvLists.RcvUList.TakeTurn | libudt5ab/queue.cpp:1104-1121 | the body of the loop, whatever the clock says, is one `RcvLists.Turn`, the turn that `RcvLists.NeverThrough` counts |
| RcvLists.NeverThrough | libudt5ab/queue.cpp:1104-1122 | while the clock is below the limit and a node is alive, every turn of the loop leaves a late node in the list |
| CircularBuffers.WrittenRing | src/circular_buffer.h:150-185 | writing around the end, and moving the read position when overtaken, leaves the last elements of old contents and new data |
| CircularBuffers.CircularBuffer.constructor | src/circular_buffer.h:58-61 | a new buffer is empty, capacity zero included |
| CircularBuffers.CircularBuffer.Copy | src/circular_buffer.h:65-71 | the copy has the contents and capacity of the original in its own array |
| CircularBuffers.CircularBuffer.Clear | src/circular_buffer.h:79-81 | nothing is left |
| CircularBuffers.CircularBuffer.Pop | src/circular_buffer.h:93-114 | takes a prefix out in order, or is refused with nothing changed when there are fewer elements |
| CircularBuffers.CircularBuffer.Push | src/circular_buffer.h:146-186 | the contents become the last `capacity` elements of old contents and new data, for any amount of data |
| CircularBuffers.CircularBuffer.Get | src/circular_buffer.h:195-204 | indexes from the front, or from the back when negative, refused exactly out of range, with both positions possibly parked at the capacity |
| Blocks.Block.Copy | src/block.cc:87-93 | the copy counts as one more live block of the same slot |
| Blocks.Block.Sub | src/block.cc:126-140 | a slice counts as one more live block; granted exactly when its end, computed in 32 bits, is inside the block |
| Blocks.GrantedSlices | src/block.cc:126-134 | a slice is granted if and only if it lies inside the block or its end wraps around to a number inside |
| Blocks.SliceCanLieOutside | src/block.cc:130 | two bytes far outside a block of one byte are granted |
| Blocks.Block.Assign | src/block.cc:111-124 | when nobody comes between its two sections, the count moves from the old slot to the new one; memory is freed exactly when the block owned it and was its last user; assignment within one slot changes no count |
| Blocks.Block.Switch | src/block.cc:115-123 | the same for blocks on different counters |
| Blocks.Block.Destroy | src/block.cc:150-154 | when nobody comes between its two sections, one live block fewer, freed exactly when it was the last one of memory of its own |
| BlockRaces.RunInv | src/block.cc:150-154 | threads that copy and let go of one block in two sections each keep: the counter is the number of holders, nothing is freed while there are any, and then one free is due for every thread between its sections |
| BlockRaces.FreedByRacers | src/block.cc:150-154 | in the end memory of its own has been freed once for every thread that was between its sections when the counter became zero: at least once, and exactly once if and only if that was one thread |
| BlockRaces.OneAtATime | src/block.cc:150-154 | exactly once if no two threads are ever between their sections together |
| BlockRaces.TwoRacers | src/block.cc:150-154 | a run of two threads that frees the memory twice |
| BlockRaces.PoolSlots | src/block.cc:150-154 | from one taking of a pool's slot to the next nothing is freed and the counter is the number of live blocks |
| PoolRaces.RunInv | src/blockpool.cc:170-200 | over every run of threads that take, copy and let go of slots, each counter counts the holders, who all got the slot in its present life |
| PoolRaces.TakenWhenFree | src/blockpool.cc:180-190 | a slot can be taken if and only if nobody holds it, and its taker is then alone |
| PoolRaces.OneTaker | src/blockpool.cc:170-200 | all that hold a slot at one time have it from one taker, whatever others took and let go of meanwhile |
| Blocks.Pool.constructor | src/blockpool.cc:136-167 | a new pool has all slots free |
| Blocks.Pool.Get | src/blockpool.cc:170-200 | ends; hands out the first free slot in circular order, never one in use, and nothing exactly when all are in use |
| Blocks.BlockPool.constructor | src/blockpool.cc:245-253 | a new block pool has one pool with free slots |
| Blocks.BlockPool.Get | src/blockpool.cc:256-281 | always hands out a whole slot that was free, at its own place in the pool's memory and not the block's to free, and shares no byte with any live block that lies within its slot of the same pool; takes the first pool that has a free slot, from the current one on, and adds a pool only when every slot of every pool is in use |
| Blocks.SlotsApart | src/blockpool.cc:187 | blocks that lie within different slots of one pool share no byte |
| Blocks.UsesAreBlocks | src/blockpool.cc:61-70 | the counters of a pool add up to the number of live blocks |
| Blocks.NoUses | src/blockpool.cc:67-70 | the sum of the counters is zero exactly when no slot is in use |
| Blocks.Garbage.TryDelete | src/blockpool.cc:61-78 | a retired pool's memory is released exactly when no live block refers to any of its slots, or the live blocks come to a multiple of 2^32 |
| Blocks.GarbageCan.CheckGarbage | src/blockpool.cc:88-103 | exactly the retired pools that `TryDelete` releases leave the can, in one pass that keeps the order of the others |

## Left out

Contracts that say less than the code allows, or ask for more:

- Senders.Sender.ProcessLiteAck: the acknowledged number must not be beyond what was sent. The code checks this for full acknowledgements only; `Connections.Transfer` meets it for every receiver that follows the protocol.
- Senders.Sender.ProcessFullAck: the advertised window is at most the negotiated one, which a receive buffer no larger than the flight flag size ensures (core.cpp:107).
- Senders.Sender.ProcessNak: wants whole entries; a report ending in the middle of an interval is not modelled.
- Senders.Sender.PackData: takes a lost number and resends it in one step. The runs of `Protocol` keep the two apart, so an acknowledgement may come in between.
- Receivers.Receiver.ProcessData: like every method that takes a wrapped number from the network, wants it to stand for a counter within the comparison threshold. A packet that outlives half the sequence space is outside the model; `Connections.Transfer` discharges the rest.
- Protocol.YoungIsNear: nothing bounds how far the confirmed acknowledgement lags; the comparison with it is modelled as the code makes it, and `Recovery.RecoversExactly` says what follows.
- SndBuffers.SndBuffer.ReadDataAt: the branch for an expired message, which returns -1 and may move the unsent position, goes with message expiry, which is not modelled.
- SndLossLists.SndLossList.Insert: elements and new interval together span less than the array, as its owner ensures (`Protocol.OutstandingBounded`).
- RcvLossLists.RcvLossList.Insert: only above everything listed, as its owner calls it.
- SendHeaps.SndUList.Update: says which heap results but not that it is in order. After bringing the root forward and after removing an inner node the order is that of `RemovedOrdered`.
- SendHeaps.SndUList.InsertNode: wants room in the array, which only `insert` checks in the code.
- Blocks.Block.Assign: says what is freed when no other thread comes between its decrement and its look at the counter; the races are in `BlockRaces`, where an assignment is a copy and a drop.
- Blocks.Block.Switch: as for `Blocks.Block.Assign`.
- Blocks.Block.Destroy: as for `Blocks.Block.Assign`.
- RcvLists.RcvUList.ServiceLate: the limit lies in the past; otherwise the loop need not end (`RcvLists.NeverThrough`).
- ChainImpls.ChainImpl.Stop: the cancellation callbacks and the flags set for the steps are left out, and joining the threads is the act `Join` of the runs.
- Recovery.AlwaysRecovers: some continuation delivers everything; that the timers and the scheduler choose it is not modelled, and the congestion window is assumed to let a packet through now and then.
- Recovery.RecoversExactly: about the two windows, the timeout and the acknowledgements; a connection given up after too many timeouts is not modelled.
- ChainDrain.NeverStuck: like `ChainSleep.NobodySleepsForGood`, wants queues of capacity at least one; a queue of capacity zero blocks by design (src/bqueue.h:62-68).
- ChainFlow.EveryElementOnce: steps take until the queue refuses and put out one result for each element; runs in which a step gives up or a queue is disabled bluntly are in the model but not in this statement.

Not modelled:

- Message expiry (TTL), message drop requests, `dropMsg` and removal of a range from the receiver's loss list.
- Congestion control, timers, rate estimators and round-trip times: the congestion window and whether an acknowledgement is due are arbitrary inputs. The periodic loss report, which `checkTimers` has commented out (core.cpp:2586-2594), is a step of the runs nevertheless.
- The handshake. `connect` computes the initial sequence number minus one without wrapping (core.cpp:611-614, 755); the model wraps it.
- Errors and blocking of the socket calls, epoll, keep-alive and shutdown packets, file transfer (`addBufferFromFile`, `readBufferToFile`).
- The acknowledgement window that maps acknowledgement numbers back to sequence numbers: a confirmation packet carries the sequence number acknowledged, and one that the window has forgotten is a packet never delivered.
- Sharing of receive units between unit queue and buffer: units are values in slots. `CUnitQueue` is not part of this model.
- Running out of memory, and 32-bit overflow of signed arithmetic where the code's behaviour is undefined (the shift of a negative length in `md5_append`, the absolute value of the smallest int, circular buffers of more than 2^31 elements).
- Copying and assigning search objects.
- `try_push`, timed pushes, `enable_pop_only`, `disable_pop` and `resize_enable_push` of the queue. Timed pops, `trypop` and `clear` are kept out of its runs because they break the invariant; what they do and exactly when they break it is proved beside the runs.
- Cancellation callbacks and sync types of the chain, failure to create a thread, threads that end while others are still being created, and restarting a chain.
- `md5_process`: the block function is a parameter of the model.
- The heap's timer and condition signals, and what the sending thread does with the socket it took from the heap.
- The counter that default blocks share (src/block.cc:68-70): default blocks are modelled as no block at all.
- The refusal of pools whose memory does not fit 32 bits (src/blockpool.cc:150-156): a pool here is of any size.
- Adding a pool to the garbage can. Each increment, each decrement and each compare-and-set of a reference count is one step, and no slot has 2^32 live blocks.
- Blocking sends and reads of messages, their timeouts and their exceptions: a message that does not fit is not taken over, and a read that finds nothing returns nothing.
- `CCache`, `CHash`, the rendezvous queue, the readers and writers of data formats and everything else outside the files cited above.
