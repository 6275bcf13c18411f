# UFT and UDT in Dafny

UFT copies files between two machines over UDT, a reliable byte stream on top of datagrams.
This project models both layers and the data structures under them, and proves what they are
for: that the stream arrives whole and in order, that a file transfer makes the two copies
equal while sending only what differs, and that the structures in between do what their
callers rely on.

## How it is organised

The UDT transport, from the bottom up:

* `SeqNo.dfy`: 31-bit wrapping sequence numbers (`Wrap` maps an unbounded stream position to
  its number). `Ring.dfy`: slots of a fixed array addressed by offset. `Bytes.dfy`: payloads.
* `LossNodes.dfy`: the index-linked lists of ranges in fixed arrays, as values. `SndLossList.dfy`
  and `RcvLossList.dfy`: the two classes over real arrays; `Contents()` is the set of lost
  positions. `LossReport.dfy`: the words of a loss report; `LossExchange.dfy`: one carried across.
* `SndBuffer.dfy`, `RcvBuffer.dfy`: the circular chain of blocks and the ring of units.
  `AckWindow.dfy`: the history of acknowledgements.
* `SenderModel.dfy`, `ReceiverModel.dfy`: the protocol steps of one side as functions on
  unbounded positions. `Sender.dfy`, `Receiver.dfy`: the same steps as methods over the fields,
  wrapping numbers, lists and buffers of the code, each proved to take exactly the model's step.
* `Transport.dfy`: both sides and a channel that loses, repeats and reorders. `Completion.dfy`:
  from which states everything handed over can still be delivered. `DeadEnd.dfy`: that these
  are exactly all of them, once everything under way is lost, and a run into a dead end.
  `Connection.dfy`: the two endpoint objects together take the steps of `Transport`.
  `Network.dfy`: a connection opened and driven by any calls over a channel of real packets.
* `SendSchedule.dfy`: the heap of sockets by next sending time. `RcvSchedule.dfy`: the list of
  sockets by time last heard from, and the timer sweep. `Md5.dfy`: the streaming digest around
  an arbitrary block function.

The UFT transfer:

* `Sync.dfy`: the two peers of a transfer, step by step, with channels and restarts, and what a
  transfer amounts to (`Merge`, `Differing`). `Lockstep.dfy`: the proofs about all its runs; a
  state is `Sound` if it keeps both invariants, which every reachable state does (`FreshSound`,
  `RunKeeps`). `Session.dfy`: the loops of the code over an inbox, an outbox and a file.
  `Transfer.dfy`: the loops joined are the pair. `Faults.dfy`: the pair when writes fail.
* `ByteBuffer.dfy`, `BitConverter.dfy`, `Socket.dfy`, `FileListing.dfy`, `Messages.dfy`: typed
  packet buffers, byte order, packets over partial transfers, asking for a listing and
  answering, the messages of a transfer as bytes.

Ghost parameters such as `ghost a: int` next to a sequence number `seqno == Wrap(a)` give the
position a wrapped number stands for.

## Where the code falls short

* The comparison of sequence numbers is an order only on numbers closer than the threshold
  (`SeqCmpExactly`, `SeqCmpAtThreshold`, `SeqCmpNotTransitive`). The methods of the endpoints
  ask that arriving numbers lie that close; `RecentIsTold` derives this, in every reachable
  state, from a bound on the age of the packet alone.
* The receiver compares its first gap with the last position the sender has confirmed and sends
  no full ACK unless the gap comes after it (udt/src/core.cpp:1745, udt/src/core.cpp:1785).
  When no ACK2 gets through for 2^30 - 1 packets the comparison turns, no more acknowledgements
  go out, the sender's window closes, and nothing more is delivered, until a timer breaks the
  connection.
  `DeadEndExactly` gives the exact condition and `DeadEndReached` a run.
* `CRcvLossList::remove(seqno1, seqno2)` promises to remove all numbers in between, but a range
  that wraps leaves 0x7FFFFFFF (udt/src/list.cpp:638-643); `RemoveRange` states exactly what
  remains and `GreatestStays` shows a list. On a range that ends with 0x7FFFFFFF the loop
  `i <= seqno2` does not end if the 32-bit counter wraps (`LoopEndsExactly`).
* `CSndUList::remove_` only sifts down, so an interior removal can break the heap order;
  `RemovedOrders` gives the exact condition and `InteriorRemovalBreaksOrder` an instance;
  `RescheduledOrders` is the condition when the socket comes back to the front at once.
* `CSndUList::update` and `pop` insert without the growth step of `insert`, and nothing calls
  `insert`, so the heap keeps its 4096 slots (udt/src/queue.cpp:229). `Update` therefore requires
  a free slot when the socket is not scheduled yet; `FullSchedule` is a schedule without one, for
  every size.
* A listing request cuts the length of the path to one byte but sends the path whole, so a path
  of 256 bytes or more asks for a shorter one (`RequestAsks`).
* A write that fails in the loop over a whole file is answered as if it had succeeded, and the
  stream stays failed (UFT/UFTSession.hpp:1010-1024): both sides report success on a copy cut
  off there. A write that fails in the comparing loop is answered so; the sender stops without
  disconnecting (UFT/UFTSession.hpp:1228-1232) and the receiver goes on to wait for the next
  packet, or, after the last chunk, reports success on a copy that lacks it. `CopyExactly` and
  `StuckExactly` say exactly when; `WrongCopyReached` and `StuckReached` are runs.
* A transfer keeps a chunk whose size and 64-bit hash agree but whose bytes differ;
  `MergeIsSource` says that, as long as writes succeed, this is the only way the copy can differ
  from the source.
* The connection start computes the number before the initial one as `m_iISN - 1`
  (udt/src/core.cpp:614, udt/src/core.cpp:755), which is -1 for an initial number 0. It acts
  like 0x7FFFFFFF wherever it is used, except that its difference from the number 0x7FFFFFFF
  leaves 32 bits (`CurrActs`).
* The initial flow window is one larger than what the ring accepts (udt/src/core.cpp:602,
  udt/src/buffer.cpp:477-481); `ConfigOk` allows it, and the packet too many is refused and sent
  again.
* The receive buffer must not exceed the flight flag size (udt/src/core.cpp:107,
  udt/src/core.cpp:293-295); the `Receiver` constructor and `ConfigOk` take it as given.

## Model

| member | source | states |
|---|---|---|
| Transport.StreamSafety | udt/src/core.cpp:2259-2444 | End-to-end safety: at every point of every run (new data, retransmissions, full and lite ACKs, NAKs, timeouts, reads, and a channel that loses, repeats and reorders) the bytes read so far are a prefix of the bytes handed over: no gap, no duplicate, no swap |
| DeadEnd.DeadEndExactly | udt/src/core.cpp:1738-1826 | For every state of every run, with every packet under way lost: further steps without new data, in which no new packet overtakes a pending loss and ACKs are answered, can deliver everything handed over if and only if the last confirmed position is less than 2^30 - 1 behind the first gap, or the sender's window already reaches the end of the data, or it reaches a position the receiver can stop at and will announce; and otherwise no steps at all can |
| DeadEnd.NoDeadEnd | udt/src/core.cpp:1801-1804 | In particular no reachable state is a deadlock while the confirmed position is less than the threshold behind the first gap, even once every packet under way is lost: steps the code can take, retransmissions before new packets, deliver the rest; that is what the minimum window of 2 is for |
| DeadEnd.DeadEndReached | udt/src/core.cpp:1784-1785 | In every configuration, with any initial number, a run ends in a dead end: every ACK that arrives is answered, no answer arrives, the sender holds no more packets than the receiver's ring, and after it, all packets lost, whatever steps follow never deliver the rest, because the code sends no full ACK |
| DeadEnd.DeadEnd | udt/src/core.cpp:1745-1785 | Outside the condition no steps that follow, proper or not, deliver the rest |
| Completion.AllDelivered | udt/src/core.cpp:2259-2444 | Under the condition everything handed over can still be delivered, from any state that keeps the invariants, by steps the code can take |
| Completion.AllLost | udt/src/core.cpp:2103-2151 | The invariants do not rest on what is under way: they survive the loss of every packet |
| Completion.OneMore | udt/src/core.cpp:1733-1826 | As long as the window reaches it, the packet the receiver waits for can be brought in, fresh once the loss list is empty or retransmitted, and moves the first gap |
| Completion.Announce | udt/src/core.cpp:1778-1826 | From a position it announces, receiver and sender get a confirmation across, after which the window is open |
| Completion.AnnouncesClose | udt/src/core.cpp:1745-1785 | The confirmed position never lags a whole circle of numbers, and the receiver announces only inside the threshold, or up to two steps beyond it across a wrap |
| Connection.RecentIsTold | udt/src/core.cpp:1944-2444 | In every reachable state every distance the endpoints' comparisons rely on is inside the threshold, given only that the arriving packet is not about 2^30 numbers old; nothing is assumed about confirmations |
| Network.Play | udt/src/core.cpp:2259-2444 | A connection is opened and any list of calls is played on it: data handed over, retransmissions, new packets, timeouts, acknowledgements, reads, and the arrival of any packet sent so far, lost, repeated and reordered at will, in the 31-bit numbers of the code. The bytes read are a prefix of the bytes handed over, and are what a run of the system delivers |
| Network.YoungIsRecent | udt/src/core.cpp:1944-2444 | A packet that arrives within 2^28 steps of its sending is recent enough for all its numbers to be told apart, an answer counting from its own sending |
| Network.OneAhead | udt/src/core.cpp:2307-2340 | In one step neither the sequence numbers sent nor the acknowledgement numbers get more than one ahead |
| Network.Network.Do | udt/src/core.cpp:1944-2444 | Every call makes exactly its step of the system and puts on the channel exactly the packet that step sends, or is one of the calls with nothing to do, and then changes nothing |
| Network.EmittedIsSent | udt/src/core.cpp:1733-2444 | The packet a step sends is the only one it adds to those on the channel |
| Network.OneAcross | udt/src/core.cpp:2259-2444 | From opening to reading: a packet's worth of data handed over, sent, delivered and acknowledged is read as handed over, for every initial number and size |
| Network.Network.Arriving | udt/src/core.cpp:1944-2444 | Any packet sent so far arrives, for the first time or again: unless it is too old, exactly the system's step on that packet is made, and what it sends is on the channel from then on |
| Connection.Connection.Open | udt/src/core.cpp:600-620 | Two fresh endpoints, with any initial number and every object of theirs fresh, are the start of the system |
| Connection.Connection.DataArrive | udt/src/core.cpp:2381-2444 | The two endpoint objects, in 31-bit numbers, take the system's step on an arriving packet |
| Connection.Connection.SendLost | udt/src/core.cpp:2272-2302 | The system's retransmission step, under the wrapped number taken before |
| Connection.Connection.SendNewPacket | udt/src/core.cpp:2307-2340 | The system's step for a new packet, whose number is its wrapped position |
| Connection.Connection.AckArrive | udt/src/core.cpp:1969-2024 | The system's step on a full acknowledgement |
| Connection.Connection.LiteAckArrive | udt/src/core.cpp:1956-1966 | The system's step on a lite acknowledgement |
| Connection.Connection.NakArrive | udt/src/core.cpp:2103-2151 | The system's step on the words of a loss report |
| Connection.Connection.Ack2Arrive | udt/src/core.cpp:2077-2101 | The system's step on a confirmation |
| Connection.Connection.AckSend | udt/src/core.cpp:1754-1826 | The full ACK the objects send is the system's, in wrapped numbers |
| Connection.Connection.Read | udt/src/core.cpp:1124-1215 | The system's step for a read, and the bytes go to the application |
| Connection.Connection.DeliveredIsPrefix | udt/src/core.cpp:2259-2444 | Stream safety of the objects: what the application has read is a prefix of the stream |
| Completion.StepLives | udt/src/core.cpp:1944-2101 | Every step keeps that whatever the receiver takes for confirmed the sender knows, that a sender that knows no more has a window of at least 2, and that the confirmed position lags by less than a circle |
| Completion.SendingAckConfirms | udt/src/core.cpp:1778-1826 | A new acknowledgement is not yet confirmed by anything under way and never advertises a window below 2 |
| Completion.Ack2ArrivesConfirms | udt/src/core.cpp:2077-2101 | What an ACK2 confirms the sender has really taken in |
| Transport.StepKeeps | udt/src/core.cpp:1944-2101 | Every step of either side keeps the joint invariant: the sender holds exactly the unreleased part of the stream under its own positions, the receiver holds stream packets under theirs, acknowledgements never run ahead of what arrived, and what was read plus what is readable is the acknowledged prefix |
| Transport.AlwaysDefined | udt/src/core.cpp:2274-2300 | In a consistent state every step stays inside its buffers; in particular a lost number taken off the list before an ACK arrived is looked up at an offset that is either negative or still held |
| Transport.NothingGivenUp | udt/src/core.cpp:2010-2024 | A packet the receiver has neither consumed nor holds is still held by the sender, at its own position, at every point of every run |
| Transport.ListsNeverOutgrown | udt/src/core.cpp:2103-2151 | Conforming peers never trip the attack checks; every loss-list member lies in the sent and unreleased window, which is narrower than the flow window; the receiver's losses span less than its ring |
| Transport.StreamIsSubmitted | udt/src/core.cpp:1015-1120 | The stream is exactly what the application handed over, in order |
| Transport.RunKeeps | udt/src/core.cpp:1944-2444 | The joint invariant holds in every state of every run |
| Transport.NotLostAgain | udt/src/core.cpp:1944-2151 | At every point of every run: what has been acknowledged, by a lite or a full ACK, stays so, and no later report or timeout puts it on the loss list |
| Transport.LiteAckSettles | udt/src/core.cpp:1956-1966 | In particular after a lite ACK, which takes effect at once |
| Transport.NakHeard | udt/src/core.cpp:2103-2151 | A report that arrives puts exactly its unacknowledged numbers on the loss list, and changes nothing else |
| Transport.EveryLossReported | udt/src/core.cpp:2414-2425 | At every point of every run, every position the receiver misses has been named by a report it sent |
| SenderModel.LiteAckOk | udt/src/core.cpp:1956-1966 | A lite ACK moves the left edge up to the acknowledged position and never back, keeps the right edge lastAck + window where it was, and changes nothing else |
| SenderModel.FullAckOk | udt/src/core.cpp:1985-2024 | A full ACK keeps the window invariant sndLastDataAck <= sndLastAck <= sndCurrSeqNo + 1 and the span bound, and breaks the connection exactly when it names something never sent |
| SenderModel.FullAckExact | udt/src/core.cpp:1969-2024 | Everything a full ACK changes: the edges move up and never back, the window is the advertised one unless the ACK is older, exactly the packets and losses below it go; an ACK of something never sent changes nothing but the verdict on the peer |
| SenderModel.NakLossExact | udt/src/core.cpp:2115-2151 | A report of sent numbers adds exactly those of its numbers that are not yet acknowledged, and is never taken for an attack |
| SenderModel.NakExact | udt/src/core.cpp:2115-2151 | For any report at all: the unacknowledged numbers of the entries before the first that names numbers never sent are added, the peer is distrusted exactly if there is such an entry, and nothing else changes |
| SenderModel.NakOk | udt/src/core.cpp:2103-2151 | Whatever a report says, the loss list stays inside the sent and unreleased numbers |
| SenderModel.SendNewOk | udt/src/core.cpp:2307-2340 | A new packet keeps the window invariant for any congestion window |
| SenderModel.SendNewExact | udt/src/core.cpp:2307-2340 | A packet goes out only if with it the outstanding ones are at most the flow window and at most the congestion window, and is the next one never sent; none goes out only if none is unsent or one more would exceed one of the two |
| SenderModel.BurstExactly | udt/src/core.cpp:2307-2340 | However many chances there are, exactly as many new packets go out as are unsent and as both windows have room for |
| SenderModel.SubmitOk | udt/src/core.cpp:1015-1120 | Handing over data keeps the window invariant |
| SenderModel.TakeLostOk | udt/src/core.cpp:2272-2274 | The number taken off the loss list is the least one, was sent and unreleased at that moment, and is the only thing that changes |
| SenderModel.TimeoutOk | udt/src/core.cpp:2612-2623 | A timeout keeps the invariant |
| SenderModel.TimeoutExact | udt/src/core.cpp:2612-2623 | With no loss pending exactly the outstanding packets become lost; pending losses stay as they are; nothing else changes |
| ReceiverModel.NextAckIsFirstGap | udt/src/core.cpp:1738-1743 | The position an ACK carries is the first one not received: all below it are held, it is not, and it lies inside the ring |
| ReceiverModel.AcceptsWhen | udt/src/core.cpp:2405-2410 | A packet is accepted exactly when it is new or one of the lost ones and the ring has room for it |
| ReceiverModel.ArriveOk | udt/src/core.cpp:2405-2441 | An arrival keeps the partition of the positions up to the greatest received into lost and held, never moves the first gap back, and leaves the readable bytes alone |
| ReceiverModel.ArriveExact | udt/src/core.cpp:2405-2441 | An accepted packet is held under its position, leaves the loss set, and makes exactly the positions skipped before it lost; a refused one changes nothing |
| ReceiverModel.ReportExact | udt/src/core.cpp:2414-2425 | A report goes out if and only if the arrival makes some position newly lost, and it covers exactly the newly lost ones |
| ReceiverModel.SendAckOk | udt/src/core.cpp:1754-1826 | A full ACK appends exactly the packets up to the first gap to what is readable, covers only filled slots, goes out exactly when its wrapped number comes after the confirmed one and it is new or due again, and advertises the free slots or 2 |
| ReceiverModel.SendAckExact | udt/src/core.cpp:1754-1826 | All packets before the first gap become readable unless its number is the confirmed one; an ACK that goes out takes the next acknowledgement number, under which its position is remembered; nothing else changes |
| ReceiverModel.LiteAckExact | udt/src/core.cpp:1738-1754 | A lite ACK carries the first position not received, and goes out unless that number is the confirmed one |
| ReceiverModel.OnAck2Ok | udt/src/core.cpp:2077-2101 | An ACK2 keeps the receiver consistent and never moves the confirmed position back |
| ReceiverModel.OnAck2Exact | udt/src/core.cpp:2077-2101 | An ACK2 moves the confirmed position to the one its acknowledgement carried, unless it is late or that number does not come after the confirmed one, and drops exactly the records up to it; an unknown one changes nothing |
| ReceiverModel.ReadBytesOk | udt/src/core.cpp:1124-1215 | A read takes the first readable bytes, as many as asked for and available, and nothing else |
| Sender.Sender.Send | udt/src/core.cpp:1015-1120 | The sending object takes the step of the model: the data joins the buffer as packets |
| Sender.Sender.TakeLostSeq | udt/src/core.cpp:2272-2274 | First half of a retransmission: the least lost number leaves the list |
| Sender.Sender.LookUpLost | udt/src/core.cpp:2275-2302 | Second half, under the ACK lock: the payload at that number, or nothing if it was released in between |
| Sender.Sender.PackNew | udt/src/core.cpp:2307-2340 | A packet never sent before, exactly when both windows allow it |
| Sender.Sender.OnLiteAck | udt/src/core.cpp:1956-1966 | Window and left edge after a lite ACK, in wrapping sequence numbers |
| Sender.Sender.OnAck | udt/src/core.cpp:1969-2024 | Window, edges, buffer and loss list after a full ACK, or a broken connection |
| Sender.Sender.OnNak | udt/src/core.cpp:2103-2151 | Words that decode to the numbers of some ranges have the effect of those ranges, at any wrap position |
| Sender.Sender.OnTimeout | udt/src/core.cpp:2612-2623 | Everything unacknowledged goes on the loss list unless losses are pending |
| Receiver.Receiver.OnData | udt/src/core.cpp:2381-2444 | The receiving object takes the model's step on an arrival and emits the report for the gap found |
| Receiver.Receiver.MakeLiteAck | udt/src/core.cpp:1738-1754 | The lite ACK it would send, in every state |
| Receiver.Receiver.MakeAck | udt/src/core.cpp:1754-1826 | The full ACK it sends, with its window, and what becomes readable, in every state: also when the confirmed number lags so far that the code sends none |
| Receiver.Receiver.OnAck2 | udt/src/core.cpp:2077-2101 | The confirmed position after an ACK2, however far it lags |
| Receiver.Receiver.Recv | udt/src/core.cpp:1124-1215 | The bytes read |
| Receiver.WrapTake | udt/src/window.cpp:83-143 | The ACK history works the same on wrapped acknowledgement numbers as on unwrapped ones |
| SeqNo.SeqCmpIsOrder | udt/src/common.h:222-223 | Within the threshold the comparison of two wrapped numbers is the order of the positions, across the wrap |
| SeqNo.SeqCmpAtThreshold | udt/src/common.h:222-223 | At the threshold and up to two steps beyond it the comparison gives the true sign exactly if a wrap lies in between, and the opposite one otherwise |
| SeqNo.SeqCmpExactly | udt/src/common.h:222-223 | The exact condition: less than one circle apart, the later number is taken for the later one exactly inside the threshold, and up to two steps beyond it when a wrap lies in between |
| SeqNo.CurrActs | udt/src/core.cpp:614-614 | The number before the initial one may be -1: successor and comparison act as for the number before 0, and the difference leaves 32 bits exactly against 0x7FFFFFFF |
| SeqNo.IncByWraps | udt/src/common.h:245-246 | Incrementing by any amount is addition modulo 2^31 |
| SeqNo.SeqCmpNotTransitive | udt/src/common.h:222-223 | So it is no order on all sequence numbers: three of them go round in a circle |
| SeqNo.SeqOffIsDistance | udt/src/common.h:228-237 | The offset of two numbers closer than the threshold is their distance |
| SeqNo.SeqLenCounts | udt/src/common.h:225-226 | The length counts the positions of a range, ends included |
| SeqNo.SeqLenIsOffPlusOne | udt/src/common.h:225-237 | The length is the offset plus one |
| SeqNo.IncByOffset | udt/src/common.h:239-246 | Going forward by the offset of two numbers leads from the first to the second |
| SeqNo.DecInvertsInc | udt/src/common.h:239-243 | Decrement and increment undo each other, at the wrap too |
| SeqNo.NoInt32Overflow | udt/src/common.h:222-246 | No intermediate value of the comparison, the offset and the increments leaves 32 bits; that of the length does exactly on a full circle |
| SndLossList.SndLossList.constructor | udt/src/list.cpp:43-70 | An empty list; every slot free |
| SndLossList.SndLossList.Insert | udt/src/list.cpp:85-255 | For a range that fits the array: the set gains exactly the range, and the result is the number of new members; all links, slots and the last-insert hint stay consistent |
| SndLossList.SndLossList.Remove | udt/src/list.cpp:257-367 | All members up to and including the number go, no other does |
| SndLossList.SndLossList.GetLostSeq | udt/src/list.cpp:376-418 | The least member leaves the set and is returned; -1 exactly when there is none |
| SndLossList.SndLossList.GetLossLength | udt/src/list.cpp:369-374 | The counter is the number of members |
| RcvLossList.RcvLossList.Insert | udt/src/list.cpp:453-499 | For a range above all members: the set gains exactly the range |
| RcvLossList.RcvLossList.Remove | udt/src/list.cpp:501-629 | True exactly when the number was a member, which then leaves alone; next and prior stay inverse, head and tail right, in all of the start, end, interior and single-number cases |
| RcvLossList.RcvLossList.RemoveRange | udt/src/list.cpp:631-647 | Exactly the range leaves; when the range wraps, 0x7FFFFFFF stays |
| RcvLossList.GreatestStays | udt/src/list.cpp:638-643 | An instance: of three lost numbers around the wrap, removed as a range, 0x7FFFFFFF stays |
| RcvLossList.LoopEndsExactly | udt/src/list.cpp:633-637 | The counting loop ends, after as many rounds as there are numbers, except on a range that ends with 0x7FFFFFFF, where it never does, supposing that the counter wraps, which C++ leaves undefined |
| RcvLossList.RcvLossList.Find | udt/src/list.cpp:649-667 | True exactly when some member lies in the range |
| RcvLossList.RcvLossList.GetLossLength | udt/src/list.cpp:669-672 | The counter is the number of members |
| RcvLossList.RcvLossList.GetFirstLostSeq | udt/src/list.cpp:674-680 | The least member, -1 when there is none |
| RcvLossList.RcvLossList.GetLossArray | udt/src/list.cpp:682-703 | The words are the encoding of the leading ranges, of all of them unless the limit was reached, and of no more than it takes to reach it |
| LossExchange.ReportLosses | udt/src/core.cpp:1860-1880 | A report from end to end: written from the receiver's list and decoded by the sender, it puts on the sender's list exactly the receiver's lost numbers that are not acknowledged, if the packet has room, and otherwise exactly those of the leading ranges that found room, which fill the packet but for one word |
| LossReport.DecodeEncode | udt/src/list.cpp:682-703 | Decoding the words of a report, as the sender does, gives back the numbers of its ranges, in order, for lists of any length and wrap position |
| LossReport.EntryAt | udt/src/list.cpp:688-702 | Where every entry of a report stands: a single number takes one word, a range two, the first with the top bit set |
| LossNodes.StoredInsert | udt/src/list.cpp:85-255 | A node linked in between its neighbours leaves every other node in its own slot and the chain complete |
| LossNodes.StoredMerge | udt/src/list.cpp:217-252 | A node that swallows its successor leaves the chain and the free slots right |
| LossNodes.StoredSplit | udt/src/list.cpp:598-622 | Splitting a node puts the second half in the slot its sequence number forces, which is free |
| LossNodes.LinkedSplit | udt/src/list.cpp:598-622 | Splitting keeps next and prior inverse |
| LossNodes.TotalIsSize | udt/src/list.cpp:369-374 | The lengths of the ranges add up to the number of members |
| LossNodes.MembersMerge | udt/src/list.cpp:217-252 | Merging overlapping or adjacent ranges is union |
| Ring.LocInjective | udt/src/list.cpp:130-160 | Positions less than the array size apart have different slots, so a number can be looked up by its offset from the head |
| SndBuffer.SndBuffer.AddBuffer | udt/src/buffer.cpp:120-164 | The chain gains exactly the data, cut into packets of at most the payload size |
| SndBuffer.SndBuffer.Increase | udt/src/buffer.cpp:285-342 | Fresh blocks are spliced in without moving, losing or overwriting anything unacknowledged |
| SndBuffer.SndBuffer.ReadData | udt/src/buffer.cpp:217-230 | The next unsent packet, each exactly once |
| SndBuffer.SndBuffer.ReadDataAt | udt/src/buffer.cpp:232-266 | The packet at an offset from the first unacknowledged one |
| SndBuffer.SndBuffer.AckData | udt/src/buffer.cpp:268-278 | Exactly the first packets go |
| SndBuffer.FlatChunks | udt/src/buffer.cpp:120-164 | The packets of some data concatenate to the data |
| SndBuffer.ChunkAt | udt/src/buffer.cpp:137-155 | Packet i is the bytes from i times the payload size on: all but the last are full |
| SndBuffer.ChunksCounted | udt/src/buffer.cpp:122-124 | There are as many packets as the code counts, rounding up |
| RcvBuffer.RcvBuffer.AddData | udt/src/buffer.cpp:374-389 | The packet is stored at its slot unless the slot is taken |
| RcvBuffer.RcvBuffer.AckData | udt/src/buffer.cpp:467-475 | The packets behind the last acknowledged one become readable |
| RcvBuffer.RcvBuffer.ReadBuffer | udt/src/buffer.cpp:391-426 | Copies and frees exactly what the model of a read takes |
| RcvBuffer.ReadIsTake | udt/src/buffer.cpp:391-426 | A read of any length takes exactly the first bytes of the readable stream, as many as asked for and available, and touches nothing behind; the notch stays inside the first packet |
| RcvBuffer.AddKeepsReadable | udt/src/buffer.cpp:374-389 | An arrival never touches unread data and is refused exactly when its slot is taken |
| RcvBuffer.AcknowledgeAppends | udt/src/buffer.cpp:467-475 | Acknowledging appends the packets' bytes in order |
| RcvBuffer.RcvBuffer.GetAvailBufSize | udt/src/buffer.cpp:477-481 | The free slots, one kept empty |
| RcvBuffer.RcvBuffer.GetRcvDataSize | udt/src/buffer.cpp:483-489 | The readable packets, across the end of the ring |
| AckWindow.AckWindow.StoreAck | udt/src/window.cpp:70-81 | The history gains an entry, losing the oldest when full |
| AckWindow.AckWindow.AcknowledgeAck | udt/src/window.cpp:83-143 | The oldest matching entry and all before it leave, in the straight and the wrapped case |
| AckWindow.Remembered | udt/src/window.cpp:70-143 | After any run of stores, of different numbers, acknowledging one of the last ones, as many as the window has room for, gives the position stored with it, and acknowledging an older one gives nothing |
| AckWindow.TakeRecordSpec | udt/src/window.cpp:83-143 | What is reported was stored under that number, and exactly the later entries remain |
| SendSchedule.SndUList.InsertNode | udt/src/queue.cpp:355-401 | The new heap is the insertion of the entry; positions and back-pointers agree, also off the heap |
| SendSchedule.SndUList.Insert | udt/src/queue.cpp:255-280 | The same, growing the array when it is full |
| SendSchedule.SndUList.RemoveNode | udt/src/queue.cpp:403-437 | The new heap is the removal of the entry at the node's slot; the node forgets its slot |
| SendSchedule.SndUList.Pop | udt/src/queue.cpp:306-336 | The first due socket leaves, and comes back with its next time if it sent |
| SendSchedule.SndUList.Update | udt/src/queue.cpp:282-304 | A socket becomes due at once, unless it is scheduled and need not move; the new heap is the value of the update in each of the four cases |
| SendSchedule.SndUList.GetNextProcTime | udt/src/queue.cpp:345-353 | In an ordered heap, the least time of all sockets |
| SendSchedule.InsertedKeeps | udt/src/queue.cpp:355-401 | An insertion changes the entries by exactly one |
| SendSchedule.RemovedKeeps | udt/src/queue.cpp:403-437 | A removal changes the entries by exactly one, the one named |
| SendSchedule.InsertedOrders | udt/src/queue.cpp:355-401 | An insertion keeps the heap order |
| SendSchedule.RemovedOrders | udt/src/queue.cpp:403-437 | A removal keeps the heap order exactly when it takes the root or the last entry, or the last entry is not due before the parent of the vacated place: the code only sifts down |
| SendSchedule.InteriorRemovalBreaksOrder | udt/src/queue.cpp:403-437 | A heap and an interior removal that breaks its order |
| SendSchedule.RescheduledOrders | udt/src/queue.cpp:282-304 | Moving an interior socket to the front keeps the heap order exactly when its removal does, or when the vacated place hangs beside the way up from the last slot and the entry that took it is due no earlier than its grandparent |
| SendSchedule.OrderlyExactly | udt/src/queue.cpp:255-336 | For every operation on an ordered schedule (insertion, pop, removal, update) the exact condition for the result to be ordered |
| SendSchedule.AppliedExactly | udt/src/queue.cpp:255-336 | What each operation does to the entries: a pop takes one due first if its time has come, which returns with its next time exactly if it sent and has one; an update leaves the socket due at 1, or as it was; a removal takes exactly the entry named |
| SendSchedule.FullSchedule | udt/src/queue.cpp:229-304 | For every size of the heap, and so for its 4096, a full schedule beside a socket that an update has no slot for |
| SendSchedule.PopRunsKeepOrder | udt/src/queue.cpp:306-401 | Insertions at any time and pops keep the root the one due first, with no condition |
| SendSchedule.UsualRunsOrderly | udt/src/queue.cpp:255-336 | Runs of insertions, pops and updates of sockets that are unscheduled, first, or left where they are always meet that condition |
| SendSchedule.RunsKeepOrder | udt/src/queue.cpp:255-437 | However sockets are inserted, popped, removed and updated, the root is the one due first as long as operations on interior entries meet the condition |
| RcvSchedule.RcvUList.Insert | udt/src/queue.cpp:582-601 | The list gains the socket at its end, sorted by time |
| RcvSchedule.RcvUList.Remove | udt/src/queue.cpp:603-632 | Exactly the socket leaves; the links of the others stay right at both ends |
| RcvSchedule.RcvUList.Update | udt/src/queue.cpp:634-662 | The socket moves to the end with the present time |
| RcvSchedule.RcvUList.Sweep | udt/src/queue.cpp:1061-1087 | Exactly the sockets silent since the given time are handled, each once and in order; the connected ones end up behind the rest, the others off the list, nobody older remains, and the loop ends |
| Md5.State.Append | udt/src/md5.cpp:322-357 | For pieces of any size the state is the fold of the block function over the full blocks so far, the buffer the rest, and the two count words the bit count modulo 2^64 |
| Md5.State.Finish | udt/src/md5.cpp:360-381 | The digest is the fold over the message padded as in sections 3.1 and 3.2 of RFC 1321 |
| Md5.Compute | udt/src/md5.cpp:322-381 | However a message is split into appends, the digest is that of the message |
| Md5.BlocksResume | udt/src/md5.cpp:334-357 | Folding may be interrupted anywhere: the rest of the first part goes in front of the second |
| Md5.CountGrows | udt/src/md5.cpp:333-336 | The carry between the two count words is right for every number of bytes |
| Md5.CountOffset | udt/src/md5.cpp:327-327 | The low count word gives the fill of the buffer |
| Md5.ZerosFit | udt/src/md5.cpp:375-376 | The padding is the least that leaves 8 bytes in the last block |
| Md5.PaddedIsWhole | udt/src/md5.cpp:374-378 | Nothing of a padded message is left over |
| Md5.PaddedExactly | udt/src/md5.cpp:362-378 | Byte for byte: the message, 0x80, zeros, and the two words of the bit length, low one first, in whole blocks, with the fewest zeros |
| Md5.DigestOfStart | udt/src/md5.cpp:312-381 | The chaining value starts from the bytes 01 23 45 67 89 ab cd ef fe dc ba 98 76 54 32 10, and the digest is its four words in that order |
| Md5.LengthBytes | udt/src/md5.cpp:371-373 | The eight length bytes are the two count words, low byte first |
| Lockstep.TransferCorrect | UFT/UFTSession.hpp:797-1182 | For every source, every copy found, every chunk size, either direction and any number of broken attempts, as long as writes succeed: a run that ends leaves, chunk by chunk, the old bytes where size and hash agree and the source's elsewhere; the copy has the source's length, equals it exactly when no equal-sized unequal chunks have equal hashes, and exactly the differing chunks have landed, each once, in order |
| Lockstep.TransferExactly | UFT/UFTSession.hpp:797-1182 | The same in bytes, by offset: a copy longer than the source counts as empty; a chunk, of the chunk size and at a multiple of it, has landed if and only if it differs from the copy's in size or hash, each once and in order; and the copy is the source exactly if every chunk that did not travel has the source's bytes |
| Lockstep.StepKeeps | UFT/UFTSession.hpp:888-944 | Every step of either side and every restart keeps the two in lockstep and the work landed plus the work left equal to the whole |
| Lockstep.NeverStuck | UFT/UFTSession.hpp:1098-1156 | As long as writes succeed, in every reachable state neither side has been sent what it does not expect, and unless both are done one of them can go on |
| Lockstep.AttemptEnds | UFT/UFTSession.hpp:824-1182 | An attempt that is not interrupted ends within a bound on its steps, complete |
| Faults.CopyExactly | UFT/UFTSession.hpp:1010-1024 | With restarts and failing writes: whenever the receiver reports success, the copy is the merged file if every write of the attempt succeeded, the part of the source before the first failed write in the loop over the whole file, and otherwise one that lacks the source's last chunk; it is the source if and only if no write of the attempt failed and no chunk deceives |
| Faults.StuckExactly | UFT/UFTSession.hpp:1228-1232 | The pair gets stuck if and only if a write was refused, the sender has stopped for it and the receiver has come to rest; and then the receiver waits for ever exactly if the refused chunk was not the source's last |
| Faults.RefusedStops | UFT/UFTSession.hpp:1228-1232 | After a refusal at most three steps are left, unless the attempt is broken off |
| Faults.DoKeeps | UFT/UFTSession.hpp:1022-1182 | Whatever happens, an attempt is sound, or deluded about a file cut off at a known offset, or parted over a refused chunk |
| Faults.WrongCopyReached | UFT/UFTSession.hpp:1010-1024 | A run in which both sides report success and the copy is empty |
| Faults.StuckReached | UFT/UFTSession.hpp:1088-1122 | A run after which the receiver waits for ever |
| Lockstep.NothingTwice | UFT/UFTSession.hpp:916-973 | However many restarts led to a state, no chunk has landed twice and none under way has landed already: a resumed transfer resends no landed chunk |
| Lockstep.SentIsLanded | UFT/UFTSession.hpp:1184-1235 | Chunks sent exceed chunks landed by at most the one under way and one per restart |
| Lockstep.SendingKeeps | UFT/UFTSession.hpp:797-977 | Every step of the sending side meets the state the receiving side is in |
| Lockstep.ReceivingKeeps | UFT/UFTSession.hpp:979-1182 | Every step of the receiving side meets the state the sending side is in |
| Lockstep.MergeIsSource | UFT/UFTSession.hpp:909-944 | The merged file is the source exactly when no hash deceives |
| Lockstep.NeededExactly | UFT/UFTSession.hpp:909-944 | The chunks that differ are exactly those at the multiples of the chunk size whose size or hash differs, and a hash deceives exactly where another one has not the same bytes |
| Lockstep.ChunkUnderWay | UFT/UFTSession.hpp:1022-1050 | A receiver waiting for a chunk is sent the one at its own offset, and only one that differs |
| Sync.Landing | UFT/UFTSession.hpp:1071-1093 | Landing a chunk takes exactly its offset off the work left and does not change the file the transfer amounts to |
| Transfer.SessionsMeet | UFT/UFTSession.hpp:649-1182 | For every source, copy, direction and chunk size there are two message streams on which the loops of the two sides answer each other exactly and finish with the merged file, the chunks in them being exactly the differing ones |
| Transfer.SidesPlay | UFT/UFTSession.hpp:797-1182 | Every run of the pair is what the two sides' loops do on the messages they read |
| Transfer.ChannelsCarry | UFT/UFTSession.hpp:1413-1432 | Each side reads, in order, what the other says |
| Session.Session.SendFileChunks | UFT/UFTSession.hpp:797-977 | The loops of the sending side, packet for packet, for any peer: what is sent, what is read, and which error is returned |
| Session.Session.ReceiveFileChunks | UFT/UFTSession.hpp:979-1182 | The loops of the receiving side, with the file they leave, for any peer and whatever the writes do |
| Session.RefusedExactly | UFT/UFTSession.hpp:1207-1235 | With any peer, sending fails with the remote error exactly if the last packet read was a negative answer to a chunk, the last thing said |
| Session.SendHeeds | UFT/UFTSession.hpp:797-977 | Which packet a sender breaks off on, for every state, saying nothing more |
| Session.RecvHeeds | UFT/UFTSession.hpp:979-1182 | Which packet a receiver breaks off on, for every state, leaving the copy as it is |
| Session.Session.TransmitFile | UFT/UFTSession.hpp:649-741 | The client's half: announcement, answer, loops; a missing source is reported and nothing is sent |
| Session.Session.Serve | UFT/UFTSession.hpp:743-795 | The server's half, the announcement naming the direction; asked for a file it does not have it says nothing and disconnects |
| Session.Session.SendFileChunk | UFT/UFTSession.hpp:1184-1235 | A chunk, its answer, and the code of each kind of answer |
| Session.Session.ReceiveFileChunk | UFT/UFTSession.hpp:1238-1288 | A chunk, written where it says, and its answer: in the loop over the whole file positive in any case, and after a failed write nothing more is written; in the others the stream is cleared first and a failed write is reported |
| Messages.Pack | UFT/UFTSession.hpp:688-1310 | Announcement, hash, chunk and answer as framed packets, in the capacity computed for each |
| Messages.Unpack | UFT/UFTSession.hpp:716-1342 | And read back from their payloads: every message whose numbers fit their bytes is read as itself |
| Messages.Layout | UFT/UFTSession.hpp:688-1310 | Where every part of every message stands in its payload |
| Messages.Converse | UFT/UFTSession.hpp:1184-1342 | What one session says the other hears, message for message, whatever pieces the sockets move, or a connection goes down; all of it, if both are allowed enough calls that move something |
| ByteBuffer.SendFileList | UFT/UFTSession.hpp:508-562 | For any listing the capacity computed beforehand fits exactly, so that no write fails, and the packet is the framed encoding of the listing |
| ByteBuffer.ParseFileList | UFT/UFTSession.hpp:597-643 | A payload is read as exactly the listing it begins with, as the remote error exactly if it says no, and as malformed exactly otherwise |
| ByteBuffer.EncodedLists | UFT/UFTSession.hpp:536-552 | What the sender of a listing writes is read back as that listing, for paths of up to 255 bytes |
| FileListing.AskAndAnswer | UFT/UFTSession.hpp:508-646 | One side asks for a directory, the other reads and answers, the first reads the answer: unless a connection goes down it learns exactly the directory's listing, or that there is none; and no connection goes down if both are allowed enough calls that move something |
| FileListing.AwaitAnswer | UFT/UFTSession.hpp:585-646 | Exactly the answer packet is taken off the stream, and what it lists is returned; a wrong packet is an error; with enough calls it does not fail |
| FileListing.HandleRequest | UFT/UFTSession.hpp:1349-1371 | A request is answered with the listing of exactly the path it names; a cut-off one is refused unanswered |
| FileListing.SendRequest | UFT/UFTSession.hpp:566-583 | The request goes out whole exactly if the coming calls allow that many bytes; otherwise the connection is down |
| FileListing.RequestAsks | UFT/UFTSession.hpp:568-576 | The request asks for the path exactly if it is shorter than 256 bytes, and for a prefix of it otherwise, since the length is cut to one byte |
| ByteBuffer.ListLayout | UFT/UFTSession.hpp:536-552 | A listing: one byte for success, four that count the entries, and every entry in its place |
| ByteBuffer.EntryLayout | UFT/UFTSession.hpp:545-551 | Where the parts of an entry stand: one byte for the length of the path, the path, eight bytes of size, four of time |
| ByteBuffer.FrameLayout | UFT/UFTSession.hpp:1434-1502 | A packet: the operation code, eight bytes of payload size, the payload |
| ByteBuffer.CapacityExact | UFT/UFTSession.hpp:521-533 | The capacity added up entry by entry is the length of the encoding |
| ByteBuffer.FrameSplits | UFT/UFTSession.hpp:1434-1502 | A packet at the front of a stream can be cut off in one way only |
| ByteBuffer.FramesSplit | UFT/UFTSession.hpp:1434-1502 | Two streams of as many packets that agree byte for byte agree packet for packet |
| ByteBuffer.BigEndianAt | UFT/ByteBuffer.hpp:158-174 | Network order: byte i of a number is its quotient by 256 to the number of bytes behind it, modulo 256 |
| ByteBuffer.NumberRoundTrip | UFT/ByteBuffer.hpp:114-130 | A number read back from its bytes in network order is the number |
| ByteBuffer.BytesRoundTrip | UFT/ByteBuffer.hpp:158-174 | And bytes written back from the number they make are the bytes |
| ByteBuffer.Buffer.Write | UFT/ByteBuffer.hpp:175-196 | Appends at the cursor, or changes nothing if there is no room |
| ByteBuffer.Buffer.Read | UFT/ByteBuffer.hpp:131-150 | Takes bytes at the cursor, or nothing if there are too few |
| Socket.Socket.SendAll | UFT/UFTSocket.hpp:87-109 | All bytes go out in order exactly if the calls together allow as many; otherwise as many as they do, and the connection is down |
| Socket.Socket.ReceiveAll | UFT/UFTSocket.hpp:113-135 | Exactly the next bytes of the stream come in, as many as asked for, as there are, and as the calls together allow; 0 exactly if that is too few |
| Socket.Socket.TryReceiveAll | UFT/UFTSocket.hpp:137-173 | -1, with nothing consumed, exactly if the connection is up and the first call blocks: it is told to, allows nothing, or nothing is there; 0 if the connection was down at the start; otherwise as with waiting |
| Socket.Socket.ReadNextPacket | UFT/UFTSession.hpp:1434-1502 | Exactly the packet at the front of the stream, which then starts behind it; it is found if there are enough calls that move something; without waiting, blocked exactly if the first call would block; lost if the connection was down; refused only for an unknown operation code |
| Socket.Socket.ReadPackets | UFT/UFTSession.hpp:1413-1502 | Of a stream of packets, cut off anywhere and delivered in any pieces, n reads give the first n packets, each once and in order, or the connection is down; all n, if there are as many and calls enough |
| Socket.Carry | UFT/UFTSession.hpp:1413-1502 | What one end sends the other reads: n packets in n reads, or an end is down; everything, if both are allowed enough calls that move something |
| BitConverter.StoredFlipped64 | UFT/BitConverter.hpp:81-99 | A 64-bit number flipped and stored by a little-endian host is its eight bytes in network order, and bytes in network order, loaded and flipped, are the number |
| BitConverter.StoredFlipped32 | UFT/BitConverter.hpp:66-80 | The same for 32 bits |
| BitConverter.FlipTwice | UFT/BitConverter.hpp:53-99 | The conversion to network order undoes itself at every width |
| BitConverter.Flip64 | UFT/BitConverter.hpp:81-99 | Each byte of a 64-bit value goes to the mirrored place |
| BitConverter.Flip32 | UFT/BitConverter.hpp:66-80 | Each byte of a 32-bit value goes to the mirrored place |
| BitConverter.Flip16 | UFT/BitConverter.hpp:53-65 | The two bytes change places |

## Left out

- Transport.StreamSafety: positions are unbounded here; Connection and Network carry it over to the 31-bit numbers of the code for packets that arrive within 2^28 steps. What an older packet does, whose number may mean another position by then, is not covered.
- Connection.RecentIsTold: that arriving packets are no older than that is an assumption on the network the code makes too.
- Network.Play: a packet, or a number taken off the loss list, that is older than 2^28 steps is not delivered or looked up; timers, pacing and scheduling are the choice of the calls.
- RcvLossList.RcvLossList.RemoveRange: requires seqno2 other than 0x7FFFFFFF, where the loop of the code does not end.
- Sender.Sender.OnAck: requires the acknowledgement to be closer to the endpoint's own numbers than the comparison threshold, as RecentIsTold provides.
- Sender.Sender.OnLiteAck: the same.
- Receiver.Receiver.OnData: the same for arriving packets.
- Receiver.Receiver.OnAck2: the same for acknowledgement numbers; the wrap of the acknowledgement counter is modelled, its reuse after a full cycle is not.
- Sender.Sender.OnNak: the words are complete entries that name ranges with comparable ends; for a report that ends in the middle of a pair the code reads past its end, which is not modelled.
- DeadEnd.NoDeadEnd: says that progress is possible, not that a given network and scheduler make it; timers and the congestion window are free choices of the steps.
- SendSchedule.SndUList.Pop: what packData returns is an argument.
- RcvSchedule.RcvUList.Sweep: whether a socket is still connected is a field that the timer check itself does not change.
- Session.Session.ReceiveFileChunks: opening the file never fails (where it does, the code returns without disconnecting and the other side waits), and decompressing a compressed chunk gives back the chunk; zlib, the paths and the progress callbacks are not part of this model.
- Lockstep.TransferCorrect: a chunk is written whole or not at all when an attempt breaks off or a write fails, and sizes and offsets are unbounded rather than 64-bit.
- Md5.State.Append: byte counts are unbounded; in the code `nbytes << 3` is defined only below 2^28 bytes a call. The block function is a parameter.
- SendSchedule.SndUList.Update: requires a free slot for a socket not yet scheduled; without one the code writes behind the array.
- FileListing.AskAndAnswer: the directory is a map from paths to listings; reading it from the file system is not part of this model.
- Socket.Socket.ReadNextPacket: payload sizes are not cut to 32 bits, as `ReceiveAll` would do from 4 GiB on.
- Messages.Converse: carries one side's messages as a whole; that the loops over sockets interleave as they do over channels is not stated.
- The chunk hash (FNV-1a) is a parameter: nothing about its strength is used, and the results say what a collision does.
- Datagram mode, message numbers and boundaries, time-to-live and message drop requests: UFT opens stream sockets only.
- addBufferFromFile and readBufferToFile: file variants of addBuffer and readBuffer; addBufferFromFile counts blocks it has not filled when the file ends early (udt/src/buffer.cpp:178-208).
- Memory of blocks and units: a block's data area is its own payload, a unit a fresh packet; the fixed area they share is not modelled.
- Round-trip times, packet pair probes, rate control, the handshake, keep-alive, shutdown and the socket registry: they do not touch the data path; the congestion window is an arbitrary input.
- Locks and threads: each protocol step is atomic, except that taking a lost number and looking it up are two steps, as in packData, where the ACK lock covers only the second.
- The cache of peer properties, the hash table of sockets and the unit queue: resource plumbing around tables.
