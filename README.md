# Selective-repeat ARQ: sender and receiver of sr.c

This project models the reliability layer of a two-party link simulation.
The layer is `sr.c`, a selective-repeat automatic-repeat-request protocol.
Entity A sends; entity B receives. Each entity is a set of static
variables and event handlers that the network emulator calls.

- `packets.dfy` (module `Packets`) holds the shared constants and the packet
  layout: WINDOWSIZE = 6, SEQSPACE = 7, NOTINUSE = -1 and twenty-character
  payloads. It also holds the additive checksum (`ComputeChecksum`,
  `IsCorrupted`). The checksum code is pure, so it is modelled as functions
  and lemmas. The summing loop is a method proved against them.
- `sender.dfy` (module `SenderA`) holds the class `Sender`. Its fields are
  the ring arrays `buffer` and `acked`, plus `windowfirst`, `windowcount` and
  `A_nextseqnum`. The handlers `A_output`, `A_input`, `A_timerinterrupt`
  and `A_init` are methods that update those fields in place. The ACK
  search and the sliding loop of `A_input` are methods of their own
  (`MarkAcked`, `SlideWindow`), run one after the other by `ApplyAck`; the resend scan of `A_timerinterrupt` is the
  loop of `TimerInterrupt` itself. Every loop carries its invariants. The
  payload copy loop of `A_output` is not a loop here: the message is
  passed as a payload value. Every method is proved
  against pure functions on the window, seen in window order as
  `Outstanding()`. Those functions are `FindAck`, `MarkAck`, `Slide` and
  `FirstUnacked`. The protocol's properties are lemmas about these
  functions under the window invariant `WellFormedWindow`.
- `receiver.dfy` (module `ReceiverB`) holds the class `Receiver`. Its
  fields are `recv_buffer` and `received`, both indexed by sequence number,
  plus `expectedseqnum` and `B_nextseqnum`. The handlers are `B_input`,
  with its delivery loop as `Drain`, and `B_init`. The drain is specified by
  `RunLength`, `Drained` and `Deliveries`.

The emulator calls `tolayer3`, `tolayer5`, `starttimer` and `stoptimer`
are recorded in a ghost log `calls` on each entity, in the order made. The
sender also carries a ghost flag `timerArmed`, which says whether its timer
is running. An expiry consumes the timer, so `TimerInterrupt` starts with
the flag cleared. The C static zero-initialisation of each entity is its
`constructor`. `A_init` and `B_init` are the `Init` methods.

Ring positions are computed in the source as `(x + k) % N`. The model
writes them as `Pos` and `Ahead`, which subtract N once. The lemmas
`PosIsMod` and `AheadIsMod` prove that these equal the source's `%`
expressions wherever the code uses them.

Where the code departs from a textbook selective repeat, the model
follows the code:

- `A_timerinterrupt` resends only the first unacked packet in window
  order and then returns.
- `B_input` has no receive-window check.
- The sender's ring is indexed by window position, not by sequence number.

## Model

| member | source | states |
|---|---|---|
| Packets.ComputeChecksum | sr.c:12-23 | the loop returns seqnum + acknum + the sum of the twenty payload characters, and a packet carrying that value is not corrupted |
| Packets.Checksum | sr.c:12-23 | the checksum ComputeChecksum returns lies within 20 × 128 of seqnum + acknum: the payload's share is bounded |
| Packets.IntactExactlyWhenBuilt | sr.c:25-28 | IsCorrupted is false exactly for packets whose checksum field equals seqnum + acknum + the payload sum, i.e. packets as MakePacket builds them |
| Packets.MakePacket | sr.c:48-52 | a packet whose checksum is computed last over its fields is never corrupted, and carries the given seqnum, acknum and payload |
| Packets.SumUpdate | sr.c:19-20 | replacing one payload character changes the sum by exactly the difference |
| Packets.PayloadTamperDetected | sr.c:25-28 | changing one payload character of an intact packet makes IsCorrupted true |
| Packets.HeaderTamperDetected | sr.c:25-28 | changing the seqnum or the acknum of an intact packet makes IsCorrupted true |
| Packets.SwappedCharsUndetected | sr.c:12-28 | the checksum ignores order: swapping two payload characters of an intact packet is not detected |
| Packets.SumBounds | sr.c:19-20 | a sum of n signed chars lies between -128n and 127n |
| Packets.ChecksumFitsInt32 | sr.c:14-20 | when the header fields lie within ±0x3FFF0000, no value the int accumulator holds overflows: seqnum + acknum, every partial sum of the payload loop, and the final checksum all lie in 32-bit range |
| Packets.SumConstant | sr.c:199-200 | n copies of one character sum to n times it |
| Packets.AckChecksum | sr.c:196-203 | every ACK carries checksum seqnum + acknum + 960, since its payload is twenty '0' characters |
| SenderA.SeqBeforeIsMod | sr.c:66 | the linear ring step used in the window invariant equals the source's modulo SEQSPACE |
| SenderA.FindAck | sr.c:86-101 | the search finds the first slot in window order whose seqnum is acknum, and finds none exactly when no slot has that seqnum |
| SenderA.MarkAckFlags | sr.c:86-99 | the ACK search's effect: the window keeps its length and packets, and a slot's flag is set afterwards iff it was set before or it is the slot FindAck names |
| SenderA.Slide | sr.c:103-108 | sliding drops a prefix of acked slots and stops at an unacked head or an empty window |
| SenderA.FirstUnacked | sr.c:125-139 | the scan finds the first unacked slot in window order, and finds none exactly when every slot is acked |
| SenderA.WindowSeqnumsConsecutive | sr.c:48-66 | outstanding seqnums step by one modulo SEQSPACE, and the newest is A_nextseqnum - 1 modulo SEQSPACE |
| SenderA.WindowSeqnumsDistinct | sr.c:44-66 | since WINDOWSIZE < SEQSPACE, outstanding seqnums are pairwise distinct, so an ACK matches at most one slot |
| SenderA.MarkAckExact | sr.c:86-101 | a valid ACK sets the flag of exactly the outstanding slot whose seqnum it names, and changes nothing else |
| SenderA.SlideUnique | sr.c:104-108 | whatever prefix of acked slots precedes the first unacked one is exactly what sliding retires |
| SenderA.SuffixKeepsWellFormed | sr.c:104-108 | retiring a prefix with the head unacked keeps the window invariant |
| SenderA.AckKeepsWellFormed | sr.c:74-117 | processing a valid ACK keeps the window invariant |
| SenderA.AckWithoutNewSlotIsNoop | sr.c:88-98 | a duplicate ACK, or an ACK for no outstanding packet, leaves the window unchanged |
| SenderA.AckIdempotent | sr.c:86-108 | receiving the same ACK a second time changes nothing |
| SenderA.OutputKeepsWellFormed | sr.c:44-66 | appending the new intact data packet and advancing A_nextseqnum modulo SEQSPACE keeps the window invariant |
| SenderA.TimeoutResendsOldest | sr.c:125-137 | under the window invariant, the packet a timeout resends is the oldest outstanding one |
| SenderA.PosIsMod | sr.c:54 | the linear ring position equals (windowfirst + k) % WINDOWSIZE |
| SenderA.RetireStep | sr.c:105-106 | retiring one more slot clears exactly its flag, and advances the position by one modulo WINDOWSIZE |
| SenderA.RetireWindow | sr.c:104-108 | after clearing the first d flags and advancing windowfirst by d, the ring holds the rest of the window |
| SenderA.RetireFrame | sr.c:104-108 | sliding clears exactly the retired flags and keeps the flags outside the window |
| SenderA.SlideRetired | sr.c:104-108 | retiring a leading run of set flags, up to an unset one, yields Slide of the window |
| SenderA.SlideAfterMark | sr.c:86-108 | marking the ACK and then retiring the leading run of set flags yields Slide(MarkAck(window, acknum)), clears only the retired flags and keeps the flags outside the window |
| SenderA.WindowOfAppend | sr.c:54-57 | writing the slot just past the window appends an unacked packet to the window |
| SenderA.WindowOfMark | sr.c:93 | setting the flag at the i-th window position sets the flag of the i-th slot |
| SenderA.Sender.constructor | sr.c:32-37 | the zeroed static state is valid, with an empty window and the timer stopped |
| SenderA.Sender.Init | sr.c:148-154 | A_init empties the window and resets A_nextseqnum |
| SenderA.Sender.Output | sr.c:39-72 | accepts iff windowcount < WINDOWSIZE; on acceptance it stores the intact packet, unacked, at slot (windowfirst + windowcount) % WINDOWSIZE, grows the window, sends the packet, starts the timer only on the 0-to-1 transition and advances A_nextseqnum; a rejection changes nothing; the invariant is kept |
| SenderA.Sender.Append | sr.c:54-57 | the buffering step stores the packet unacked just past the window and grows the window by one |
| SenderA.Sender.Input | sr.c:74-117 | a corrupted ACK, or any ACK with an empty window, changes nothing; otherwise the window becomes Slide(MarkAck(window, acknum)), the retired flags are cleared, flags outside the window are kept, and the timer is stopped and then restarted iff packets remain |
| SenderA.Sender.ApplyAck | sr.c:86-108 | the search and the slide together turn the window into Slide(MarkAck(window, acknum)), advance windowfirst by the number of retired slots, clear the retired flags and keep the flags outside the window |
| SenderA.Sender.RestartTimer | sr.c:110-112 | the timer is stopped, then started again iff windowcount > 0 |
| SenderA.Sender.MarkAcked | sr.c:86-101 | the search loop turns the window into MarkAck(window, acknum) and touches no flag outside the window |
| SenderA.Sender.SlideWindow | sr.c:104-108 | the loop retires exactly the leading run of acked slots, clearing their flags and advancing windowfirst one position each |
| SenderA.Sender.TimerInterrupt | sr.c:120-143 | resends FirstUnacked of the window and restarts the timer once, or sends nothing and leaves the timer stopped; the window is unchanged; under the invariant it resends buffer[windowfirst] |
| ReceiverB.AheadIsMod | sr.c:185 | the linear ring step equals (expectedseqnum + k) % SEQSPACE |
| ReceiverB.RunFrom | sr.c:182-186 | the drain, continued from offset k, stops at the first empty slot or after a full turn, with every slot it passed occupied |
| ReceiverB.RunLength | sr.c:182-186 | the number of packets delivered is the length of the run of occupied slots starting at expectedseqnum |
| ReceiverB.RunFromUnique | sr.c:182-186 | any stopping point preceded only by occupied slots is the run length, so the drain has a single outcome |
| ReceiverB.DeliveriesConsecutive | sr.c:182-186 | the drain delivers payloads of consecutive seqnums modulo SEQSPACE, starting at expectedseqnum |
| ReceiverB.DrainStep | sr.c:183-185 | one drain step delivers the expected slot's payload, clears that slot and advances expectedseqnum by one modulo SEQSPACE |
| ReceiverB.DrainedAll | sr.c:182-186 | a drain that goes a full turn leaves every slot empty |
| ReceiverB.DrainStopsAtEmpty | sr.c:182 | after the drain, the slot of the new expectedseqnum is empty |
| ReceiverB.InOrderDeliveredFirst | sr.c:176-186 | an in-order packet that arrives at an empty slot is delivered at once, ahead of all others |
| ReceiverB.OutOfOrderHeld | sr.c:176-186 | any other packet, including a stale copy of one already delivered, is only buffered and nothing is delivered |
| ReceiverB.AckPayload | sr.c:199-200 | the fill loop yields twenty '0' characters |
| ReceiverB.Receiver.constructor | sr.c:158-164 | the zeroed static state is valid, with every slot empty |
| ReceiverB.Receiver.Init | sr.c:207-215 | B_init sets expectedseqnum to 0 and B_nextseqnum to 1, and empties every slot |
| ReceiverB.Receiver.Input | sr.c:165-205 | a corrupted packet leaves buffer, flags and expectedseqnum unchanged and is answered with ACK (expectedseqnum + SEQSPACE - 1) % SEQSPACE; an intact packet is stored only if its slot is empty, the run from expectedseqnum is delivered and cleared, and the ACK names its seqnum; exactly one intact ACK with alternating seqnum is sent; the invariant that the expected slot is empty is kept |
| ReceiverB.Receiver.Drain | sr.c:182-186 | the delivery loop delivers, clears and skips exactly RunLength slots from expectedseqnum |
| ReceiverB.Receiver.SendAck | sr.c:196-204 | sends MakePacket(B_nextseqnum, acknum, twenty '0') and flips B_nextseqnum between 0 and 1 |

## Left out

- The emulator (`emulator.h`) is not part of this model: there is no network delay, loss, corruption or event clock. `tolayer3`, `tolayer5`, `starttimer` and `stoptimer` appear only as entries of the ghost `calls` log, and the timer as the ghost `timerArmed` flag.
- `gbn.h` is not part of this model. `struct pkt` is modelled from its use here, with a payload of exactly twenty signed chars. `struct msg` is the same `Payload`, so the copy loop at sr.c:50-51 becomes passing the payload value.
- The `TRACE`-guarded `printf` tracing is left out. It is output only.
- The statistics counters (`window_full`, `total_ACKs_received`, `new_ACKs`, `packets_resent`, `packets_received`) are left out. They are observability globals that no protocol decision reads.
- `RTT` is left out: it is passed unchanged to `starttimer`, and no arithmetic is done on it.
- The `windowlast` global is left out, because it is recomputed before every use (sr.c:54). A_init's `windowlast = -1` is therefore not modelled either.
- `B_output` and `B_timerinterrupt` are left out because they are empty.
- Packets.Checksum: computed on unbounded integers, not on a 32-bit int that wraps. `ChecksumFitsInt32` shows that neither seqnum + acknum, nor any partial sum of the loop, nor the result overflows for header fields within ±0x3FFF0000, and the protocol's own fields are in 0..6 or -1.
- ReceiverB.Receiver.Input: requires an intact packet's seqnum to lie in 0..SEQSPACE-1. The source indexes `received[packet.seqnum]` with no bounds check, which is undefined behaviour for other values.
- SenderA.Sender.Init: requires the timer to be stopped. A_init neither clears `acked[]` nor stops the timer, so it is modelled only as the start-up call.
- SenderA.Sender.TimerInterrupt: does not assume the sender invariant. Its resend is stated for any window, and the invariant is preserved when it held before.
- Exactly-once delivery is not claimed. `B_input` has no receive-window check, although the comment at sr.c:175 says "if within window". A stale retransmission of a delivered packet is therefore buffered (`OutOfOrderHeld`). Because the first arrival wins (sr.c:176-179), the held stale copy also keeps out the new packet that later reuses its seqnum: when expectedseqnum wraps round to it, the application receives the stale payload in place of the new one. The model states this behaviour as written (in `Receiver.Input`'s contract) and does not model a corrected receiver.
- Message bytes are taken to be C chars already, in -128..127, so no conversion of the application's data is modelled.
