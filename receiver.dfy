/** Entity B, the receiving side (sr.c:156-215). The receive buffer is
    indexed by sequence number: a packet with sequence number s lives in
    slot s, and received[s] says whether that slot holds an undelivered
    packet. */
module ReceiverB {
  import opened Packets

  /** The sequence number k places after `e` on the ring, for 0 <= k <= SEQSPACE.
      The source computes it as (e + k) % SEQSPACE. */
  function Ahead(e: int, k: int): int
  {
    if e + k < SEQSPACE then e + k else e + k - SEQSPACE
  }

  /** How many places sequence number j lies after `e`, going forward. */
  function Distance(e: int, j: int): int
  {
    if e <= j then j - e else j - e + SEQSPACE
  }

  lemma AheadIsMod(e: int, k: int)
    requires 0 <= e < SEQSPACE && 0 <= k <= SEQSPACE
    ensures Ahead(e, k) == (e + k) % SEQSPACE
  {
  }

  /** Slot Ahead(e, k) lies at distance k from e, and no other slot does. */
  lemma DistanceOfAhead(e: int, k: int)
    requires 0 <= e < SEQSPACE && 0 <= k < SEQSPACE
    ensures Distance(e, Ahead(e, k)) == k
    ensures forall j :: 0 <= j < SEQSPACE && j != Ahead(e, k) ==> Distance(e, j) != k
  {
  }

  /** The number of consecutive occupied slots starting k places after `e`,
      plus k: the drain loop keeps going from offset k while it finds an
      occupied slot, and it cannot go round the ring more than once because
      every slot it passes is emptied. */
  function RunFrom(received: seq<bool>, e: int, k: int): (n: int)
    requires |received| == SEQSPACE && 0 <= e < SEQSPACE && 0 <= k <= SEQSPACE
    ensures k <= n <= SEQSPACE
    ensures forall j :: k <= j < n ==> received[Ahead(e, j)]
    ensures n == SEQSPACE || !received[Ahead(e, n)]
    decreases SEQSPACE - k
  {
    if k == SEQSPACE || !received[Ahead(e, k)] then k else RunFrom(received, e, k + 1)
  }

  /** How many packets the drain delivers: the length of the run of occupied
      slots that starts at the expected sequence number. */
  function RunLength(received: seq<bool>, e: int): (n: nat)
    requires |received| == SEQSPACE && 0 <= e < SEQSPACE
    ensures n <= SEQSPACE
    ensures forall j :: 0 <= j < n ==> received[Ahead(e, j)]
    ensures n == SEQSPACE || !received[Ahead(e, n)]
  {
    RunFrom(received, e, 0)
  }

  /** Any n that is preceded only by occupied slots and stops at an empty
      one (or at a full turn) is the run length: the drain has one outcome. */
  lemma {:induction false} RunFromUnique(received: seq<bool>, e: int, k: int, n: int)
    requires |received| == SEQSPACE && 0 <= e < SEQSPACE && 0 <= k <= n <= SEQSPACE
    requires forall j :: k <= j < n ==> received[Ahead(e, j)]
    requires n == SEQSPACE || !received[Ahead(e, n)]
    ensures RunFrom(received, e, k) == n
    decreases SEQSPACE - k
  {
    if k < n {
      RunFromUnique(received, e, k + 1, n);
    }
  }

  /** The occupancy flags once the first n slots from `e` have been drained. */
  function Drained(received: seq<bool>, e: int, n: int): seq<bool>
    requires |received| == SEQSPACE
  {
    seq(SEQSPACE, j requires 0 <= j < SEQSPACE => if Distance(e, j) < n then false else received[j])
  }

  /** The tolayer5 calls of a drain of n packets from `e`, in the order made. */
  function Deliveries(buffer: seq<Packet>, e: int, n: int): seq<Call>
    requires |buffer| == SEQSPACE && 0 <= e < SEQSPACE && 0 <= n <= SEQSPACE
  {
    seq(n, j requires 0 <= j < n => ToLayer5(buffer[Ahead(e, j)].payload))
  }

  /** The drain delivers the buffered payloads of consecutive sequence
      numbers modulo SEQSPACE, starting at the expected one. */
  lemma DeliveriesConsecutive(buffer: seq<Packet>, e: int, n: int)
    requires |buffer| == SEQSPACE && 0 <= e < SEQSPACE && 0 <= n <= SEQSPACE
    ensures |Deliveries(buffer, e, n)| == n
    ensures forall j :: 0 <= j < n ==>
      Deliveries(buffer, e, n)[j] == ToLayer5(buffer[(e + j) % SEQSPACE].payload)
  {
    forall j | 0 <= j < n
      ensures Deliveries(buffer, e, n)[j] == ToLayer5(buffer[(e + j) % SEQSPACE].payload)
    {
      AheadIsMod(e, j);
    }
  }

  lemma DrainedNothing(received: seq<bool>, e: int)
    requires |received| == SEQSPACE && 0 <= e < SEQSPACE
    ensures Drained(received, e, 0) == received
  {
  }

  /** Draining one more slot empties exactly that slot, which until then
      still held its original flag. */
  lemma DrainStep(received: seq<bool>, buffer: seq<Packet>, e: int, k: int)
    requires |received| == SEQSPACE && |buffer| == SEQSPACE
    requires 0 <= e < SEQSPACE && 0 <= k < SEQSPACE
    ensures Drained(received, e, k)[Ahead(e, k)] == received[Ahead(e, k)]
    ensures Drained(received, e, k)[Ahead(e, k) := false] == Drained(received, e, k + 1)
    ensures Ahead(e, k + 1) == (Ahead(e, k) + 1) % SEQSPACE
    ensures Deliveries(buffer, e, k) + [ToLayer5(buffer[Ahead(e, k)].payload)]
      == Deliveries(buffer, e, k + 1)
  {
    DistanceOfAhead(e, k);
  }

  /** After a full drain every slot is empty. */
  lemma DrainedAll(received: seq<bool>, e: int)
    requires |received| == SEQSPACE && 0 <= e < SEQSPACE
    ensures forall j :: 0 <= j < SEQSPACE ==> !Drained(received, e, SEQSPACE)[j]
  {
  }

  /** After the drain the slot of the new expected sequence number is empty:
      the loop only stops there. */
  lemma DrainStopsAtEmpty(received: seq<bool>, e: int)
    requires |received| == SEQSPACE && 0 <= e < SEQSPACE
    ensures var n := RunLength(received, e);
      0 <= Ahead(e, n) < SEQSPACE && !Drained(received, e, n)[Ahead(e, n)]
  {
    var n := RunLength(received, e);
    if n < SEQSPACE {
      DistanceOfAhead(e, n);
    }
  }

  /** A packet carrying the expected sequence number, arriving when its slot
      is empty, is delivered at once and before anything else. */
  lemma InOrderDeliveredFirst(received: seq<bool>, buffer: seq<Packet>, e: int, packet: Packet)
    requires |received| == SEQSPACE && |buffer| == SEQSPACE && 0 <= e < SEQSPACE
    requires !received[e] && packet.seqnum == e
    ensures var n := RunLength(received[e := true], e);
      n >= 1 && Deliveries(buffer[e := packet], e, n)[0] == ToLayer5(packet.payload)
  {
  }

  /** A packet with any other sequence number, arriving while the expected
      slot is empty, is only buffered: the drain delivers nothing. There is
      no receive-window check, so this includes a retransmitted copy of a
      packet already delivered; it waits in its slot until the expected
      sequence number comes round to it. */
  lemma OutOfOrderHeld(received: seq<bool>, e: int, s: int)
    requires |received| == SEQSPACE && 0 <= e < SEQSPACE && 0 <= s < SEQSPACE
    requires !received[e] && s != e
    ensures RunLength(received[s := true], e) == 0
  {
  }

  /** The ACK payload loop of B_input: twenty '0' characters. */
  method AckPayload() returns (payload: Payload)
    ensures payload == ACK_FILLER
  {
    var chars := seq(PAYLOAD_SIZE, _ => 0 as Char);
    for i := 0 to PAYLOAD_SIZE
      invariant |chars| == PAYLOAD_SIZE
      invariant forall j :: 0 <= j < i ==> chars[j] == ZERO_DIGIT
    {
      chars := chars[i := ZERO_DIGIT];
    }
    payload := chars;
  }

  /** The static state of entity B and its event handlers. */
  class Receiver {
    /** Buffered packets, at the slot of their sequence number (sr.c:163). */
    const recvBuffer: array<Packet>
    /** Whether a slot holds a packet not yet delivered (sr.c:164). */
    const received: array<bool>
    var expectedseqnum: int
    /** B_nextseqnum: the sequence number of the next ACK, alternating 0 and 1. */
    var nextseqnum: int
    /** The calls made to the emulator: tolayer3 and tolayer5. */
    ghost var calls: seq<Call>

    /** The arrays have SEQSPACE slots and the counters lie in range. */
    ghost predicate Shape()
      reads this
    {
      && recvBuffer.Length == SEQSPACE && received.Length == SEQSPACE
      && 0 <= expectedseqnum < SEQSPACE
    }

    /** The receiver's invariant between events: the slot of the expected
        sequence number is empty (the drain has run as far as it can). */
    ghost predicate Valid()
      reads this, received
    {
      && Shape()
      && 0 <= nextseqnum < 2
      && !received[expectedseqnum]
    }

    /** The static storage of entity B as the program starts: all zero. */
    constructor ()
      ensures Valid() && fresh(recvBuffer) && fresh(received)
      ensures expectedseqnum == 0 && nextseqnum == 0
      ensures forall j :: 0 <= j < SEQSPACE ==> !received[j]
      ensures calls == []
    {
      recvBuffer := new Packet[SEQSPACE](_ => ZERO_PACKET);
      received := new bool[SEQSPACE](_ => false);
      expectedseqnum, nextseqnum := 0, 0;
      calls := [];
    }

    /** B_init: expects sequence number 0, numbers ACKs from 1 and empties
        every slot. The buffered packets themselves are left in place. */
    method Init()
      requires recvBuffer.Length == SEQSPACE && received.Length == SEQSPACE
      modifies this, received
      ensures Valid()
      ensures expectedseqnum == 0 && nextseqnum == 1
      ensures forall j :: 0 <= j < SEQSPACE ==> !received[j]
      ensures calls == old(calls)
    {
      expectedseqnum := 0;
      nextseqnum := 1;
      for i := 0 to SEQSPACE
        invariant forall j :: 0 <= j < i ==> !received[j]
        invariant expectedseqnum == 0 && nextseqnum == 1 && calls == old(calls)
      {
        received[i] := false;
      }
    }

    /** B_input. A corrupted packet leaves the buffer, the flags and the
        expected sequence number alone and is answered with an ACK for the
        last sequence number delivered in order. An intact packet is stored
        only if its slot is empty (the first arrival wins); then the run of
        occupied slots from the expected sequence number is delivered in
        order and emptied, and the packet is acknowledged by its own
        sequence number. Either way exactly one intact ACK is sent, whose
        sequence number alternates between 0 and 1. */
    method Input(packet: Packet)
      requires Valid()
      requires !IsCorrupted(packet) ==> 0 <= packet.seqnum < SEQSPACE
      modifies this, recvBuffer, received
      ensures Valid()
      ensures nextseqnum == (old(nextseqnum) + 1) % 2
      ensures IsCorrupted(packet) ==>
        && expectedseqnum == old(expectedseqnum)
        && received[..] == old(received[..])
        && recvBuffer[..] == old(recvBuffer[..])
        && calls == old(calls) + [ToLayer3(MakePacket(old(nextseqnum),
             (old(expectedseqnum) + SEQSPACE - 1) % SEQSPACE, ACK_FILLER))]
      ensures !IsCorrupted(packet) ==>
        var s := packet.seqnum;
        var buffered := if old(received[s]) then old(recvBuffer[..]) else old(recvBuffer[..])[s := packet];
        var occupied := old(received[..])[s := true];
        var n := RunLength(occupied, old(expectedseqnum));
        && recvBuffer[..] == buffered
        && received[..] == Drained(occupied, old(expectedseqnum), n)
        && expectedseqnum == Ahead(old(expectedseqnum), n)
        && calls == old(calls) + Deliveries(buffered, old(expectedseqnum), n)
             + [ToLayer3(MakePacket(old(nextseqnum), s, ACK_FILLER))]
    {
      var acknum;
      if !IsCorrupted(packet) {
        if !received[packet.seqnum] {
          recvBuffer[packet.seqnum] := packet;
          received[packet.seqnum] := true;
        }
        ghost var e, occupied := expectedseqnum, received[..];
        Drain();
        DrainStopsAtEmpty(occupied, e);
        acknum := packet.seqnum;
      } else {
        acknum := (expectedseqnum + SEQSPACE - 1) % SEQSPACE;
      }
      SendAck(acknum);
    }

    /** The delivery loop of B_input: while the expected slot is occupied,
        its payload is delivered, the slot is emptied and the expected
        sequence number advances by one modulo SEQSPACE. It delivers
        exactly the run of occupied slots from the old expected number. */
    method Drain()
      requires Shape()
      modifies received, this`expectedseqnum, this`calls
      ensures Shape()
      ensures var n := RunLength(old(received[..]), old(expectedseqnum));
        && received[..] == Drained(old(received[..]), old(expectedseqnum), n)
        && expectedseqnum == Ahead(old(expectedseqnum), n)
        && calls == old(calls) + Deliveries(recvBuffer[..], old(expectedseqnum), n)
    {
      ghost var e, r0 := expectedseqnum, received[..];
      ghost var i := 0;
      DrainedNothing(r0, e);
      while received[expectedseqnum]
        invariant 0 <= i <= SEQSPACE
        invariant expectedseqnum == Ahead(e, i)
        invariant received[..] == Drained(r0, e, i)
        invariant forall j :: 0 <= j < i ==> r0[Ahead(e, j)]
        invariant calls == old(calls) + Deliveries(recvBuffer[..], e, i)
        decreases SEQSPACE - i
      {
        if i == SEQSPACE {
          DrainedAll(r0, e);
          assert false;
        }
        DrainStep(r0, recvBuffer[..], e, i);
        calls := calls + [ToLayer5(recvBuffer[expectedseqnum].payload)];
        received[expectedseqnum] := false;
        assert received[..] == Drained(r0, e, i)[Ahead(e, i) := false];
        expectedseqnum := (expectedseqnum + 1) % SEQSPACE;
        i := i + 1;
      }
      if i < SEQSPACE {
        DrainStep(r0, recvBuffer[..], e, i);
      }
      RunFromUnique(r0, e, 0, i);
    }

    /** The ACK of B_input: an intact packet with B_nextseqnum as its
        sequence number, the given acknum and twenty '0' characters, sent to
        the channel; B_nextseqnum then flips between 0 and 1. */
    method SendAck(acknum: int)
      modifies this`nextseqnum, this`calls
      ensures nextseqnum == (old(nextseqnum) + 1) % 2
      ensures calls == old(calls) + [ToLayer3(MakePacket(old(nextseqnum), acknum, ACK_FILLER))]
    {
      var payload := AckPayload();
      var ackpkt := Packet(nextseqnum, acknum, 0, payload);
      nextseqnum := (nextseqnum + 1) % 2;
      var checksum := ComputeChecksum(ackpkt);
      ackpkt := ackpkt.(checksum := checksum);
      calls := calls + [ToLayer3(ackpkt)];
    }
  }
}
