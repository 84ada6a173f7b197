/** Entity A, the sending side (sr.c:30-154). The window is a ring of
    WINDOWSIZE slots indexed by window position: the i-th outstanding packet
    lives in slot (windowfirst + i) % WINDOWSIZE, whatever its sequence number. */
module SenderA {
  import opened Packets

  /** One position of the window: the stored packet and its ACK flag. */
  datatype Slot = Slot(pkt: Packet, acked: bool)

  /** The outstanding packets in window order, read off the two ring arrays. */
  function WindowOf(buffer: seq<Packet>, acked: seq<bool>, first: int, count: int): seq<Slot>
    requires |buffer| == WINDOWSIZE && |acked| == WINDOWSIZE
    requires 0 <= first < WINDOWSIZE && 0 <= count <= WINDOWSIZE
  {
    seq(count, k requires 0 <= k < count => Slot(buffer[Pos(first, k)], acked[Pos(first, k)]))
  }

  /** The sequence number `back` places before `next` on the ring, for
      0 <= back <= SEQSPACE: (next - back) % SEQSPACE. */
  function SeqBefore(next: int, back: int): int
  {
    if back <= next then next - back else next - back + SEQSPACE
  }

  lemma SeqBeforeIsMod(next: int, back: int)
    requires 0 <= next < SEQSPACE && 0 <= back <= SEQSPACE
    ensures SeqBefore(next, back) == (next - back) % SEQSPACE
  {
  }

  /** The sender's window invariant: at most WINDOWSIZE outstanding packets,
      all intact data packets, whose sequence numbers are consecutive mod
      SEQSPACE and end just before `next`; and the oldest one is unacked. */
  ghost predicate WellFormedWindow(w: seq<Slot>, next: int)
  {
    && |w| <= WINDOWSIZE
    && 0 <= next < SEQSPACE
    && (forall k :: 0 <= k < |w| ==> w[k].pkt.seqnum == SeqBefore(next, |w| - k))
    && (forall k :: 0 <= k < |w| ==> w[k].pkt.acknum == NOTINUSE && !IsCorrupted(w[k].pkt))
    && (w == [] || !w[0].acked)
  }

  /** The ACK search of A_input: the first outstanding slot, in window
      order, whose packet carries sequence number `acknum`. */
  function FindAck(w: seq<Slot>, acknum: int): (r: Option<nat>)
    ensures r.Some? ==> r.value < |w| && w[r.value].pkt.seqnum == acknum
    ensures r.Some? ==> forall k :: 0 <= k < r.value ==> w[k].pkt.seqnum != acknum
    ensures r.None? <==> forall k :: 0 <= k < |w| ==> w[k].pkt.seqnum != acknum
  {
    if w == [] then None
    else if w[0].pkt.seqnum == acknum then Some(0)
    else match FindAck(w[1..], acknum)
      case Some(i) => Some(i + 1)
      case None => None
  }

  /** The window after A_input has set the ACK flag of the matching slot. */
  function MarkAck(w: seq<Slot>, acknum: int): seq<Slot>
  {
    match FindAck(w, acknum)
    case Some(i) => w[i := Slot(w[i].pkt, true)]
    case None => w
  }

  /** The window after sliding: the leading acknowledged packets are retired. */
  function Slide(w: seq<Slot>): (r: seq<Slot>)
    ensures |r| <= |w| && r == w[|w| - |r|..]
    ensures forall k :: 0 <= k < |w| - |r| ==> w[k].acked
    ensures r == [] || !r[0].acked
  {
    if w != [] && w[0].acked then Slide(w[1..]) else w
  }

  /** The resend scan of A_timerinterrupt: the first unacked slot in window order. */
  function FirstUnacked(w: seq<Slot>): (r: Option<nat>)
    ensures r.Some? ==> r.value < |w| && !w[r.value].acked
    ensures r.Some? ==> forall k :: 0 <= k < r.value ==> w[k].acked
    ensures r.None? <==> forall k :: 0 <= k < |w| ==> w[k].acked
  {
    if w == [] then None
    else if !w[0].acked then Some(0)
    else match FirstUnacked(w[1..])
      case Some(i) => Some(i + 1)
      case None => None
  }

  /** Because WINDOWSIZE < SEQSPACE, the outstanding sequence numbers are
      pairwise distinct, so an ACK can match at most one slot. */
  lemma WindowSeqnumsDistinct(w: seq<Slot>, next: int, i: int, j: int)
    requires WellFormedWindow(w, next)
    requires 0 <= i < j < |w|
    ensures w[i].pkt.seqnum != w[j].pkt.seqnum
  {
  }

  /** The outstanding sequence numbers step by one modulo SEQSPACE, and the
      newest is the one just before A_nextseqnum. */
  lemma WindowSeqnumsConsecutive(w: seq<Slot>, next: int)
    requires WellFormedWindow(w, next)
    ensures forall k :: 0 <= k < |w| - 1 ==>
      w[k + 1].pkt.seqnum == (w[k].pkt.seqnum + 1) % SEQSPACE
    ensures |w| > 0 ==> w[|w| - 1].pkt.seqnum == (next + SEQSPACE - 1) % SEQSPACE
  {
    forall k | 0 <= k < |w| - 1
      ensures w[k + 1].pkt.seqnum == (w[k].pkt.seqnum + 1) % SEQSPACE
    {
      SeqBeforeIsMod(next, |w| - k);
      SeqBeforeIsMod(next, |w| - k - 1);
    }
    if |w| > 0 {
      SeqBeforeIsMod(next, 1);
    }
  }

  /** A valid ACK sets the flag of exactly the outstanding slot whose
      sequence number it names, if there is one, and touches nothing else. */
  lemma MarkAckExact(w: seq<Slot>, next: int, acknum: int)
    requires WellFormedWindow(w, next)
    ensures |MarkAck(w, acknum)| == |w|
    ensures forall k :: 0 <= k < |w| ==>
      MarkAck(w, acknum)[k] == Slot(w[k].pkt, w[k].acked || w[k].pkt.seqnum == acknum)
  {
    match FindAck(w, acknum)
    case None =>
    case Some(i) =>
      forall k | 0 <= k < |w| && k != i
        ensures w[k].pkt.seqnum != acknum
      {
        if k < i { } else { WindowSeqnumsDistinct(w, next, i, k); }
      }
  }

  /** Marking keeps the window's length and packets; afterwards a slot's
      flag is set exactly when it was set before or it is the slot the
      search names. This holds for any window, well-formed or not. */
  lemma MarkAckFlags(w: seq<Slot>, acknum: int)
    ensures |MarkAck(w, acknum)| == |w|
    ensures forall k :: 0 <= k < |w| ==> MarkAck(w, acknum)[k].pkt == w[k].pkt
    ensures forall k :: 0 <= k < |w| ==>
      (MarkAck(w, acknum)[k].acked <==> w[k].acked || FindAck(w, acknum) == Some(k))
  {
  }

  /** Sliding stops at the first unacked slot: whatever prefix of acked
      slots precedes it is exactly what Slide retires. */
  lemma {:induction false} SlideUnique(w: seq<Slot>, d: nat)
    requires d <= |w|
    requires forall k :: 0 <= k < d ==> w[k].acked
    requires d == |w| || !w[d].acked
    ensures Slide(w) == w[d..]
  {
    if d > 0 {
      assert w[1..][d - 1..] == w[d..];
      SlideUnique(w[1..], d - 1);
    }
  }

  /** Retiring a prefix of a well-formed window (whose flags may have been
      changed) leaves a well-formed window, provided its new head is unacked. */
  lemma SuffixKeepsWellFormed(w: seq<Slot>, m: seq<Slot>, next: int, d: int)
    requires WellFormedWindow(w, next)
    requires |m| == |w| && forall k :: 0 <= k < |w| ==> m[k].pkt == w[k].pkt
    requires 0 <= d <= |m| && (d == |m| || !m[d].acked)
    ensures WellFormedWindow(m[d..], next)
  {
    var r := m[d..];
    forall k | 0 <= k < |r|
      ensures r[k].pkt.seqnum == SeqBefore(next, |r| - k)
      ensures r[k].pkt.acknum == NOTINUSE && !IsCorrupted(r[k].pkt)
    {
      assert r[k].pkt == w[d + k].pkt;
    }
  }

  /** Processing a valid ACK keeps the window invariant. */
  lemma AckKeepsWellFormed(w: seq<Slot>, next: int, acknum: int)
    requires WellFormedWindow(w, next)
    ensures WellFormedWindow(Slide(MarkAck(w, acknum)), next)
  {
    MarkAckExact(w, next, acknum);
    var m := MarkAck(w, acknum);
    var r := Slide(m);
    SuffixKeepsWellFormed(w, m, next, |m| - |r|);
  }

  /** An ACK that names no outstanding unacked packet (a duplicate, or one
      for a packet already retired) leaves the window exactly as it was. */
  lemma AckWithoutNewSlotIsNoop(w: seq<Slot>, next: int, acknum: int)
    requires WellFormedWindow(w, next)
    requires forall k :: 0 <= k < |w| && w[k].pkt.seqnum == acknum ==> w[k].acked
    ensures Slide(MarkAck(w, acknum)) == w
  {
    MarkAckExact(w, next, acknum);
    assert MarkAck(w, acknum) == w;
    SlideUnique(w, 0);
  }

  /** Receiving the same valid ACK a second time changes nothing. */
  lemma AckIdempotent(w: seq<Slot>, next: int, acknum: int)
    requires WellFormedWindow(w, next)
    ensures var w1 := Slide(MarkAck(w, acknum));
      Slide(MarkAck(w1, acknum)) == w1
  {
    var m := MarkAck(w, acknum);
    var w1 := Slide(m);
    MarkAckExact(w, next, acknum);
    assert forall k :: 0 <= k < |m| && m[k].pkt.seqnum == acknum ==> m[k].acked;
    AckKeepsWellFormed(w, next, acknum);
    AckWithoutNewSlotIsNoop(w1, next, acknum);
  }

  /** Accepting a message keeps the window invariant. */
  lemma OutputKeepsWellFormed(w: seq<Slot>, next: int, message: Payload)
    requires WellFormedWindow(w, next) && |w| < WINDOWSIZE
    ensures WellFormedWindow(w + [Slot(MakePacket(next, NOTINUSE, message), false)], (next + 1) % SEQSPACE)
  {
  }

  /** Under the window invariant the packet a timeout resends is always
      the oldest outstanding one. */
  lemma TimeoutResendsOldest(w: seq<Slot>, next: int)
    requires WellFormedWindow(w, next) && |w| > 0
    ensures FirstUnacked(w) == Some(0)
  {
  }

  /** The ring position k places after `first`, for 0 <= k <= WINDOWSIZE.
      The source computes it as (first + k) % WINDOWSIZE. */
  function Pos(first: int, k: int): int
  {
    if first + k < WINDOWSIZE then first + k else first + k - WINDOWSIZE
  }

  /** How many places ring position j lies after `first`, going forward. */
  function Offset(first: int, j: int): int
  {
    if first <= j then j - first else j - first + WINDOWSIZE
  }

  lemma PosIsMod(first: int, k: int)
    requires 0 <= first < WINDOWSIZE && 0 <= k <= WINDOWSIZE
    ensures Pos(first, k) == (first + k) % WINDOWSIZE
  {
  }

  /** Ring position Pos(first, i) lies at offset i from first, and no other position does. */
  lemma OffsetOfPosition(first: int, i: int)
    requires 0 <= first < WINDOWSIZE && 0 <= i < WINDOWSIZE
    ensures Offset(first, Pos(first, i)) == i
    ensures forall j :: 0 <= j < WINDOWSIZE && j != Pos(first, i) ==> Offset(first, j) != i
  {
  }

  /** The ACK flags once the first d ring positions after `first` are retired (cleared). */
  function Retire(acked: seq<bool>, first: int, d: int): seq<bool>
    requires |acked| == WINDOWSIZE
  {
    seq(WINDOWSIZE, j requires 0 <= j < WINDOWSIZE => if Offset(first, j) < d then false else acked[j])
  }

  lemma RetireNothing(acked: seq<bool>, first: int)
    requires |acked| == WINDOWSIZE && 0 <= first < WINDOWSIZE
    ensures Retire(acked, first, 0) == acked
  {
  }

  /** Retiring one more position clears exactly the flag at that position,
      which until then still held its original value. */
  lemma RetireStep(acked: seq<bool>, first: int, d: int)
    requires |acked| == WINDOWSIZE && 0 <= first < WINDOWSIZE && 0 <= d < WINDOWSIZE
    ensures Retire(acked, first, d)[Pos(first, d)] == acked[Pos(first, d)]
    ensures Retire(acked, first, d)[Pos(first, d) := false] == Retire(acked, first, d + 1)
    ensures Pos(first, d + 1) == (Pos(first, d) + 1) % WINDOWSIZE
  {
    OffsetOfPosition(first, d);
  }

  /** After retiring the first d slots of a window and advancing its start
      by d, what is left is the rest of the window. */
  lemma RetireWindow(buffer: seq<Packet>, acked: seq<bool>, first: int, count: int, d: int)
    requires |buffer| == WINDOWSIZE && |acked| == WINDOWSIZE
    requires 0 <= first < WINDOWSIZE && 0 <= d <= count <= WINDOWSIZE
    ensures 0 <= Pos(first, d) < WINDOWSIZE
    ensures WindowOf(buffer, Retire(acked, first, d), Pos(first, d), count - d)
      == WindowOf(buffer, acked, first, count)[d..]
  {
    var w := WindowOf(buffer, acked, first, count);
    var r := WindowOf(buffer, Retire(acked, first, d), Pos(first, d), count - d);
    forall k | 0 <= k < count - d
      ensures r[k] == w[d + k]
    {
      assert Pos(Pos(first, d), k) == Pos(first, d + k);
      OffsetOfPosition(first, d + k);
    }
  }

  /** Retiring d <= count slots of a window whose flags outside the window
      are those of `before` clears exactly the retired positions and keeps
      the flags outside the window as they were in `before`. */
  lemma RetireFrame(before: seq<bool>, acked: seq<bool>, first: int, count: int, d: int)
    requires |before| == WINDOWSIZE && |acked| == WINDOWSIZE
    requires 0 <= first < WINDOWSIZE && 0 <= d <= count <= WINDOWSIZE
    requires forall j :: 0 <= j < WINDOWSIZE && Offset(first, j) >= count ==> acked[j] == before[j]
    ensures forall j :: 0 <= j < WINDOWSIZE && Offset(first, j) < d ==> !Retire(acked, first, d)[j]
    ensures forall j :: 0 <= j < WINDOWSIZE && Offset(first, j) >= count ==>
      Retire(acked, first, d)[j] == before[j]
  {
  }

  /** When the first d ring positions after `first` hold set flags and the
      next one (if any) does not, retiring them leaves the slid window. */
  lemma SlideRetired(buffer: seq<Packet>, acked: seq<bool>, first: int, count: int, d: int)
    requires |buffer| == WINDOWSIZE && |acked| == WINDOWSIZE
    requires 0 <= first < WINDOWSIZE && 0 <= d <= count <= WINDOWSIZE
    requires forall k :: 0 <= k < d ==> acked[Pos(first, k)]
    requires d == count || !acked[Pos(first, d)]
    ensures 0 <= Pos(first, d) < WINDOWSIZE
    ensures WindowOf(buffer, Retire(acked, first, d), Pos(first, d), count - d)
      == Slide(WindowOf(buffer, acked, first, count))
  {
    SlideUnique(WindowOf(buffer, acked, first, count), d);
    RetireWindow(buffer, acked, first, count, d);
  }

  /** The two steps of A_input together: flags `marked` that hold the ACK
      mark of `before` inside the window and agree with it outside, retired
      along their leading run of set flags, give the slid marked window,
      and clear only the retired positions. */
  lemma SlideAfterMark(buffer: seq<Packet>, before: seq<bool>, marked: seq<bool>,
                       first: int, count: int, d: int, acknum: int)
    requires |buffer| == WINDOWSIZE && |before| == WINDOWSIZE && |marked| == WINDOWSIZE
    requires 0 <= first < WINDOWSIZE && 0 <= d <= count <= WINDOWSIZE
    requires WindowOf(buffer, marked, first, count) == MarkAck(WindowOf(buffer, before, first, count), acknum)
    requires forall j :: 0 <= j < WINDOWSIZE && Offset(first, j) >= count ==> marked[j] == before[j]
    requires forall k :: 0 <= k < d ==> marked[Pos(first, k)]
    requires d == count || !marked[Pos(first, d)]
    ensures 0 <= Pos(first, d) < WINDOWSIZE
    ensures WindowOf(buffer, Retire(marked, first, d), Pos(first, d), count - d)
      == Slide(MarkAck(WindowOf(buffer, before, first, count), acknum))
    ensures forall j :: 0 <= j < WINDOWSIZE && Offset(first, j) < d ==> !Retire(marked, first, d)[j]
    ensures forall j :: 0 <= j < WINDOWSIZE && Offset(first, j) >= count ==>
      Retire(marked, first, d)[j] == before[j]
  {
    SlideRetired(buffer, marked, first, count, d);
    RetireFrame(before, marked, first, count, d);
  }

  /** Writing the slot just past the window appends to the window. */
  lemma WindowOfAppend(buffer: seq<Packet>, acked: seq<bool>, first: int, count: int, pkt: Packet)
    requires |buffer| == WINDOWSIZE && |acked| == WINDOWSIZE
    requires 0 <= first < WINDOWSIZE && 0 <= count < WINDOWSIZE
    ensures WindowOf(buffer[Pos(first, count) := pkt], acked[Pos(first, count) := false], first, count + 1)
      == WindowOf(buffer, acked, first, count) + [Slot(pkt, false)]
  {
  }

  /** Setting the flag of the i-th window position sets the i-th slot. */
  lemma WindowOfMark(buffer: seq<Packet>, acked: seq<bool>, first: int, count: int, i: int)
    requires |buffer| == WINDOWSIZE && |acked| == WINDOWSIZE
    requires 0 <= first < WINDOWSIZE && 0 <= i < count <= WINDOWSIZE
    ensures var w := WindowOf(buffer, acked, first, count);
      WindowOf(buffer, acked[Pos(first, i) := true], first, count) == w[i := Slot(w[i].pkt, true)]
  {
  }

  /** The static state of entity A and its event handlers. */
  class Sender {
    /** Packets of the window, at ring positions (sr.c:32). */
    const buffer: array<Packet>
    /** ACK flags of the window, at ring positions (sr.c:37). */
    const acked: array<bool>
    var windowfirst: int
    var windowcount: int
    /** A_nextseqnum: the sequence number of the next new packet. */
    var nextseqnum: int
    /** The calls made to the emulator: tolayer3, starttimer and stoptimer. */
    ghost var calls: seq<Call>
    /** Whether A's retransmission timer is running. */
    ghost var timerArmed: bool

    /** The outstanding packets with their ACK flags, oldest first. */
    ghost function Outstanding(): seq<Slot>
      reads this, buffer, acked
      requires RingShape()
    {
      WindowOf(buffer[..], acked[..], windowfirst, windowcount)
    }

    /** The ring arrays have WINDOWSIZE slots and the window lies within them. */
    ghost predicate RingShape()
      reads this
    {
      && buffer.Length == WINDOWSIZE && acked.Length == WINDOWSIZE
      && 0 <= windowfirst < WINDOWSIZE && 0 <= windowcount <= WINDOWSIZE
    }

    /** The sender's invariant between events. The timer runs exactly while
        some packet is outstanding. */
    ghost predicate Valid()
      reads this, buffer, acked
    {
      && RingShape()
      && WellFormedWindow(Outstanding(), nextseqnum)
      && timerArmed == (windowcount > 0)
    }

    /** The static storage of entity A as the program starts: all zero. */
    constructor ()
      ensures Valid() && fresh(buffer) && fresh(acked)
      ensures windowfirst == 0 && windowcount == 0 && nextseqnum == 0
      ensures forall j :: 0 <= j < WINDOWSIZE ==> !acked[j]
      ensures calls == [] && !timerArmed
    {
      buffer := new Packet[WINDOWSIZE](_ => ZERO_PACKET);
      acked := new bool[WINDOWSIZE](_ => false);
      windowfirst, windowcount, nextseqnum := 0, 0, 0;
      calls, timerArmed := [], false;
    }

    /** A_init: empties the window. It neither clears the ACK flags nor
        stops the timer, so it is only meant to run before the timer is used. */
    method Init()
      requires buffer.Length == WINDOWSIZE && acked.Length == WINDOWSIZE
      requires !timerArmed
      modifies this
      ensures Valid() && Outstanding() == []
      ensures nextseqnum == 0 && windowfirst == 0 && windowcount == 0
      ensures calls == old(calls) && !timerArmed
    {
      nextseqnum := 0;
      windowfirst := 0;
      windowcount := 0;
    }

    /** A_output: a message is accepted exactly when the window has room.
        An accepted message becomes an intact data packet with the next
        sequence number, appended to the window and sent; the timer is
        started only when this is the sole outstanding packet. A refused
        message leaves the sender untouched. */
    method Output(message: Payload) returns (accepted: bool)
      requires Valid()
      modifies this, buffer, acked
      ensures Valid()
      ensures accepted <==> old(windowcount) < WINDOWSIZE
      ensures accepted ==>
        var pkt := MakePacket(old(nextseqnum), NOTINUSE, message);
        var slot := Pos(old(windowfirst), old(windowcount));
        && Outstanding() == old(Outstanding()) + [Slot(pkt, false)]
        && buffer[..] == old(buffer[..])[slot := pkt]
        && acked[..] == old(acked[..])[slot := false]
        && windowfirst == old(windowfirst)
        && windowcount == old(windowcount) + 1
        && nextseqnum == (old(nextseqnum) + 1) % SEQSPACE
        && calls == old(calls) + [ToLayer3(pkt)] + (if old(windowcount) == 0 then [StartTimer] else [])
      ensures accepted && old(windowcount) == 0 ==> !old(timerArmed)
      ensures !accepted ==> unchanged(this, buffer, acked)
    {
      if windowcount < WINDOWSIZE {
        var sendpkt := Packet(nextseqnum, NOTINUSE, 0, message);
        var checksum := ComputeChecksum(sendpkt);
        sendpkt := sendpkt.(checksum := checksum);
        assert sendpkt == MakePacket(nextseqnum, NOTINUSE, message);
        ghost var w, next := Outstanding(), nextseqnum;
        OutputKeepsWellFormed(w, next, message);
        Append(sendpkt);

        calls := calls + [ToLayer3(sendpkt)];
        if windowcount == 1 {
          calls := calls + [StartTimer];
          timerArmed := true;
        }
        nextseqnum := (nextseqnum + 1) % SEQSPACE;
        accepted := true;
        assert WellFormedWindow(Outstanding(), nextseqnum) by {
          assert Outstanding() == w + [Slot(sendpkt, false)];
          assert nextseqnum == (next + 1) % SEQSPACE;
        }
      } else {
        accepted := false;
      }
    }

    /** The buffering step of A_output: the packet is stored, unacked, in
        the ring slot just past the window, which grows by one. */
    method Append(pkt: Packet)
      requires RingShape() && windowcount < WINDOWSIZE
      modifies buffer, acked, this`windowcount
      ensures RingShape()
      ensures Outstanding() == old(Outstanding()) + [Slot(pkt, false)]
      ensures buffer[..] == old(buffer[..])[Pos(windowfirst, old(windowcount)) := pkt]
      ensures acked[..] == old(acked[..])[Pos(windowfirst, old(windowcount)) := false]
      ensures windowcount == old(windowcount) + 1
    {
      WindowOfAppend(buffer[..], acked[..], windowfirst, windowcount, pkt);
      PosIsMod(windowfirst, windowcount);
      var windowlast := (windowfirst + windowcount) % WINDOWSIZE;
      buffer[windowlast] := pkt;
      acked[windowlast] := false;
      windowcount := windowcount + 1;
    }

    /** A_input: a corrupted ACK, or any ACK while nothing is outstanding,
        changes nothing. Otherwise the matching slot is marked, the window
        slides past every leading acknowledged packet (clearing the flags of
        the slots it retires), and the timer is stopped and restarted iff
        packets remain outstanding. Slots outside the old window are kept. */
    method Input(packet: Packet)
      requires Valid()
      modifies this, acked
      ensures Valid()
      ensures IsCorrupted(packet) || old(windowcount) == 0 ==> unchanged(this, acked)
      ensures !IsCorrupted(packet) && old(windowcount) > 0 ==>
        var retired := old(windowcount) - windowcount;
        && Outstanding() == Slide(MarkAck(old(Outstanding()), packet.acknum))
        && windowfirst == Pos(old(windowfirst), retired)
        && nextseqnum == old(nextseqnum)
        && (forall j :: 0 <= j < WINDOWSIZE && Offset(old(windowfirst), j) < retired ==> !acked[j])
        && (forall j :: 0 <= j < WINDOWSIZE && Offset(old(windowfirst), j) >= old(windowcount) ==>
              acked[j] == old(acked[j]))
        && calls == old(calls) + [StopTimer] + (if windowcount > 0 then [StartTimer] else [])
    {
      if !IsCorrupted(packet) {
        if windowcount == 0 {
          return;
        }
        ghost var w0 := Outstanding();
        AckKeepsWellFormed(w0, nextseqnum, packet.acknum);
        ApplyAck(packet.acknum);
        RestartTimer();
      }
    }

    /** The window work of A_input on a valid ACK: the search marks the
        matching slot, then the window slides. The retired flags are cleared
        and the flags outside the old window are kept. */
    method ApplyAck(acknum: int)
      requires RingShape()
      modifies this`windowfirst, this`windowcount, acked
      ensures RingShape() && windowcount <= old(windowcount)
      ensures Outstanding() == Slide(MarkAck(old(Outstanding()), acknum))
      ensures windowfirst == Pos(old(windowfirst), old(windowcount) - windowcount)
      ensures forall j :: 0 <= j < WINDOWSIZE && Offset(old(windowfirst), j) < old(windowcount) - windowcount ==>
        !acked[j]
      ensures forall j :: 0 <= j < WINDOWSIZE && Offset(old(windowfirst), j) >= old(windowcount) ==>
        acked[j] == old(acked[j])
    {
      ghost var f0, c0, a0 := windowfirst, windowcount, acked[..];
      MarkAcked(acknum);
      ghost var a1 := acked[..];
      SlideWindow();
      SlideAfterMark(buffer[..], a0, a1, f0, c0, c0 - windowcount, acknum);
      forall j | 0 <= j < WINDOWSIZE
        ensures Offset(old(windowfirst), j) < old(windowcount) - windowcount ==> !acked[j]
        ensures Offset(old(windowfirst), j) >= old(windowcount) ==> acked[j] == old(acked[j])
      {
        assert acked[j] == acked[..][j] && a0[j] == old(acked[j]);
      }
    }

    /** The timer handling at the end of A_input: the timer is stopped, and
        started again when packets remain outstanding. */
    method RestartTimer()
      modifies this`calls, this`timerArmed
      ensures calls == old(calls) + [StopTimer] + (if windowcount > 0 then [StartTimer] else [])
      ensures timerArmed == (windowcount > 0)
    {
      calls := calls + [StopTimer];
      timerArmed := false;
      if windowcount > 0 {
        calls := calls + [StartTimer];
        timerArmed := true;
      }
    }

    /** The ACK search of A_input: the window is scanned in order and the
        first slot whose packet carries `acknum` has its flag set (a no-op
        when it is already set). Slots outside the window are not touched. */
    method MarkAcked(acknum: int)
      requires RingShape()
      modifies acked
      ensures Outstanding() == MarkAck(old(Outstanding()), acknum)
      ensures forall j :: 0 <= j < WINDOWSIZE && Offset(windowfirst, j) >= windowcount ==>
        acked[j] == old(acked[j])
    {
      ghost var w0 := Outstanding();
      var index := windowfirst;
      var i := 0;
      while i < windowcount
        invariant 0 <= i <= windowcount
        invariant index == Pos(windowfirst, i)
        invariant forall k :: 0 <= k < i ==> w0[k].pkt.seqnum != acknum
        invariant acked[..] == old(acked[..])
      {
        PosIsMod(index, 1);
        if buffer[index].seqnum == acknum {
          assert w0[i].pkt == buffer[index];
          assert FindAck(w0, acknum) == Some(i);
          WindowOfMark(buffer[..], acked[..], windowfirst, windowcount, i);
          OffsetOfPosition(windowfirst, i);
          if !acked[index] {
            acked[index] := true;
          } else {
            assert acked[..][index := true] == acked[..];
          }
          break;
        }
        index := (index + 1) % WINDOWSIZE;
        i := i + 1;
      }
    }

    /** The sliding loop of A_input: while the oldest outstanding packet is
        acknowledged, its flag is cleared, windowfirst advances one ring
        position and windowcount drops by one. It retires exactly the
        leading run of set flags: every retired slot was acked, and the slot
        where it stops (if any remains) is not. Only the retired flags change. */
    method SlideWindow()
      requires RingShape()
      modifies this`windowfirst, this`windowcount, acked
      ensures RingShape() && windowcount <= old(windowcount)
      ensures windowfirst == Pos(old(windowfirst), old(windowcount) - windowcount)
      ensures acked[..] == Retire(old(acked[..]), old(windowfirst), old(windowcount) - windowcount)
      ensures forall k :: 0 <= k < old(windowcount) - windowcount ==> old(acked[..])[Pos(old(windowfirst), k)]
      ensures windowcount > 0 ==> !old(acked[..])[Pos(old(windowfirst), old(windowcount) - windowcount)]
    {
      ghost var f, c, a0 := windowfirst, windowcount, acked[..];
      RetireNothing(a0, f);
      while windowcount > 0 && acked[windowfirst]
        invariant 0 <= windowcount <= c
        invariant windowfirst == Pos(f, c - windowcount)
        invariant acked[..] == Retire(a0, f, c - windowcount)
        invariant forall k :: 0 <= k < c - windowcount ==> a0[Pos(f, k)]
      {
        ghost var d := c - windowcount;
        RetireStep(a0, f, d);
        PosIsMod(windowfirst, 1);
        acked[windowfirst] := false;
        assert acked[..] == Retire(a0, f, d)[Pos(f, d) := false];
        windowfirst := (windowfirst + 1) % WINDOWSIZE;
        windowcount := windowcount - 1;
      }
      if windowcount > 0 {
        RetireStep(a0, f, c - windowcount);
      }
    }

    /** A_timerinterrupt: the expiry that raised it has consumed the timer.
        The scan resends exactly the first unacked packet in window order and
        restarts the timer once; with no unacked packet nothing is sent and
        the timer stays stopped. The window is not touched. The scan works on
        any window; under the invariant the resent packet is the oldest
        outstanding one, and the invariant is kept. */
    method TimerInterrupt()
      requires RingShape()
      modifies this
      ensures RingShape()
      ensures windowfirst == old(windowfirst) && windowcount == old(windowcount)
      ensures nextseqnum == old(nextseqnum)
      ensures match FirstUnacked(old(Outstanding()))
        case Some(k) => calls == old(calls) + [ToLayer3(old(Outstanding())[k].pkt), StartTimer] && timerArmed
        case None => calls == old(calls) && !timerArmed
      ensures old(Valid()) ==> Valid()
      ensures old(Valid()) && windowcount > 0 ==>
        calls == old(calls) + [ToLayer3(buffer[windowfirst]), StartTimer]
    {
      ghost var w := Outstanding();
      assert |w| == windowcount;
      timerArmed := false;
      var i := 0;
      while i < windowcount
        invariant 0 <= i <= windowcount == |w|
        invariant forall k :: 0 <= k < i ==> w[k].acked
        invariant calls == old(calls) && !timerArmed
        invariant windowfirst == old(windowfirst) && windowcount == old(windowcount)
        invariant nextseqnum == old(nextseqnum)
      {
        PosIsMod(windowfirst, i);
        var index := (windowfirst + i) % WINDOWSIZE;
        if !acked[index] {
          assert w[i] == Slot(buffer[index], acked[index]);
          assert FirstUnacked(w) == Some(i);
          calls := calls + [ToLayer3(buffer[index])];
          calls := calls + [StartTimer];
          timerArmed := true;
          return;
        }
        i := i + 1;
      }
    }
  }
}
