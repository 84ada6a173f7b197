/** Protocol constants, the packet layout shared by both entities, and the
    additive checksum that both entities use to detect corruption (sr.c:7-28). */
module Packets {

  /** Size of the sender window (sr.c:8). */
  const WINDOWSIZE: int := 6
  /** Size of the sequence-number ring (sr.c:9). */
  const SEQSPACE: int := 7
  /** The acknum of a data packet (sr.c:10). */
  const NOTINUSE: int := -1
  /** Length of the payload of a packet and of the data of a message. */
  const PAYLOAD_SIZE: int := 20

  /** A C `char`, assumed signed and eight bits wide. */
  type Char = c: int | -128 <= c < 128

  /** The character '0', which fills the payload of every ACK. */
  const ZERO_DIGIT: Char := 48

  /** The twenty characters of a packet payload or of an application message. */
  type Payload = p: seq<Char> | |p| == PAYLOAD_SIZE witness seq(20, _ => 0)

  /** The payload of every ACK: twenty '0' characters. */
  const ACK_FILLER: Payload := seq(20, _ => ZERO_DIGIT)

  /** struct pkt. The fields are C ints, so a packet arriving from the
      channel may carry any values in them. */
  datatype Packet = Packet(seqnum: int, acknum: int, checksum: int, payload: Payload)

  /** An all-zero packet: the contents of a static packet array before it is written. */
  const ZERO_PACKET: Packet := Packet(0, 0, 0, seq(20, _ => 0))

  /** The calls a handler makes into the emulator, recorded in the order made. */
  datatype Call =
    | ToLayer3(pkt: Packet)      // tolayer3: hand a packet to the channel
    | ToLayer5(data: Payload)    // tolayer5: deliver a payload to the application
    | StartTimer                 // starttimer(A, RTT)
    | StopTimer                  // stoptimer(A)

  datatype Option<T> = None | Some(value: T)

  /** Sum of the characters of `s`, added left to right as the checksum loop does. */
  function Sum(s: seq<Char>): int
  {
    if s == [] then 0 else Sum(s[..|s| - 1]) + s[|s| - 1]
  }

  /** The checksum a packet ought to carry: seqnum + acknum + the payload characters.
      The stored checksum field itself takes no part, and the payload moves
      it by at most 20 * 128 away from seqnum + acknum. */
  function Checksum(p: Packet): (c: int)
    ensures p.seqnum + p.acknum - 128 * PAYLOAD_SIZE <= c <= p.seqnum + p.acknum + 127 * PAYLOAD_SIZE
  {
    SumBounds(p.payload);
    p.seqnum + p.acknum + Sum(p.payload)
  }

  /** IsCorrupted: the stored checksum differs from the recomputed one. */
  predicate IsCorrupted(p: Packet)
  {
    p.checksum != Checksum(p)
  }

  /** ComputeChecksum: the loop over the payload computes Checksum. */
  method ComputeChecksum(packet: Packet) returns (checksum: int)
    ensures checksum == packet.seqnum + packet.acknum + Sum(packet.payload)
    ensures !IsCorrupted(packet.(checksum := checksum))
  {
    checksum := packet.seqnum;
    checksum := checksum + packet.acknum;
    for i := 0 to PAYLOAD_SIZE
      invariant checksum == packet.seqnum + packet.acknum + Sum(packet.payload[..i])
    {
      assert packet.payload[..i + 1][..i] == packet.payload[..i];
      checksum := checksum + packet.payload[i];
    }
    assert packet.payload[..PAYLOAD_SIZE] == packet.payload;
  }

  /** A packet as the handlers build it: the three fields are filled in and
      the checksum is computed over them last, so the packet is never corrupted. */
  function MakePacket(seqnum: int, acknum: int, payload: Payload): (p: Packet)
    ensures !IsCorrupted(p)
    ensures p.seqnum == seqnum && p.acknum == acknum && p.payload == payload
  {
    Packet(seqnum, acknum, seqnum + acknum + Sum(payload), payload)
  }

  /** The packets that pass the corruption check are exactly those whose
      checksum was computed last over their own fields, as MakePacket does. */
  lemma IntactExactlyWhenBuilt(p: Packet)
    ensures !IsCorrupted(p) <==> p == MakePacket(p.seqnum, p.acknum, p.payload)
  {
  }

  /** Replacing one character changes the sum by exactly the difference. */
  lemma {:induction false} SumUpdate(s: seq<Char>, i: int, c: Char)
    requires 0 <= i < |s|
    ensures Sum(s[i := c]) == Sum(s) - s[i] + c
  {
    var n := |s| - 1;
    assert s[i := c][..n] == if i < n then s[..n][i := c] else s[..n];
    if i < n {
      SumUpdate(s[..n], i, c);
    }
  }

  /** Tampering with a single payload character of an intact packet is detected. */
  lemma PayloadTamperDetected(p: Packet, i: int, c: Char)
    requires !IsCorrupted(p)
    requires 0 <= i < PAYLOAD_SIZE && c != p.payload[i]
    ensures IsCorrupted(p.(payload := p.payload[i := c]))
  {
    SumUpdate(p.payload, i, c);
  }

  /** Tampering with a single header field of an intact packet is detected. */
  lemma HeaderTamperDetected(p: Packet, seqnum: int, acknum: int)
    requires !IsCorrupted(p)
    ensures seqnum != p.seqnum ==> IsCorrupted(p.(seqnum := seqnum))
    ensures acknum != p.acknum ==> IsCorrupted(p.(acknum := acknum))
  {
  }

  /** The checksum is blind to order: swapping two payload characters of an
      intact packet yields a packet that still passes the check. */
  lemma SwappedCharsUndetected(p: Packet, i: int, j: int)
    requires !IsCorrupted(p)
    requires 0 <= i < PAYLOAD_SIZE && 0 <= j < PAYLOAD_SIZE
    ensures !IsCorrupted(p.(payload := p.payload[i := p.payload[j]][j := p.payload[i]]))
  {
    var s := p.payload;
    SumUpdate(s, i, s[j]);
    SumUpdate(s[i := s[j]], j, s[i]);
  }

  /** Bounds on the sum of n characters. */
  lemma {:induction false} SumBounds(s: seq<Char>)
    ensures -128 * |s| <= Sum(s) <= 127 * |s|
  {
    if s != [] {
      SumBounds(s[..|s| - 1]);
    }
  }

  /** With header fields of moderate size no value the C int accumulator
      holds overflows: not seqnum + acknum, nor any partial sum of the
      payload loop, nor the final checksum. So computing it on unbounded
      integers loses nothing. */
  lemma ChecksumFitsInt32(p: Packet)
    requires -0x3FFF_0000 <= p.seqnum <= 0x3FFF_0000
    requires -0x3FFF_0000 <= p.acknum <= 0x3FFF_0000
    ensures -0x8000_0000 <= p.seqnum + p.acknum < 0x8000_0000
    ensures forall i :: 0 <= i <= PAYLOAD_SIZE ==>
      -0x8000_0000 <= p.seqnum + p.acknum + Sum(p.payload[..i]) < 0x8000_0000
    ensures -0x8000_0000 <= Checksum(p) < 0x8000_0000
  {
    forall i | 0 <= i <= PAYLOAD_SIZE
      ensures -0x8000_0000 <= p.seqnum + p.acknum + Sum(p.payload[..i]) < 0x8000_0000
    {
      SumBounds(p.payload[..i]);
    }
  }

  /** n copies of one character sum to n times that character. */
  lemma {:induction false} SumConstant(n: nat, c: Char)
    ensures Sum(seq(n, _ => c)) == n * c
  {
    if n > 0 {
      assert seq(n, _ => c)[..n - 1] == seq(n - 1, _ => c);
      SumConstant(n - 1, c);
    }
  }

  /** Every ACK carries checksum seqnum + acknum + 960 (twenty times '0'). */
  lemma AckChecksum(seqnum: int, acknum: int)
    ensures MakePacket(seqnum, acknum, ACK_FILLER).checksum == seqnum + acknum + 960
  {
    SumConstant(20, ZERO_DIGIT);
  }
}
