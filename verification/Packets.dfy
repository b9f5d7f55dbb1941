/**
 Sealing and accepting sensor packets (`src/packets.cpp`, layouts in
 `src/packets.h`).  Both packet revisions keep the CRC in the two bytes at
 offset 2, low byte first as the host stores a 16-bit field; it is computed
 with that field zeroed.
 */
module Packets {
  import opened Crc16
  import opened Crc16Detection

  const PACKET_REV0_SIZE := 32
  const PACKET_REV1_SIZE := 48
  const REQUEST_RECEIVER: bv8 := 0x04
  const PROGRAM_REVISION: bv8 := 0

  /** Anything at least as long as the first header fields. */
  type Packet = p: seq<bv8> | |p| >= 4 witness [0, 0, 0, 0]

  function CrcField(p: Packet): bv16 {
    Pair(p[3], p[2])
  }

  function Cleared(p: Packet): (r: Packet)
    ensures |r| == |p|
  {
    p[2 := 0][3 := 0]
  }

  function WithCrc(p: Packet, crc: bv16): (r: Packet)
    ensures |r| == |p|
  {
    p[2 := LowByte(crc)][3 := HighByte(crc)]
  }

  /** What the receiver accepts: the stored field is the CRC of the rest. */
  predicate Accepted(p: Packet) {
    CrcField(p) == Crc(Cleared(p))
  }

  /** The handlers' check: save the field, zero it, recompute, compare.  The
      packet is left with its field zeroed whether or not it is accepted. */
  method CheckPacket(register: Register, packet: array<bv8>) returns (ok: bool)
    requires packet.Length >= 4
    modifies register, packet
    ensures ok <==> Accepted(old(packet[..]))
    ensures packet[..] == Cleared(old(packet[..]))
  {
    var crc16 := Pair(packet[3], packet[2]);
    packet[2], packet[3] := 0, 0;
    assert packet[..] == Cleared(old(packet[..]));
    assert packet[..packet.Length] == packet[..];
    var computed := register.Generate(packet, packet.Length);
    ok := computed == crc16;
  }

  /** The last step of sealing: the CRC of a packet whose field is zero. */
  method StoreCrc(register: Register, packet: array<bv8>)
    requires packet.Length >= 4 && packet[2] == packet[3] == 0
    modifies register, packet
    ensures packet[..] == WithCrc(old(packet[..]), Crc(old(packet[..])))
  {
    assert packet[..packet.Length] == packet[..];
    var crc := register.Generate(packet, packet.Length);
    packet[2], packet[3] := LowByte(crc), HighByte(crc);
  }

  lemma PairOfBytes(crc: bv16)
    ensures Pair(HighByte(crc), LowByte(crc)) == crc
  {
  }

  /** Writing the CRC of the cleared packet into the field is accepted. */
  lemma SealingIsAccepted(p: Packet)
    ensures Accepted(WithCrc(p, Crc(Cleared(p))))
  {
    var sealed := WithCrc(p, Crc(Cleared(p)));
    assert Cleared(sealed) == Cleared(p);
    PairOfBytes(Crc(Cleared(p)));
  }

  /** `SendReceiverAddress` up to the hand-over to the radio. */
  method BuildReceiverAddress(register: Register) returns (packet: array<bv8>)
    modifies register
    ensures fresh(packet) && packet.Length == 32
    ensures Accepted(packet[..])
    ensures packet[0] == 0x55 && packet[1] == 0xAA && packet[4] == 0 && packet[5] == 4
    ensures forall i :: 6 <= i < packet.Length ==> packet[i] == 0
  {
    packet := new bv8[PACKET_REV0_SIZE](i => 0);
    packet[5] := REQUEST_RECEIVER;
    packet[0], packet[1] := 0x55, 0xAA;
    packet[4] := PROGRAM_REVISION;
    ghost var before: Packet := packet[..];
    assert before == Cleared(before);
    StoreCrc(register, packet);
    assert forall i :: 0 <= i < packet.Length && i != 2 && i != 3 ==> packet[..][i] == before[i];
    SealingIsAccepted(before);
  }

  lemma BytesOfPair(high: bv8, low: bv8)
    ensures HighByte(Pair(high, low)) == high && LowByte(Pair(high, low)) == low
  {
  }

  /** A packet is accepted exactly if its bytes 2 and 3, the low one first, are the CRC
      of the packet with zeros there. */
  lemma AcceptedExactlyWhen(p: Packet)
    ensures Accepted(p) <==>
            ((p[3] as bv16) << 8) | (p[2] as bv16) == Feed(0xFFFF, MessageBits(p[2 := 0][3 := 0]))
  {
  }

  /** And nothing else is: an accepted packet is the sealing of its own content. */
  lemma {:induction false} AcceptedIsSealed(p: Packet)
    ensures Accepted(p) <==> p == WithCrc(p, Crc(Cleared(p)))
  {
    SealingIsAccepted(p);
    BytesOfPair(p[3], p[2]);
  }

  lemma ClearedAndField(p: Packet, q: Packet)
    requires |p| == |q| && Cleared(p) == Cleared(q)
    ensures p[2] == q[2] && p[3] == q[3] ==> p == q
  {
    forall i | 0 <= i < |p| && i != 2 && i != 3 ensures p[i] == q[i] {
      assert Cleared(p)[i] == Cleared(q)[i];
    }
  }

  /** A change inside the CRC field alone is rejected, whatever it is. */
  lemma ChangedFieldIsRejected(p: Packet, q: Packet)
    requires Accepted(p) && |q| == |p| && q != p && Cleared(q) == Cleared(p)
    ensures !Accepted(q)
  {
    AcceptedIsSealed(p);
    AcceptedIsSealed(q);
    ClearedAndField(p, q);
  }

  lemma {:induction false} BitOfByte(m: seq<bv8>, j: nat, k: nat)
    requires j < |m| && k < 8
    ensures MessageBits(m)[8 * j + k] == ByteBits(m[j])[k]
  {
    if j < |m| - 1 {
      BitOfByte(m[..|m| - 1], j, k);
    }
  }

  lemma KeptBit(m: seq<bv8>, n: seq<bv8>, j: nat, k: nat)
    requires j < |m| && j < |n| && k < 8 && m[j] == n[j]
    ensures MessageBits(m)[8 * j + k] == MessageBits(n)[8 * j + k]
  {
    BitOfByte(m, j, k);
    BitOfByte(n, j, k);
  }

  lemma ClearingKeepsBit(p: Packet, q: Packet, j: nat, k: nat)
    requires |p| == |q| && p[2] == q[2] && p[3] == q[3] && j < |p| && k < 8
    ensures (MessageBits(p)[8 * j + k] != MessageBits(q)[8 * j + k]) ==
            (MessageBits(Cleared(p))[8 * j + k] != MessageBits(Cleared(q))[8 * j + k])
  {
    if j == 2 || j == 3 {
      KeptBit(p, q, j, k);
      KeptBit(Cleared(p), Cleared(q), j, k);
    } else {
      KeptBit(p, Cleared(p), j, k);
      KeptBit(q, Cleared(q), j, k);
    }
  }

  /** The byte and the bit in it a bit of the message belongs to. */
  lemma Position(i: nat, n: nat) returns (j: nat, k: nat)
    requires i < 8 * n
    ensures j < n && k < 8 && i == 8 * j + k
  {
    j, k := i / 8, i % 8;
  }

  lemma ClearingKeepsAt(p: Packet, q: Packet, i: nat)
    requires |p| == |q| && p[2] == q[2] && p[3] == q[3] && i < 8 * |p|
    ensures (MessageBits(p)[i] != MessageBits(q)[i]) == (MessageBits(Cleared(p))[i] != MessageBits(Cleared(q))[i])
  {
    var j, k := Position(i, |p|);
    ClearingKeepsBit(p, q, j, k);
  }

  lemma SameDifference(a: seq<bool>, b: seq<bool>, c: seq<bool>, d: seq<bool>)
    requires |a| == |b| == |c| == |d| && forall i :: 0 <= i < |a| ==> (a[i] != b[i]) == (c[i] != d[i])
    ensures Difference(a, b) == Difference(c, d)
  {
  }

  /** Packets that agree on the field differ where their cleared forms differ. */
  lemma ClearingKeepsDifference(p: Packet, q: Packet)
    requires |p| == |q| && p[2] == q[2] && p[3] == q[3]
    ensures Difference(MessageBits(p), MessageBits(q)) ==
            Difference(MessageBits(Cleared(p)), MessageBits(Cleared(q)))
  {
    forall i | 0 <= i < 8 * |p|
      ensures (MessageBits(p)[i] != MessageBits(q)[i]) == (MessageBits(Cleared(p))[i] != MessageBits(Cleared(q))[i])
    {
      ClearingKeepsAt(p, q, i);
    }
    SameDifference(MessageBits(p), MessageBits(q), MessageBits(Cleared(p)), MessageBits(Cleared(q)));
  }

  /** A change within 16 consecutive bits that leaves the field alone is rejected. */
  lemma {:induction false} ChangedContentIsRejected(p: Packet, q: Packet, start: nat)
    requires Accepted(p) && |q| == |p| && q != p && q[2] == p[2] && q[3] == p[3]
    requires Burst(Difference(MessageBits(p), MessageBits(q)), start)
    ensures !Accepted(q)
  {
    ClearingKeepsDifference(p, q);
    if Cleared(p) == Cleared(q) {
      ClearedAndField(p, q);
      assert false;
    }
    BurstIsDetected(Cleared(p), Cleared(q), start);
  }
}
