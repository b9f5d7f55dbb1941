/**
 XBee API frames (`src/xbee.cpp`): building them, their checksum, and finding
 them again in a stream of bytes.
 */
module XBeeFrames {

  type byte = b: int | 0 <= b < 256

  type Bytes = seq<byte>

  const START_DELIMITER: byte := 0x7e
  const API_AT_CMD_FRAME: byte := 0x08
  const API_TRANSMIT_FRAME: byte := 0x10
  const FRAME_SIZE := 128
  const PACKET_SIZE := 48

  // ----- the checksum -----

  function Sum(s: Bytes): nat {
    if s == [] then 0 else s[0] + Sum(s[1..])
  }

  lemma {:induction false} SumAppend(a: Bytes, b: Bytes)
    ensures Sum(a + b) == Sum(a) + Sum(b)
  {
    if a == [] {
      assert a + b == b;
    } else {
      assert (a + b)[1..] == a[1..] + b;
      SumAppend(a[1..], b);
    }
  }

  /** The checksum byte of a body. */
  function ChecksumOf(s: Bytes): byte {
    0xFF - Sum(s) % 0x100
  }

  /** What `doChecksumVerify` finds for an unchanged frame: the checksum byte and
      no other brings the sum to 0xFF. */
  lemma ChecksumCompletes(s: Bytes, c: byte)
    ensures Sum(s + [c]) % 0x100 == 0xFF <==> c == ChecksumOf(s)
  {
    SumAppend(s, [c]);
    assert Sum([c]) == c;
  }

  /** A frame with one byte changed, the checksum's or any other, does not verify. */
  lemma ChangedByteIsSeen(s: Bytes, i: nat, x: byte)
    requires i < |s| && x != s[i] && Sum(s) % 0x100 == 0xFF
    ensures Sum(s[i := x]) % 0x100 != 0xFF
  {
    var a, b := s[..i], s[i + 1..];
    assert s == a + ([s[i]] + b) && s[i := x] == a + ([x] + b);
    SumAppend(a, [s[i]] + b);
    SumAppend(a, [x] + b);
  }

  lemma AddModulo(a: nat, b: nat)
    ensures (a % 0x100 + b) % 0x100 == (a + b) % 0x100
  {
  }

  method Checksum(address: array<byte>, start: nat, length: nat) returns (sum: byte)
    requires start + length <= address.Length
    ensures sum == ChecksumOf(address[start..start + length])
  {
    sum := AddUp(address, start, length);
    sum := 0xFF - sum;
  }

  method DoChecksumVerify(address: array<byte>, start: nat, length: nat, checksum: byte) returns (check: byte)
    requires start + length <= address.Length
    ensures check == 0xFF <==> checksum == ChecksumOf(address[start..start + length])
  {
    check := AddUp(address, start, length);
    check := (check + checksum) % 0x100;
  }

  /** The loop of both: the sum in an unsigned char. */
  method AddUp(address: array<byte>, start: nat, length: nat) returns (sum: byte)
    requires start + length <= address.Length
    ensures sum == Sum(address[start..start + length]) % 0x100
  {
    sum := 0;
    var i := 0;
    while i < length
      invariant 0 <= i <= length && sum == Sum(address[start..start + i]) % 0x100
    {
      assert address[start..start + i + 1] == address[start..start + i] + [address[start + i]];
      SumAppend(address[start..start + i], [address[start + i]]);
      AddModulo(Sum(address[start..start + i]), address[start + i]);
      sum := (sum + address[start + i]) % 0x100;
      i := i + 1;
    }
  }

  // ----- frames -----

  /** A body between its header and its checksum. */
  function Framed(body: Bytes): Bytes
    requires |body| <= 124
  {
    [START_DELIMITER, 0, |body|] + body + [ChecksumOf(body)]
  }

  /** A frame's body and checksum verify, and its length field is that of the body. */
  lemma FramedVerifies(body: Bytes)
    requires |body| <= 124
    ensures Sum(Framed(body)[3..]) % 0x100 == 0xFF
    ensures |Framed(body)| == 4 + |body| && Framed(body)[3..|Framed(body)| - 1] == body
  {
    assert Framed(body)[3..] == body + [ChecksumOf(body)];
    SumAppend(body, [ChecksumOf(body)]);
    ChecksumCompletes(body, ChecksumOf(body));
  }

  datatype Data = NoData | Word(value: nat)

  /** The bytes `swap_endian_32` leaves in memory on a little-endian host. */
  function BigEndian(n: nat): Bytes {
    [n / 0x100_0000 % 0x100, n / 0x1_0000 % 0x100, n / 0x100 % 0x100, n % 0x100]
  }

  function LittleEndian16(n: nat): Bytes {
    [n % 0x100, n / 0x100 % 0x100]
  }

  /** An AT command, with its parameter if it has one. */
  function CommandBody(command: nat, data: Data, id: byte): (b: Bytes)
    ensures |b| == if data.Word? then 8 else 4
  {
    [API_AT_CMD_FRAME, id] + LittleEndian16(command) + (if data.Word? then BigEndian(data.value) else [])
  }

  /** A packet for a radio: address, the reserved word 0xFEFF, no options. */
  function TransmitBody(address: Bytes, packet: Bytes, id: byte): (b: Bytes)
    requires |address| == 8 && |packet| == PACKET_SIZE
    ensures |b| == 62
  {
    [API_TRANSMIT_FRAME, id] + address + [0xFF, 0xFE, 0, 0] + packet
  }

  // ----- what a frame says -----

  /** The header of any frame built. */
  lemma HeaderReads(body: Bytes)
    requires |body| <= 124
    ensures var f := Framed(body);
            |f| == |body| + 4 && f[0] == 0x7E && f[1] == 0 && f[2] == |body|
    ensures forall k :: 0 <= k < |body| ==> Framed(body)[3 + k] == body[k]
  {
  }

  lemma WordReads(n: nat)
    requires n < 0x1_0000_0000
    ensures var b := BigEndian(n);
            n == ((b[0] as int * 0x100 + b[1] as int) * 0x100 + b[2] as int) * 0x100 + b[3] as int
  {
    var a := n / 0x100;
    var b := a / 0x100;
    assert n / 0x1_0000 == b && n / 0x100_0000 == b / 0x100;
    assert n == a * 0x100 + n % 0x100 && a == b * 0x100 + a % 0x100;
  }

  /** The fields of an AT command's frame, read at their places: the command low byte
      first, its parameter high byte first. */
  lemma CommandReads(command: nat, data: Data, id: byte)
    ensures var f := Framed(CommandBody(command, data, id));
            && |f| == (if data.Word? then 12 else 8) && f[0] == 0x7E && f[1] == 0 && f[2] == |f| - 4
            && f[3] == 0x08 && f[4] == id
            && (command < 0x1_0000 ==> command == f[5] as int + 0x100 * f[6] as int)
            && (data.Word? && data.value < 0x1_0000_0000 ==>
                  data.value == ((f[7] as int * 0x100 + f[8] as int) * 0x100 + f[9] as int) * 0x100 + f[10] as int)
  {
    var b := CommandBody(command, data, id);
    HeaderReads(b);
    assert b[2..4] == LittleEndian16(command) && b[2] == b[2..4][0] && b[3] == b[2..4][1];
    if data.Word? && data.value < 0x1_0000_0000 {
      var w := BigEndian(data.value);
      WordReads(data.value);
      assert b[4] == w[0] && b[5] == w[1] && b[6] == w[2] && b[7] == w[3];
    }
  }

  /** The fields of a transmit frame. */
  lemma TransmitReads(address: Bytes, packet: Bytes, id: byte)
    requires |address| == 8 && |packet| == 48
    ensures var f := Framed(TransmitBody(address, packet, id));
            && |f| == 66 && f[0] == 0x7E && f[1] == 0 && f[2] == 62 && f[3] == 0x10 && f[4] == id
            && f[5..13] == address && f[13..17] == [0xFF, 0xFE, 0, 0] && f[17..65] == packet
  {
    var b := TransmitBody(address, packet, id);
    HeaderReads(b);
    var f := Framed(b);
    assert b[2..10] == address && b[10..14] == [0xFF, 0xFE, 0, 0] && b[14..62] == packet;
    assert f[3..65] == b;
    assert f[5..13] == f[3..65][2..10] && f[13..17] == f[3..65][10..14] && f[17..65] == f[3..65][14..62];
  }

  /** What goes in and out by the port.  A read takes what is asked for as long as
      bytes are left. */
  class SerialPort {
    var incoming: Bytes
    var outgoing: Bytes

    constructor (incoming: Bytes)
      ensures this.incoming == incoming && outgoing == []
    {
      this.incoming := incoming;
      outgoing := [];
    }

    method Read(n: nat) returns (data: Bytes)
      modifies this`incoming
      ensures data + incoming == old(incoming) && |data| == if n < |old(incoming)| then n else |old(incoming)|
    {
      var k := if n < |incoming| then n else |incoming|;
      data := incoming[..k];
      incoming := incoming[k..];
    }

    method Write(buffer: array<byte>, n: nat)
      requires n <= buffer.Length
      modifies this`outgoing
      ensures outgoing == old(outgoing) + buffer[..n]
    {
      outgoing := outgoing + buffer[..n];
    }
  }

  /** `XBAPI_CommandInternal`: a zeroed frame filled in, sent and kept. */
  method CommandInternal(port: SerialPort, command: nat, data: Data, id: byte) returns (frame: array<byte>)
    modifies port`outgoing
    ensures fresh(frame) && frame.Length == FRAME_SIZE
    ensures port.outgoing == old(port.outgoing) + Framed(CommandBody(command, data, id))
    ensures frame[..] == Padded(Framed(CommandBody(command, data, id)))
  {
    frame := new byte[FRAME_SIZE](i => 0);
    var atCmdLength := 8 + (if data.Word? then 4 else 0);
    ghost var body := CommandBody(command, data, id);
    FillCommand(frame, command, data, id);
    AtSlice(frame[..], 3, body);
    assert frame[3..atCmdLength - 1] == frame[..][3..atCmdLength - 1];
    var sum := Checksum(frame, 3, atCmdLength - 4);
    frame[atCmdLength - 1] := sum;
    assert frame[3..atCmdLength - 1] == body;
    FrameIsFramed(frame, body);
    port.Write(frame, atCmdLength);
  }

  /** The fields of the frame but for the checksum. */
  method FillCommand(frame: array<byte>, command: nat, data: Data, id: byte)
    requires frame.Length == FRAME_SIZE && forall k :: 0 <= k < FRAME_SIZE ==> frame[k] == 0
    modifies frame
    ensures frame[0] == START_DELIMITER && frame[1] == 0 && frame[2] == |CommandBody(command, data, id)|
    ensures At(frame[..], 3, CommandBody(command, data, id))
    ensures forall k :: 3 + |CommandBody(command, data, id)| <= k < FRAME_SIZE ==> frame[k] == 0
  {
    var atCmdLength := 8 + (if data.Word? then 4 else 0);
    frame[0] := START_DELIMITER;
    frame[1], frame[2] := (atCmdLength - 4) / 0x100, (atCmdLength - 4) % 0x100;
    frame[3], frame[4] := API_AT_CMD_FRAME, id;
    frame[5], frame[6] := command % 0x100, command / 0x100 % 0x100;
    if data.Word? {
      var n := data.value;
      frame[7], frame[8] := n / 0x100_0000 % 0x100, n / 0x1_0000 % 0x100;
      frame[9], frame[10] := n / 0x100 % 0x100, n % 0x100;
    }
    ghost var all := frame[..];
    assert At(all, 3, [API_AT_CMD_FRAME, id]) && At(all, 5, LittleEndian16(command));
    AtAppend(all, 3, [API_AT_CMD_FRAME, id], LittleEndian16(command));
    if data.Word? {
      assert At(all, 7, BigEndian(data.value));
      AtAppend(all, 3, [API_AT_CMD_FRAME, id] + LittleEndian16(command), BigEndian(data.value));
    } else {
      AtAppend(all, 3, [API_AT_CMD_FRAME, id] + LittleEndian16(command), []);
    }
  }

  lemma FrameIsFramed(frame: array<byte>, body: Bytes)
    requires frame.Length == FRAME_SIZE && |body| <= 124
    requires frame[0] == START_DELIMITER && frame[1] == 0 && frame[2] == |body|
    requires frame[3..3 + |body|] == body && frame[3 + |body|] == ChecksumOf(body)
    ensures frame[..4 + |body|] == Framed(body)
    ensures (forall k :: 4 + |body| <= k < FRAME_SIZE ==> frame[k] == 0) ==> frame[..] == Padded(Framed(body))
  {
    assert frame[..4 + |body|] == frame[..3] + frame[3..3 + |body|] + [frame[3 + |body|]];
    assert frame[..] == frame[..4 + |body|] + frame[4 + |body|..];
  }

  /** The bytes of a frame at the start of a zeroed buffer. */
  function Padded(wire: Bytes): (image: Bytes)
    requires |wire| <= FRAME_SIZE
    ensures |image| == FRAME_SIZE && image[..|wire|] == wire
  {
    wire + seq(FRAME_SIZE - |wire|, i => 0)
  }

  method CopyBytes(frame: array<byte>, start: nat, source: Bytes)
    requires start + |source| <= frame.Length
    modifies frame
    ensures At(frame[..], start, source)
    ensures forall k :: 0 <= k < start || start + |source| <= k < frame.Length ==> frame[k] == old(frame[k])
  {
    forall k | 0 <= k < |source| {
      frame[start + k] := source[k];
    }
  }

  /** `XBAPI_TransmitInternal` for a buffer of the second packet revision's size or
      more: the first 48 bytes go out. */
  method TransmitInternal(port: SerialPort, address: Bytes, buffer: Bytes, id: byte) returns (frame: array<byte>)
    requires |address| == 8 && |buffer| >= PACKET_SIZE
    modifies port`outgoing
    ensures fresh(frame) && frame.Length == FRAME_SIZE
    ensures port.outgoing == old(port.outgoing) + Framed(TransmitBody(address, buffer[..PACKET_SIZE], id))
    ensures frame[..66] == Framed(TransmitBody(address, buffer[..PACKET_SIZE], id))
  {
    var packet := buffer[..PACKET_SIZE];
    ghost var body := TransmitBody(address, packet, id);
    frame := new byte[FRAME_SIZE];
    var size := 66;
    FillTransmit(frame, address, packet, id);
    AtSlice(frame[..], 3, body);
    assert frame[3..65] == frame[..][3..65];
    var sum := Checksum(frame, 3, size - 4);
    frame[65] := sum;
    assert frame[3..65] == body;
    FrameIsFramed(frame, body);
    port.Write(frame, size);
  }

  /** The bytes `b` stand in `s` from `i` on. */
  predicate At(s: Bytes, i: nat, b: Bytes) {
    i + |b| <= |s| && forall k :: 0 <= k < |b| ==> s[i + k] == b[k]
  }

  lemma AtAppend(s: Bytes, i: nat, a: Bytes, b: Bytes)
    requires At(s, i, a) && At(s, i + |a|, b)
    ensures At(s, i, a + b)
  {
    forall k | 0 <= k < |a + b| ensures s[i + k] == (a + b)[k] {
      if k >= |a| {
        assert s[i + |a| + (k - |a|)] == b[k - |a|];
      }
    }
  }

  lemma AtSlice(s: Bytes, i: nat, b: Bytes)
    requires At(s, i, b)
    ensures s[i..i + |b|] == b
  {
  }

  method FillTransmit(frame: array<byte>, address: Bytes, packet: Bytes, id: byte)
    requires |address| == 8 && |packet| == PACKET_SIZE && frame.Length == FRAME_SIZE
    modifies frame
    ensures frame[0] == START_DELIMITER && frame[1] == 0 && frame[2] == 62
    ensures At(frame[..], 3, TransmitBody(address, packet, id))
  {
    var size := 66;
    frame[0], frame[1], frame[2] := START_DELIMITER, (size - 4) / 0x100, (size - 4) % 0x100;
    frame[4], frame[3] := id, API_TRANSMIT_FRAME;
    CopyBytes(frame, 5, address);
    frame[13], frame[14] := 0xFF, 0xFE;
    frame[15], frame[16] := 0, 0;
    CopyBytes(frame, 17, packet);
    ghost var all := frame[..];
    assert At(all, 3, [API_TRANSMIT_FRAME, id]) && At(all, 5, address);
    assert At(all, 13, [0xFF, 0xFE, 0, 0]) && At(all, 17, packet);
    AtAppend(all, 3, [API_TRANSMIT_FRAME, id], address);
    AtAppend(all, 3, [API_TRANSMIT_FRAME, id] + address, [0xFF, 0xFE, 0, 0]);
    AtAppend(all, 3, [API_TRANSMIT_FRAME, id] + address + [0xFF, 0xFE, 0, 0], packet);
  }
}
