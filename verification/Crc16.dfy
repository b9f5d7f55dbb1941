/**
 The 16-bit cyclic redundancy check of `src/crc16.cpp`.

 The source keeps an 8+8 bit register and consumes four message bits at a time
 through two lookup tables.  `Register` is that code; `Feed` is the bit-serial
 shift register it stands for, and every property is proved about `Feed`.
 */
module Crc16 {

  const POLYNOMIAL: bv16 := 0x1021
  const INITIAL: bv16 := 0xFFFF

  const LOOKUP_HIGH: seq<bv8> := [
    0x00, 0x10, 0x20, 0x30, 0x40, 0x50, 0x60, 0x70,
    0x81, 0x91, 0xA1, 0xB1, 0xC1, 0xD1, 0xE1, 0xF1
  ]

  const LOOKUP_LOW: seq<bv8> := [
    0x00, 0x21, 0x42, 0x63, 0x84, 0xA5, 0xC6, 0xE7,
    0x08, 0x29, 0x4A, 0x6B, 0x8C, 0xAD, 0xCE, 0xEF
  ]

  // ----- the bit-serial register -----

  /** One message bit through the shift register: shift left, and add the
      generator when the bit shifted out differs from the message bit. */
  function Step(reg: bv16, bit: bool): bv16 {
    if (reg & 0x8000 != 0) != bit then (reg << 1) ^ POLYNOMIAL else reg << 1
  }

  function Feed(reg: bv16, bits: seq<bool>): bv16 {
    if bits == [] then reg else Step(Feed(reg, bits[..|bits| - 1]), bits[|bits| - 1])
  }

  /** The bits of a byte, most significant first. */
  function ByteBits(b: bv8): (bits: seq<bool>)
    ensures |bits| == 8
  {
    [b & 0x80 != 0, b & 0x40 != 0, b & 0x20 != 0, b & 0x10 != 0,
     b & 0x08 != 0, b & 0x04 != 0, b & 0x02 != 0, b & 0x01 != 0]
  }

  lemma ByteBitsInjective(x: bv8, y: bv8)
    requires ByteBits(x) == ByteBits(y)
    ensures x == y
  {
    assert ByteBits(x)[0] == ByteBits(y)[0] && ByteBits(x)[1] == ByteBits(y)[1];
    assert ByteBits(x)[2] == ByteBits(y)[2] && ByteBits(x)[3] == ByteBits(y)[3];
    assert ByteBits(x)[4] == ByteBits(y)[4] && ByteBits(x)[5] == ByteBits(y)[5];
    assert ByteBits(x)[6] == ByteBits(y)[6] && ByteBits(x)[7] == ByteBits(y)[7];
  }

  function MessageBits(msg: seq<bv8>): (bits: seq<bool>)
    ensures |bits| == 8 * |msg|
  {
    if msg == [] then [] else MessageBits(msg[..|msg| - 1]) + ByteBits(msg[|msg| - 1])
  }

  /** The CRC of a message: the bit-serial register run from 0xFFFF. */
  function Crc(msg: seq<bv8>): bv16 {
    Feed(INITIAL, MessageBits(msg))
  }

  function HighByte(reg: bv16): bv8 {
    (reg >> 8) as bv8
  }

  function LowByte(reg: bv16): bv8 {
    (reg & 0xFF) as bv8
  }

  function Pair(high: bv8, low: bv8): bv16 {
    ((high as bv16) << 8) | (low as bv16)
  }

  /** Four and eight steps unrolled, the form the bit-vector proofs use. */
  function Step4(reg: bv16, b3: bool, b2: bool, b1: bool, b0: bool): bv16 {
    Step(Step(Step(Step(reg, b3), b2), b1), b0)
  }

  function StepByte(reg: bv16, b: bv8): bv16 {
    Step4(Step4(reg, b & 0x80 != 0, b & 0x40 != 0, b & 0x20 != 0, b & 0x10 != 0),
          b & 0x08 != 0, b & 0x04 != 0, b & 0x02 != 0, b & 0x01 != 0)
  }

  lemma {:induction false} FeedAppend(reg: bv16, a: seq<bool>, b: seq<bool>)
    ensures Feed(reg, a + b) == Feed(Feed(reg, a), b)
  {
    if b == [] {
      assert a + b == a;
    } else {
      assert (a + b)[..|a + b| - 1] == a + b[..|b| - 1];
      FeedAppend(reg, a, b[..|b| - 1]);
    }
  }

  lemma FeedOne(reg: bv16, x: bool)
    ensures Feed(reg, [x]) == Step(reg, x)
  {
    assert [x][..0] == [];
    assert Feed(reg, [x]) == Step(Feed(reg, [x][..0]), x);
  }

  lemma FeedFour(reg: bv16, a: bool, b: bool, c: bool, d: bool)
    ensures Feed(reg, [a, b, c, d]) == Step4(reg, a, b, c, d)
  {
    assert [a, b, c, d][..3] == [a, b, c];
    assert [a, b, c][..2] == [a, b];
    assert [a, b][..1] == [a];
    FeedOne(reg, a);
    assert Feed(reg, [a, b]) == Step(Feed(reg, [a]), b);
    assert Feed(reg, [a, b, c]) == Step(Feed(reg, [a, b]), c);
  }

  lemma FeedByte(reg: bv16, b: bv8)
    ensures Feed(reg, ByteBits(b)) == StepByte(reg, b)
  {
    var bits := ByteBits(b);
    assert bits == bits[..4] + bits[4..];
    FeedAppend(reg, bits[..4], bits[4..]);
    FeedFour(reg, bits[0], bits[1], bits[2], bits[3]);
    assert bits[..4] == [bits[0], bits[1], bits[2], bits[3]];
    assert bits[4..] == [bits[4], bits[5], bits[6], bits[7]];
    FeedFour(Feed(reg, bits[..4]), bits[4], bits[5], bits[6], bits[7]);
  }

  lemma MessageBitsAppend(msg: seq<bv8>, b: bv8)
    ensures MessageBits(msg + [b]) == MessageBits(msg) + ByteBits(b)
  {
    assert (msg + [b])[..|msg|] == msg;
  }

  lemma CrcOfOneMore(msg: seq<bv8>, n: nat)
    requires n < |msg|
    ensures Crc(msg[..n + 1]) == StepByte(Crc(msg[..n]), msg[n])
  {
    assert msg[..n + 1] == msg[..n] + [msg[n]];
    MessageBitsAppend(msg[..n], msg[n]);
    FeedAppend(INITIAL, MessageBits(msg[..n]), ByteBits(msg[n]));
    FeedByte(Crc(msg[..n]), msg[n]);
  }

  lemma CheckStep(msg: seq<bv8>, n: nat, before: bv16, after: bv16)
    requires n < |msg| && Crc(msg[..n]) == before && StepByte(before, msg[n]) == after
    ensures Crc(msg[..n + 1]) == after
  {
    CrcOfOneMore(msg, n);
  }

  /** The check value of the CRC: that of the nine digits "123456789". */
  lemma CheckValue(msg: seq<bv8>)
    requires msg == [0x31, 0x32, 0x33, 0x34, 0x35, 0x36, 0x37, 0x38, 0x39]
    ensures Crc(msg) == 0x29B1
  {
    assert msg[..0] == [];
    CheckStep(msg, 0, 0xFFFF, 0xC782);
    CheckStep(msg, 1, 0xC782, 0x3DBA);
    CheckStep(msg, 2, 0x3DBA, 0x5BCE);
    CheckStep(msg, 3, 0x5BCE, 0x5349);
    CheckStep(msg, 4, 0x5349, 0x4560);
    CheckStep(msg, 5, 0x4560, 0x2EF4);
    CheckStep(msg, 6, 0x2EF4, 0x7718);
    CheckStep(msg, 7, 0x7718, 0xA12B);
    CheckStep(msg, 8, 0xA12B, 0x29B1);
    assert msg[..9] == msg;
  }

  // ----- the nibble tables -----

  /** Looking up `t` in both tables gives what four register steps leave of
      a register whose top four bits differ from the message bits by `t`. */
  lemma {:induction false} LookupIsFourSteps(t: bv8)
    requires t < 16
    ensures (t as int) < 16
    ensures Pair(LOOKUP_HIGH[t as int], LOOKUP_LOW[t as int]) ==
            Step4(0, t & 0x08 != 0, t & 0x04 != 0, t & 0x02 != 0, t & 0x01 != 0)
  {
    assert t == 0 || t == 1 || t == 2 || t == 3 || t == 4 || t == 5 || t == 6 || t == 7 ||
           t == 8 || t == 9 || t == 10 || t == 11 || t == 12 || t == 13 || t == 14 || t == 15;
  }

  /** The shift-and-xor arrangement of `CRC16_Update4Bits`, tables aside. */
  lemma NibbleStep(high: bv8, low: bv8, val: bv8, h: bv8, l: bv8)
    requires val < 16
    requires var t := (high >> 4) ^ val;
             Pair(h, l) == Step4(0, t & 0x08 != 0, t & 0x04 != 0, t & 0x02 != 0, t & 0x01 != 0)
    ensures (high >> 4) ^ val < 16
    ensures Pair(((high << 4) | (low >> 4)) ^ h, (low << 4) ^ l) ==
            Step4(Pair(high, low), val & 0x08 != 0, val & 0x04 != 0, val & 0x02 != 0, val & 0x01 != 0)
  {
  }

  lemma ByteIsTwoNibbles(reg: bv16, val: bv8)
    ensures var v := val >> 4; var w := val & 0x0F;
            StepByte(reg, val) ==
            Step4(Step4(reg, v & 0x08 != 0, v & 0x04 != 0, v & 0x02 != 0, v & 0x01 != 0),
                  w & 0x08 != 0, w & 0x04 != 0, w & 0x02 != 0, w & 0x01 != 0)
  {
  }

  /** The global register bytes CRC16_High and CRC16_Low with the routines that
      update them in place. */
  class Register {
    var high: bv8
    var low: bv8

    function Value(): bv16
      reads this
    {
      Pair(high, low)
    }

    constructor ()
      ensures Value() == INITIAL
    {
      high := 0xFF;
      low := 0xFF;
    }

    method Init()
      modifies this
      ensures Value() == INITIAL
    {
      high := 0xFF;
      low := 0xFF;
    }

    method Update4Bits(val: bv8)
      requires val < 16
      modifies this
      ensures Value() == Step4(old(Value()), val & 0x08 != 0, val & 0x04 != 0, val & 0x02 != 0, val & 0x01 != 0)
    {
      var t := high >> 4;
      t := t ^ val;
      assert t < 16;
      LookupIsFourSteps(t);
      NibbleStep(high, low, val, LOOKUP_HIGH[t as int], LOOKUP_LOW[t as int]);
      high := (high << 4) | (low >> 4);
      low := low << 4;
      high := high ^ LOOKUP_HIGH[t as int];
      low := low ^ LOOKUP_LOW[t as int];
    }

    method Update(val: bv8)
      modifies this
      ensures Value() == Feed(old(Value()), ByteBits(val))
    {
      ByteIsTwoNibbles(Value(), val);
      FeedByte(Value(), val);
      Update4Bits(val >> 4);
      Update4Bits(val & 0x0F);
    }

    /** `CRC16_Generate`: the first `len` bytes of the message. */
    method Generate(msg: array<bv8>, len: nat) returns (crc: bv16)
      requires len <= msg.Length
      modifies this
      ensures crc == Crc(msg[..len]) == Value()
      ensures crc == Feed(0xFFFF, MessageBits(msg[..len]))
    {
      Init();
      var i := 0;
      while i < len
        invariant 0 <= i <= len
        invariant Value() == Feed(INITIAL, MessageBits(msg[..i]))
      {
        assert msg[..i + 1] == msg[..i] + [msg[i]];
        MessageBitsAppend(msg[..i], msg[i]);
        FeedAppend(INITIAL, MessageBits(msg[..i]), ByteBits(msg[i]));
        Update(msg[i]);
        i := i + 1;
      }
      crc := ((high as bv16) << 8) | (low as bv16);
    }
  }
}
