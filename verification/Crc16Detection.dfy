/**
 What the CRC of `Crc16` detects, for messages of any length.
 */
module Crc16Detection {
  import opened Crc16

  /** The bit-wise difference of two bit sequences. */
  function Difference(a: seq<bool>, b: seq<bool>): (d: seq<bool>)
    requires |a| == |b|
    ensures |d| == |a|
  {
    seq(|a|, i requires 0 <= i < |a| => a[i] != b[i])
  }

  // ----- linearity -----

  lemma StepsNoFeedback(r: bv16, r': bv16, s: bv16, x: bool, x': bool)
    requires s == r ^ r'
    requires (r & 0x8000 != 0) == x && (r' & 0x8000 != 0) == x'
    ensures Step(r, x) ^ Step(r', x') == Step(s, x != x')
  {
  }

  lemma StepsFeedbackLeft(r: bv16, r': bv16, s: bv16, x: bool, x': bool)
    requires s == r ^ r'
    requires (r & 0x8000 != 0) != x && (r' & 0x8000 != 0) == x'
    ensures Step(r, x) ^ Step(r', x') == Step(s, x != x')
  {
  }

  lemma StepsFeedbackRight(r: bv16, r': bv16, s: bv16, x: bool, x': bool)
    requires s == r ^ r'
    requires (r & 0x8000 != 0) == x && (r' & 0x8000 != 0) != x'
    ensures Step(r, x) ^ Step(r', x') == Step(s, x != x')
  {
  }

  lemma StepsFeedbackBoth(r: bv16, r': bv16, s: bv16, x: bool, x': bool)
    requires s == r ^ r'
    requires (r & 0x8000 != 0) != x && (r' & 0x8000 != 0) != x'
    ensures Step(r, x) ^ Step(r', x') == Step(s, x != x')
  {
  }

  /** Adding two registers and two message bits adds the results. */
  lemma StepIsLinear(r: bv16, r': bv16, s: bv16, x: bool, x': bool)
    requires s == r ^ r'
    ensures Step(r, x) ^ Step(r', x') == Step(s, x != x')
  {
    if (r & 0x8000 != 0) != x {
      if (r' & 0x8000 != 0) != x' {
        StepsFeedbackBoth(r, r', s, x, x');
      } else {
        StepsFeedbackLeft(r, r', s, x, x');
      }
    } else {
      if (r' & 0x8000 != 0) != x' {
        StepsFeedbackRight(r, r', s, x, x');
      } else {
        StepsNoFeedback(r, r', s, x, x');
      }
    }
  }

  predicate IsSum(r: bv16, r': bv16, s: bv16) {
    r ^ r' == s
  }

  lemma StepKeepsSum(r: bv16, r': bv16, s: bv16, x: bool, x': bool, y: bool,
                     t: bv16, t': bv16, u: bv16)
    requires IsSum(r, r', s) && y == (x != x')
    requires t == Step(r, x) && t' == Step(r', x') && u == Step(s, y)
    ensures IsSum(t, t', u)
  {
    StepIsLinear(r, r', s, x, x');
  }

  lemma FeedLast(reg: bv16, bits: seq<bool>, k: nat)
    requires k + 1 == |bits|
    ensures Feed(reg, bits) == Step(Feed(reg, bits[..k]), bits[k])
  {
  }

  lemma {:induction false} FeedKeepsSum(r: bv16, r': bv16, s: bv16, a: seq<bool>, b: seq<bool>, d: seq<bool>)
    requires |a| == |b| && d == Difference(a, b)
    requires IsSum(r, r', s)
    ensures IsSum(Feed(r, a), Feed(r', b), Feed(s, d))
  {
    if a != [] {
      var k := |a| - 1;
      FeedKeepsSum(r, r', s, a[..k], b[..k], d[..k]);
      FeedLast(r, a, k);
      FeedLast(r', b, k);
      FeedLast(s, d, k);
      StepKeepsSum(Feed(r, a[..k]), Feed(r', b[..k]), Feed(s, d[..k]), a[k], b[k], d[k],
                   Feed(r, a), Feed(r', b), Feed(s, d));
    }
  }

  /** The difference of two CRCs is what the difference of the messages leaves in
      a register that starts from zero. */
  lemma {:induction false} CrcIsAffine(m: seq<bv8>, m': seq<bv8>)
    requires |m| == |m'|
    ensures Crc(m) ^ Crc(m') == Feed(0, Difference(MessageBits(m), MessageBits(m')))
  {
    FeedKeepsSum(INITIAL, INITIAL, 0, MessageBits(m), MessageBits(m'),
                 Difference(MessageBits(m), MessageBits(m')));
  }

  /** For messages of equal length it depends on nothing but their difference. */
  lemma {:induction false} DifferenceDetermines(m: seq<bv8>, m': seq<bv8>, n: seq<bv8>, n': seq<bv8>)
    requires |m| == |m'| == |n| == |n'|
    requires Difference(MessageBits(m), MessageBits(m')) == Difference(MessageBits(n), MessageBits(n'))
    ensures Crc(m) ^ Crc(m') == Crc(n) ^ Crc(n')
  {
    CrcIsAffine(m, m');
    CrcIsAffine(n, n');
  }

  // ----- the zero-input step loses nothing -----

  lemma {:induction false} ZerosKeepZero(bits: seq<bool>)
    requires forall i :: 0 <= i < |bits| ==> !bits[i]
    ensures Feed(0, bits) == 0
  {
    if bits != [] {
      ZerosKeepZero(bits[..|bits| - 1]);
    }
  }

  lemma ZeroStepIsInjective(reg: bv16, after: bv16)
    requires after == Step(reg, false)
    ensures after == 0 ==> reg == 0
  {
  }

  lemma {:induction false} ZerosKeepNonzero(reg: bv16, bits: seq<bool>)
    requires reg != 0
    requires forall i :: 0 <= i < |bits| ==> !bits[i]
    ensures Feed(reg, bits) != 0
  {
    if bits != [] {
      var before := Feed(reg, bits[..|bits| - 1]);
      ZerosKeepNonzero(reg, bits[..|bits| - 1]);
      ZeroStepIsInjective(before, Feed(reg, bits));
    }
  }

  // ----- bursts -----

  /** The mask of the `n` lowest register bits. */
  function LowMask(n: nat): bv16
    requires n <= 16
  {
    if n == 0 then 0 else (LowMask(n - 1) << 1) | 1
  }

  lemma MaskValue(n: nat)
    requires n <= 15
    ensures LowMask(n) <= 0x7FFF && (n < 15 ==> LowMask(n) <= 0x3FFF)
  {
    assert LowMask(0) == 0;
    assert LowMask(1) == 0x1;
    assert LowMask(2) == 0x3;
    assert LowMask(3) == 0x7;
    assert LowMask(4) == 0xF;
    assert LowMask(5) == 0x1F;
    assert LowMask(6) == 0x3F;
    assert LowMask(7) == 0x7F;
    assert LowMask(8) == 0xFF;
    assert LowMask(9) == 0x1FF;
    assert LowMask(10) == 0x3FF;
    assert LowMask(11) == 0x7FF;
    assert LowMask(12) == 0xFFF;
    assert LowMask(13) == 0x1FFF;
    assert LowMask(14) == 0x3FFF;
    assert LowMask(15) == 0x7FFF;
  }

  lemma LowMaskLeavesTop(n: nat)
    requires n <= 15
    ensures LowMask(n) & 0x8000 == 0
    ensures n < 15 ==> LowMask(n) & 0x4000 == 0
  {
    MaskValue(n);
  }

  /** A step whose result is even was fed the bit it pushed out. */
  lemma StepBackwards(before: bv16, bit: bool, after: bv16, mask: bv16)
    requires after == Step(before, bit)
    requires mask & 0x8000 == 0
    requires after & ((mask << 1) | 1) == 0
    ensures before & mask == 0
    ensures before == 0 ==> !bit && after == 0
  {
  }

  /** The register's `n` lowest bits are zero after this input. */
  predicate LeavesLowZeros(bits: seq<bool>, n: nat)
    requires n <= 16
  {
    Feed(0, bits) & LowMask(n) == 0
  }

  predicate AllZero(bits: seq<bool>) {
    forall i :: 0 <= i < |bits| ==> !bits[i]
  }

  lemma WithoutLast(bits: seq<bool>, n: nat)
    requires bits != [] && 0 < n <= 16 && LeavesLowZeros(bits, n)
    ensures LeavesLowZeros(bits[..|bits| - 1], n - 1)
    ensures Feed(0, bits[..|bits| - 1]) == 0 ==> !bits[|bits| - 1] && Feed(0, bits) == 0
  {
    LowMaskLeavesTop(n - 1);
    StepBackwards(Feed(0, bits[..|bits| - 1]), bits[|bits| - 1], Feed(0, bits), LowMask(n - 1));
  }

  /** No nonzero input of at most `n` bits takes the zero register to a value
      whose `n` lowest bits are zero. */
  lemma {:induction false} ShortInputShows(bits: seq<bool>, n: nat)
    requires |bits| <= n <= 16 && LeavesLowZeros(bits, n)
    ensures AllZero(bits) && Feed(0, bits) == 0
  {
    if bits != [] {
      WithoutLast(bits, n);
      ShortInputShows(bits[..|bits| - 1], n - 1);
    }
  }

  /** The bits of a difference that lie in a window of 16 bits. */
  ghost predicate Burst(d: seq<bool>, start: nat) {
    forall i :: 0 <= i < |d| && d[i] ==> start <= i < start + 16
  }

  lemma CoreLeavesTrace(core: seq<bool>, one: nat)
    requires |core| <= 16 && one < |core| && core[one]
    ensures Feed(0, core) != 0
  {
    if Feed(0, core) == 0 {
      ShortInputShows(core, 16);
      assert false;
    }
  }

  lemma FeedThree(reg: bv16, lead: seq<bool>, core: seq<bool>, tail: seq<bool>)
    ensures Feed(reg, lead + core + tail) == Feed(Feed(Feed(reg, lead), core), tail)
  {
    FeedAppend(reg, lead, core);
    FeedAppend(reg, lead + core, tail);
  }

  lemma ThreeParts(d: seq<bool>, i: nat, j: nat)
    requires i <= j <= |d|
    ensures d == d[..i] + d[i..j] + d[j..]
  {
  }

  lemma BurstEdges(d: seq<bool>, start: nat, stop: nat)
    requires Burst(d, start)
    requires start <= stop <= |d| && (stop == start + 16 || stop == |d|)
    ensures forall i :: 0 <= i < start ==> !d[..start][i]
    ensures forall i :: 0 <= i < |d| - stop ==> !d[stop..][i]
  {
  }

  lemma BurstLeavesTrace(d: seq<bool>, start: nat, one: nat)
    requires Burst(d, start)
    requires one < |d| && d[one]
    ensures Feed(0, d) != 0
  {
    var stop := if start + 16 < |d| then start + 16 else |d|;
    var lead, core, tail := d[..start], d[start..stop], d[stop..];
    ThreeParts(d, start, stop);
    FeedThree(0, lead, core, tail);
    BurstEdges(d, start, stop);
    ZerosKeepZero(lead);
    CoreLeavesTrace(core, one - start);
    ZerosKeepNonzero(Feed(0, core), tail);
  }

  // ----- bits and bytes -----

  lemma {:induction false} MessageBitsInjective(m: seq<bv8>, m': seq<bv8>)
    requires |m| == |m'| && MessageBits(m) == MessageBits(m')
    ensures m == m'
  {
    if m != [] {
      var k := |m| - 1;
      assert MessageBits(m)[8 * k..] == ByteBits(m[k]);
      assert MessageBits(m')[8 * k..] == ByteBits(m'[k]);
      ByteBitsInjective(m[k], m'[k]);
      assert MessageBits(m)[..8 * k] == MessageBits(m[..k]);
      assert MessageBits(m')[..8 * k] == MessageBits(m'[..k]);
      MessageBitsInjective(m[..k], m'[..k]);
      assert m == m[..k] + [m[k]] && m' == m'[..k] + [m'[k]];
    }
  }

  lemma XorShows(x: bv16, y: bv16)
    ensures x ^ y == 0 <==> x == y
  {
  }

  /** Any change confined to 16 consecutive bits changes the CRC. */
  lemma {:induction false} BurstIsDetected(m: seq<bv8>, m': seq<bv8>, start: nat)
    requires |m| == |m'| && m != m'
    requires Burst(Difference(MessageBits(m), MessageBits(m')), start)
    ensures Crc(m) != Crc(m')
  {
    var b, b' := MessageBits(m), MessageBits(m');
    if forall i :: 0 <= i < |b| ==> b[i] == b'[i] {
      assert b == b';
      MessageBitsInjective(m, m');
      assert false;
    }
    var i :| 0 <= i < |b| && b[i] != b'[i];
    assert Difference(b, b')[i];
    CrcIsAffine(m, m');
    BurstLeavesTrace(Difference(b, b'), start, i);
    XorShows(Crc(m), Crc(m'));
  }

  // ----- the residue -----

  lemma ShiftedTop(reg: bv16)
    ensures ((reg << 1) & 0x8000 != 0) == (reg & 0x4000 != 0)
    ensures (((reg << 1) << 1) & 0x8000 != 0) == (reg & 0x2000 != 0)
    ensures ((((reg << 1) << 1) << 1) & 0x8000 != 0) == (reg & 0x1000 != 0)
    ensures (((reg << 1) << 1) << 1) << 1 == reg << 4
  {
  }

  /** A register fed its own top bit only shifts. */
  lemma OwnNextCancels(reg: bv16, bit: bool, next: bv16)
    requires bit == (reg & 0x8000 != 0) && next == reg << 1
    ensures Step(reg, bit) == next
  {
  }

  lemma OwnNibbleCancels(reg: bv16, b3: bool, b2: bool, b1: bool, b0: bool)
    requires b3 == (reg & 0x8000 != 0) && b2 == (reg & 0x4000 != 0)
    requires b1 == (reg & 0x2000 != 0) && b0 == (reg & 0x1000 != 0)
    ensures Step4(reg, b3, b2, b1, b0) == reg << 4
  {
    ShiftedTop(reg);
    var r1 := reg << 1;
    var r2 := r1 << 1;
    var r3 := r2 << 1;
    OwnNextCancels(reg, b3, r1);
    OwnNextCancels(r1, b2, r2);
    OwnNextCancels(r2, b1, r3);
    OwnNextCancels(r3, b0, reg << 4);
  }

  lemma OwnByteCancels(reg: bv16, b: bv8)
    requires b == HighByte(reg)
    ensures StepByte(reg, b) == reg << 8
  {
    OwnNibbleCancels(reg, b & 0x80 != 0, b & 0x40 != 0, b & 0x20 != 0, b & 0x10 != 0);
    OwnNibbleCancels(reg << 4, b & 0x08 != 0, b & 0x04 != 0, b & 0x02 != 0, b & 0x01 != 0);
  }

  lemma ShiftedLow(reg: bv16)
    ensures LowByte(reg) == HighByte(reg << 8) && (reg << 8) << 8 == 0
  {
  }

  lemma OwnBytesCancel(reg: bv16)
    ensures StepByte(StepByte(reg, HighByte(reg)), LowByte(reg)) == 0
  {
    OwnByteCancels(reg, HighByte(reg));
    ShiftedLow(reg);
    OwnByteCancels(reg << 8, LowByte(reg));
  }

  lemma CrcOfTwoMore(msg: seq<bv8>, high: bv8, low: bv8)
    ensures Crc(msg + [high, low]) == StepByte(StepByte(Crc(msg), high), low)
  {
    assert msg + [high, low] == (msg + [high]) + [low];
    MessageBitsAppend(msg, high);
    MessageBitsAppend(msg + [high], low);
    FeedAppend(INITIAL, MessageBits(msg), ByteBits(high));
    FeedAppend(INITIAL, MessageBits(msg + [high]), ByteBits(low));
    FeedByte(Crc(msg), high);
    FeedByte(Crc(msg + [high]), low);
  }

  lemma TwoMoreBits(msg: seq<bv8>, a: bv8, b: bv8) returns (last: seq<bool>)
    ensures |last| == 16 && MessageBits(msg + [a, b]) == MessageBits(msg) + last
  {
    assert msg + [a, b] == (msg + [a]) + [b];
    MessageBitsAppend(msg, a);
    MessageBitsAppend(msg + [a], b);
    last := ByteBits(a) + ByteBits(b);
    assert MessageBits(msg) + ByteBits(a) + ByteBits(b) == MessageBits(msg) + last;
  }

  lemma TailDiffers(p: seq<bool>, x: seq<bool>, y: seq<bool>)
    requires |x| == |y| == 16
    ensures Burst(Difference(p + x, p + y), |p|)
  {
  }

  lemma TailIsBurst(msg: seq<bv8>, a: bv8, b: bv8, c: bv8, d: bv8)
    ensures Burst(Difference(MessageBits(msg + [a, b]), MessageBits(msg + [c, d])), 8 * |msg|)
  {
    var x := TwoMoreBits(msg, a, b);
    var y := TwoMoreBits(msg, c, d);
    TailDiffers(MessageBits(msg), x, y);
  }

  /** A message followed by two bytes has CRC 0 exactly when those bytes are the
      high and then the low byte of the message's own CRC. */
  lemma Residue(msg: seq<bv8>, high: bv8, low: bv8)
    ensures Crc(msg + [high, low]) == 0 <==> (high == HighByte(Crc(msg)) && low == LowByte(Crc(msg)))
  {
    var h, l := HighByte(Crc(msg)), LowByte(Crc(msg));
    CrcOfTwoMore(msg, h, l);
    OwnBytesCancel(Crc(msg));
    if !(high == h && low == l) {
      var m, m' := msg + [high, low], msg + [h, l];
      assert m[|msg|] == high && m[|msg| + 1] == low && m'[|msg|] == h && m'[|msg| + 1] == l;
      TailIsBurst(msg, high, low, h, l);
      BurstIsDetected(m, m', 8 * |msg|);
    }
  }
}
