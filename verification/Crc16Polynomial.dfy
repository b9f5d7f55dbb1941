/**
 The register of `Crc16` is polynomial division over GF(2) by
 x^16 + x^12 + x^5 + 1.

 A polynomial is the set of exponents whose coefficient is 1.
 */
module Crc16Polynomial {
  import opened Crc16

  type Poly = set<nat>

  function Plus(p: Poly, q: Poly): Poly {
    (p - q) + (q - p)
  }

  /** p * x^k */
  function Shift(p: Poly, k: nat): (r: Poly)
    ensures forall n: nat :: n in r <==> n >= k && n - k in p
  {
    var r := set e | e in p :: e + k;
    assert forall n: nat | n >= k && n - k in p :: n in r by {
      forall n: nat | n >= k && n - k in p ensures n in r {
        var e := n - k;
        assert e in p && e + k == n;
      }
    }
    r
  }

  /** q * (x^16 + x^12 + x^5 + 1) */
  function TimesGenerator(q: Poly): Poly {
    Plus(Plus(Shift(q, 16), Shift(q, 12)), Plus(Shift(q, 5), q))
  }

  predicate Coefficient(bits: seq<bool>, e: nat)
    requires e < |bits|
  {
    bits[|bits| - 1 - e]
  }

  /** A bit sequence read as coefficients, highest degree first. */
  function BitsPoly(bits: seq<bool>): (p: Poly)
    ensures forall e: nat :: e in p <==> e < |bits| && bits[|bits| - 1 - e]
  {
    set e: nat | e < |bits| && Coefficient(bits, e)
  }

  function RegisterBits(reg: bv16): (bits: seq<bool>)
    ensures |bits| == 16
  {
    [reg & 0x8000 != 0, reg & 0x4000 != 0, reg & 0x2000 != 0, reg & 0x1000 != 0,
     reg & 0x0800 != 0, reg & 0x0400 != 0, reg & 0x0200 != 0, reg & 0x0100 != 0,
     reg & 0x0080 != 0, reg & 0x0040 != 0, reg & 0x0020 != 0, reg & 0x0010 != 0,
     reg & 0x0008 != 0, reg & 0x0004 != 0, reg & 0x0002 != 0, reg & 0x0001 != 0]
  }

  function RegisterPoly(reg: bv16): Poly {
    BitsPoly(RegisterBits(reg))
  }

  /** message * x^16 + the register's first value * x^(number of message bits) */
  function Dividend(start: bv16, bits: seq<bool>): Poly {
    Plus(Shift(BitsPoly(bits), 16), Shift(RegisterPoly(start), |bits|))
  }

  ghost predicate Divides(dividend: Poly, quotient: Poly, remainder: Poly) {
    && dividend == Plus(TimesGenerator(quotient), remainder)
    && forall e: nat :: e in remainder ==> e < 16
  }

  ghost predicate IsRemainder(dividend: Poly, remainder: Poly) {
    exists quotient :: Divides(dividend, quotient, remainder)
  }

  /** Bit by bit, what a step without and with feedback does to the register. */
  lemma ShiftMasks(reg: bv16, s: bv16)
    requires s == reg << 1
    ensures (s & 0x8000 != 0) == (reg & 0x4000 != 0)
    ensures (s & 0x4000 != 0) == (reg & 0x2000 != 0)
    ensures (s & 0x2000 != 0) == (reg & 0x1000 != 0)
    ensures (s & 0x1000 != 0) == (reg & 0x0800 != 0)
    ensures (s & 0x0800 != 0) == (reg & 0x0400 != 0)
    ensures (s & 0x0400 != 0) == (reg & 0x0200 != 0)
    ensures (s & 0x0200 != 0) == (reg & 0x0100 != 0)
    ensures (s & 0x0100 != 0) == (reg & 0x0080 != 0)
    ensures (s & 0x0080 != 0) == (reg & 0x0040 != 0)
    ensures (s & 0x0040 != 0) == (reg & 0x0020 != 0)
    ensures (s & 0x0020 != 0) == (reg & 0x0010 != 0)
    ensures (s & 0x0010 != 0) == (reg & 0x0008 != 0)
    ensures (s & 0x0008 != 0) == (reg & 0x0004 != 0)
    ensures (s & 0x0004 != 0) == (reg & 0x0002 != 0)
    ensures (s & 0x0002 != 0) == (reg & 0x0001 != 0)
    ensures (s & 0x0001 != 0) == false
  {
  }

  lemma FeedbackMasks(reg: bv16, s: bv16)
    requires s == (reg << 1) ^ POLYNOMIAL
    ensures (s & 0x8000 != 0) == (reg & 0x4000 != 0)
    ensures (s & 0x4000 != 0) == (reg & 0x2000 != 0)
    ensures (s & 0x2000 != 0) == (reg & 0x1000 != 0)
    ensures (s & 0x1000 != 0) == (reg & 0x0800 == 0)
    ensures (s & 0x0800 != 0) == (reg & 0x0400 != 0)
    ensures (s & 0x0400 != 0) == (reg & 0x0200 != 0)
    ensures (s & 0x0200 != 0) == (reg & 0x0100 != 0)
    ensures (s & 0x0100 != 0) == (reg & 0x0080 != 0)
    ensures (s & 0x0080 != 0) == (reg & 0x0040 != 0)
    ensures (s & 0x0040 != 0) == (reg & 0x0020 != 0)
    ensures (s & 0x0020 != 0) == (reg & 0x0010 == 0)
    ensures (s & 0x0010 != 0) == (reg & 0x0008 != 0)
    ensures (s & 0x0008 != 0) == (reg & 0x0004 != 0)
    ensures (s & 0x0004 != 0) == (reg & 0x0002 != 0)
    ensures (s & 0x0002 != 0) == (reg & 0x0001 != 0)
    ensures (s & 0x0001 != 0) == true
  {
  }

  lemma ShiftBits(reg: bv16, s: bv16, b: seq<bool>)
    requires s == reg << 1 && b == RegisterBits(reg)
    ensures RegisterBits(s) == b[1..] + [false]
  {
    ShiftMasks(reg, s);
  }

  lemma FeedbackBits(reg: bv16, s: bv16, b: seq<bool>)
    requires s == (reg << 1) ^ POLYNOMIAL && b == RegisterBits(reg)
    ensures RegisterBits(s) == [b[1], b[2], b[3], !b[4], b[5], b[6], b[7], b[8],
                                b[9], b[10], !b[11], b[12], b[13], b[14], b[15], true]
  {
    FeedbackMasks(reg, s);
  }

  lemma FlippedTwice(b: seq<bool>)
    requires |b| == 16
    ensures (b[1..] + [true])[3 := !b[4]][10 := !b[11]] ==
            [b[1], b[2], b[3], !b[4], b[5], b[6], b[7], b[8],
             b[9], b[10], !b[11], b[12], b[13], b[14], b[15], true]
  {
  }

  function Constant(one: bool): Poly {
    if one then {0} else {}
  }

  lemma TimesGeneratorConstant(one: bool)
    ensures TimesGenerator(Constant(one)) == if one then {16, 12, 5, 0} else {}
  {
  }

  /** The same step on coefficients. */
  lemma StepCoefficients(b: seq<bool>, c: seq<bool>, bit: bool, f: bool)
    requires |b| == 16 && f == (b[0] != bit)
    requires c == if f then (b[1..] + [true])[3 := !b[4]][10 := !b[11]] else b[1..] + [false]
    ensures Plus(Shift(BitsPoly(b), 1), Shift(Constant(bit), 16)) ==
            Plus(TimesGenerator(Constant(f)), BitsPoly(c))
  {
    TimesGeneratorConstant(f);
    var left := Plus(Shift(BitsPoly(b), 1), Shift(Constant(bit), 16));
    var right := Plus(TimesGenerator(Constant(f)), BitsPoly(c));
    forall e: nat ensures e in left <==> e in right {
      assert e in left <==> ((1 <= e <= 16 && b[16 - e]) != (e == 16 && bit));
      assert e in right <==> ((f && (e == 16 || e == 12 || e == 5 || e == 0)) != (e < 16 && c[15 - e]));
      if e < 16 {
        assert c[15 - e] == ((e > 0 && b[16 - e]) != (f && (e == 12 || e == 5 || e == 0)));
      }
    }
  }

  /** One step multiplies the remainder by x, adds the message bit at x^16 and
      subtracts the generator when the result has degree 16. */
  lemma StepReduces(reg: bv16, bit: bool)
    ensures Plus(Shift(RegisterPoly(reg), 1), Shift(Constant(bit), 16)) ==
            Plus(TimesGenerator(Constant(RegisterBits(reg)[0] != bit)), RegisterPoly(Step(reg, bit)))
  {
    var b, c := RegisterBits(reg), RegisterBits(Step(reg, bit));
    if b[0] != bit {
      FeedbackBits(reg, Step(reg, bit), b);
      FlippedTwice(b);
    } else {
      ShiftBits(reg, Step(reg, bit), b);
    }
    StepCoefficients(b, c, bit, b[0] != bit);
  }

  lemma ShiftShift(p: Poly, j: nat, k: nat)
    ensures Shift(Shift(p, j), k) == Shift(p, j + k)
  {
  }

  lemma ShiftAdds(p: Poly, q: Poly, k: nat)
    ensures Shift(Plus(p, q), k) == Plus(Shift(p, k), Shift(q, k))
  {
  }

  lemma TimesGeneratorAdds(p: Poly, q: Poly)
    ensures TimesGenerator(Plus(p, q)) == Plus(TimesGenerator(p), TimesGenerator(q))
  {
  }

  lemma TimesGeneratorShifts(p: Poly, k: nat)
    ensures TimesGenerator(Shift(p, k)) == Shift(TimesGenerator(p), k)
  {
    ShiftShift(p, k, 16);
    ShiftShift(p, 16, k);
    ShiftShift(p, k, 12);
    ShiftShift(p, 12, k);
    ShiftShift(p, k, 5);
    ShiftShift(p, 5, k);
    ShiftAdds(Shift(p, 16), Shift(p, 12), k);
    ShiftAdds(Shift(p, 5), p, k);
    ShiftAdds(Plus(Shift(p, 16), Shift(p, 12)), Plus(Shift(p, 5), p), k);
  }

  lemma BitsPolyStep(bits: seq<bool>, bit: bool)
    ensures BitsPoly(bits + [bit]) == Plus(Shift(BitsPoly(bits), 1), Constant(bit))
  {
    var all := bits + [bit];
    forall e: nat
      ensures e in BitsPoly(all) <==> (e in Shift(BitsPoly(bits), 1) || e in Constant(bit))
    {
      if 0 < e < |all| {
        assert all[|all| - 1 - e] == bits[|bits| - 1 - (e - 1)];
      }
    }
  }

  lemma DividendAdds(p: Poly, q: Poly, c: Poly, n: nat)
    ensures Plus(Shift(Plus(Shift(p, 1), c), 16), Shift(q, n + 1)) ==
            Plus(Shift(Plus(Shift(p, 16), Shift(q, n)), 1), Shift(c, 16))
  {
  }

  lemma DividendStep(start: bv16, bits: seq<bool>, bit: bool)
    ensures Dividend(start, bits + [bit]) == Plus(Shift(Dividend(start, bits), 1), Shift(Constant(bit), 16))
  {
    BitsPolyStep(bits, bit);
    DividendAdds(BitsPoly(bits), RegisterPoly(start), Constant(bit), |bits|);
  }

  /** The quotient the register works out as it goes. */
  function Quotient(start: bv16, bits: seq<bool>): Poly {
    if bits == [] then {}
    else
      var before := bits[..|bits| - 1];
      Plus(Shift(Quotient(start, before), 1),
           Constant(RegisterBits(Feed(start, before))[0] != bits[|bits| - 1]))
  }

  lemma Regroup(qg: Poly, r: Poly, top: Poly, g: Poly, r': Poly)
    requires Plus(Shift(r, 1), top) == Plus(g, r')
    ensures Plus(Shift(Plus(qg, r), 1), top) == Plus(Plus(Shift(qg, 1), g), r')
  {
    forall e: nat
      ensures e in Plus(Shift(Plus(qg, r), 1), top) <==> e in Plus(Plus(Shift(qg, 1), g), r')
    {
      assert e in Plus(Shift(r, 1), top) <==> e in Plus(g, r');
    }
  }

  /** Wherever the register starts, it ends with the remainder. */
  lemma {:induction false} FeedDivides(start: bv16, bits: seq<bool>)
    ensures Divides(Dividend(start, bits), Quotient(start, bits), RegisterPoly(Feed(start, bits)))
  {
    if bits == [] {
      assert Shift(RegisterPoly(start), 0) == RegisterPoly(start);
      assert BitsPoly(bits) == {};
    } else {
      var before, bit := bits[..|bits| - 1], bits[|bits| - 1];
      var reg := Feed(start, before);
      var feedback := RegisterBits(reg)[0] != bit;
      FeedDivides(start, before);
      assert before + [bit] == bits;
      DividendStep(start, before, bit);
      StepReduces(reg, bit);
      TimesGeneratorAdds(Shift(Quotient(start, before), 1), Constant(feedback));
      TimesGeneratorShifts(Quotient(start, before), 1);
      Regroup(TimesGenerator(Quotient(start, before)), RegisterPoly(reg), Shift(Constant(bit), 16),
              TimesGenerator(Constant(feedback)), RegisterPoly(Step(reg, bit)));
    }
  }

  // ----- the remainder is unique -----

  lemma {:induction false} HighestExponent(p: Poly) returns (top: nat)
    requires p != {}
    ensures top in p && forall e :: e in p ==> e <= top
  {
    var x :| x in p;
    top := x;
    if p != {x} {
      var others := p - {x};
      assert p == others + {x};
      assert others != {};
      var rest := HighestExponent(others);
      top := if x > rest then x else rest;
    }
  }

  /** A nonzero multiple of the generator has degree at least 16. */
  lemma MultipleIsLarge(q: Poly)
    requires q != {}
    ensures exists e: nat :: e >= 16 && e in TimesGenerator(q)
  {
    var top := HighestExponent(q);
    assert top + 16 in TimesGenerator(q);
  }

  lemma {:induction false} DivisionIsUnique(dividend: Poly, q1: Poly, r1: Poly, q2: Poly, r2: Poly)
    requires Divides(dividend, q1, r1) && Divides(dividend, q2, r2)
    ensures q1 == q2 && r1 == r2
  {
    TimesGeneratorAdds(q1, q2);
    var m1, m2 := TimesGenerator(q1), TimesGenerator(q2);
    forall e: nat ensures e in Plus(m1, m2) <==> e in Plus(r1, r2) {
      assert e in Plus(m1, r1) <==> e in Plus(m2, r2);
    }
    if Plus(q1, q2) != {} {
      MultipleIsLarge(Plus(q1, q2));
    }
    forall e: nat ensures e in q1 <==> e in q2 {
      assert e !in Plus(q1, q2);
    }
    forall e: nat ensures e in r1 <==> e in r2 {
      assert e in Plus(m1, r1) <==> e in Plus(m2, r2);
    }
  }

  lemma HighMasks(r: bv16, h: bv8)
    requires h == HighByte(r)
    ensures (h & 0x80 != 0) == (r & 0x8000 != 0) && (h & 0x40 != 0) == (r & 0x4000 != 0)
    ensures (h & 0x20 != 0) == (r & 0x2000 != 0) && (h & 0x10 != 0) == (r & 0x1000 != 0)
    ensures (h & 0x08 != 0) == (r & 0x0800 != 0) && (h & 0x04 != 0) == (r & 0x0400 != 0)
    ensures (h & 0x02 != 0) == (r & 0x0200 != 0) && (h & 0x01 != 0) == (r & 0x0100 != 0)
  {
  }

  lemma LowMasks(r: bv16, l: bv8)
    requires l == LowByte(r)
    ensures (l & 0x80 != 0) == (r & 0x0080 != 0) && (l & 0x40 != 0) == (r & 0x0040 != 0)
    ensures (l & 0x20 != 0) == (r & 0x0020 != 0) && (l & 0x10 != 0) == (r & 0x0010 != 0)
    ensures (l & 0x08 != 0) == (r & 0x0008 != 0) && (l & 0x04 != 0) == (r & 0x0004 != 0)
    ensures (l & 0x02 != 0) == (r & 0x0002 != 0) && (l & 0x01 != 0) == (r & 0x0001 != 0)
  {
  }

  lemma HighBits(r: bv16, h: bv8, b: seq<bool>)
    requires h == HighByte(r) && b == RegisterBits(r)
    ensures b[..8] == ByteBits(h)
  {
    HighMasks(r, h);
  }

  lemma LowBits(r: bv16, l: bv8, b: seq<bool>)
    requires l == LowByte(r) && b == RegisterBits(r)
    ensures b[8..] == ByteBits(l)
  {
    LowMasks(r, l);
  }

  lemma BytesOf(r: bv16)
    ensures Pair(HighByte(r), LowByte(r)) == r
  {
  }

  lemma RegisterBitsInjective(r: bv16, s: bv16)
    requires RegisterBits(r) == RegisterBits(s)
    ensures r == s
  {
    var b := RegisterBits(r);
    HighBits(r, HighByte(r), b);
    HighBits(s, HighByte(s), b);
    ByteBitsInjective(HighByte(r), HighByte(s));
    LowBits(r, LowByte(r), b);
    LowBits(s, LowByte(s), b);
    ByteBitsInjective(LowByte(r), LowByte(s));
    BytesOf(r);
    BytesOf(s);
  }

  lemma BitsPolyInjective(b: seq<bool>, c: seq<bool>)
    requires |b| == |c| && BitsPoly(b) == BitsPoly(c)
    ensures b == c
  {
    forall k | 0 <= k < |b| ensures b[k] == c[k] {
      var e := |b| - 1 - k;
      assert (e in BitsPoly(b) <==> b[k]) && (e in BitsPoly(c) <==> c[k]);
    }
  }

  /** No two register values are the same polynomial. */
  lemma {:induction false} RegisterPolyInjective(r: bv16, s: bv16)
    requires RegisterPoly(r) == RegisterPoly(s)
    ensures r == s
  {
    BitsPolyInjective(RegisterBits(r), RegisterBits(s));
    RegisterBitsInjective(r, s);
  }

  /** A register value is what the bits leave of the first value exactly if it is the
      remainder of the division. */
  lemma {:induction false} FeedIsTheRemainder(start: bv16, bits: seq<bool>, value: bv16)
    ensures value == Feed(start, bits) <==> IsRemainder(Dividend(start, bits), RegisterPoly(value))
  {
    var dividend := Dividend(start, bits);
    FeedDivides(start, bits);
    if q :| Divides(dividend, q, RegisterPoly(value)) {
      DivisionIsUnique(dividend, q, RegisterPoly(value), Quotient(start, bits), RegisterPoly(Feed(start, bits)));
      RegisterPolyInjective(value, Feed(start, bits));
    }
  }

  lemma ZeroIsNothing()
    ensures RegisterPoly(0) == {}
  {
    var b := RegisterBits(0);
    assert forall k :: 0 <= k < 16 ==> !b[k];
  }

  /** x^15 + x^14 + ... + 1 */
  function AllOnes(): Poly {
    {15, 14, 13, 12, 11, 10, 9, 8, 7, 6, 5, 4, 3, 2, 1, 0}
  }

  lemma StartIsAllOnes()
    ensures RegisterPoly(INITIAL) == AllOnes()
  {
    var b := RegisterBits(INITIAL);
    assert b == seq(16, i => true);
    forall e: nat ensures e in BitsPoly(b) <==> e < 16 {
      assert e < 16 ==> b[15 - e];
    }
  }

  /** A value is the CRC of a message exactly if it is the remainder of
      message * x^16 + (x^15 + ... + 1) * x^(8 * length) modulo the generator. */
  lemma {:induction false} CrcIsTheRemainder(msg: seq<bv8>, value: bv16)
    ensures value == Crc(msg) <==>
            IsRemainder(Plus(Shift(BitsPoly(MessageBits(msg)), 16), Shift(AllOnes(), 8 * |msg|)), RegisterPoly(value))
  {
    FeedIsTheRemainder(INITIAL, MessageBits(msg), value);
    StartIsAllOnes();
  }

  /** The message with its first 16 bits changed to their opposites. */
  function StartComplemented(bits: seq<bool>): (r: seq<bool>)
    ensures |r| == |bits|
  {
    seq(|bits|, i requires 0 <= i < |bits| => bits[i] != (i < 16))
  }

  lemma ComplementAdds(bits: seq<bool>, c: seq<bool>, ones: Poly)
    requires |bits| >= 16 && c == StartComplemented(bits) && forall e: nat :: e in ones <==> e < 16
    ensures Plus(Shift(BitsPoly(bits), 16), Shift(ones, |bits|)) == Shift(BitsPoly(c), 16)
  {
    var n := |bits|;
    forall e: nat ensures e in Plus(Shift(BitsPoly(bits), 16), Shift(ones, n)) <==> e in Shift(BitsPoly(c), 16) {
      if 16 <= e < n + 16 {
        var k := n - 1 - (e - 16);
        assert c[k] == (bits[k] != (k < 16));
        assert (e - 16 in BitsPoly(bits) <==> bits[k]) && (e - 16 in BitsPoly(c) <==> c[k]);
      }
    }
  }

  lemma StartMovesIn(bits: seq<bool>)
    requires |bits| >= 16
    ensures Dividend(INITIAL, bits) == Shift(BitsPoly(StartComplemented(bits)), 16)
  {
    StartIsAllOnes();
    ComplementAdds(bits, StartComplemented(bits), AllOnes());
  }

  /** For messages of two bytes or more it is what the message with its first 16 bits
      complemented leaves in a register that starts from zero. */
  lemma {:induction false} CrcFromZero(msg: seq<bv8>)
    requires |msg| >= 2
    ensures Crc(msg) == Feed(0, StartComplemented(MessageBits(msg)))
  {
    var bits := MessageBits(msg);
    var c := StartComplemented(bits);
    FeedIsTheRemainder(INITIAL, bits, Crc(msg));
    StartMovesIn(bits);
    ZeroIsNothing();
    assert Dividend(0, c) == Shift(BitsPoly(c), 16);
    FeedIsTheRemainder(0, c, Crc(msg));
  }
}
