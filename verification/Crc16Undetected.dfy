/**
 Which changes the CRC of `Crc16` does not detect: those that are multiples of the
 generator, and so never a change of an odd number of bits.
 */
module Crc16Undetected {
  import opened Crc16
  import opened Crc16Polynomial
  import opened Crc16Detection

  ghost predicate IsMultiple(p: Poly) {
    exists q :: p == TimesGenerator(q)
  }

  lemma NoRemainder(p: Poly)
    ensures IsRemainder(p, {}) <==> IsMultiple(p)
  {
    if q :| Divides(p, q, {}) {
      assert p == TimesGenerator(q);
    }
    if q :| p == TimesGenerator(q) {
      assert Divides(p, q, {});
    }
  }

  lemma ShiftInjective(p: Poly, q: Poly)
    requires Shift(p, 1) == Shift(q, 1)
    ensures p == q
  {
    forall e: nat ensures e in p <==> e in q {
      assert e + 1 in Shift(p, 1) <==> e in p;
      assert e + 1 in Shift(q, 1) <==> e in q;
    }
  }

  /** The generator has the constant term 1, so x can be divided out. */
  lemma DivideByX(p: Poly)
    requires IsMultiple(Shift(p, 1))
    ensures IsMultiple(p)
  {
    var q :| Shift(p, 1) == TimesGenerator(q);
    assert 0 !in TimesGenerator(q);
    assert 0 !in q;
    var less := set e: nat | e in q :: if e > 0 then e - 1 else 0;
    forall e: nat ensures e in Shift(less, 1) <==> e in q {
      assert e in q && e > 0 ==> e - 1 in less;
    }
    assert Shift(less, 1) == q;
    TimesGeneratorShifts(less, 1);
    ShiftInjective(p, TimesGenerator(less));
  }

  lemma {:induction false} ShiftedMultiple(p: Poly, k: nat)
    ensures IsMultiple(Shift(p, k)) <==> IsMultiple(p)
  {
    if k == 0 {
      assert Shift(p, 0) == p;
    } else {
      ShiftShift(p, k - 1, 1);
      ShiftedMultiple(p, k - 1);
      if q :| Shift(p, k - 1) == TimesGenerator(q) {
        TimesGeneratorShifts(q, 1);
      }
      if IsMultiple(Shift(p, k)) {
        DivideByX(Shift(p, k - 1));
      }
    }
  }

  /** A register started from zero ends at zero exactly for the multiples of the
      generator. */
  lemma {:induction false} ZeroExactlyWhen(d: seq<bool>)
    ensures Feed(0, d) == 0 <==> IsMultiple(BitsPoly(d))
  {
    ZeroIsNothing();
    FeedIsTheRemainder(0, d, 0);
    NoRemainder(Shift(BitsPoly(d), 16));
    assert Dividend(0, d) == Shift(BitsPoly(d), 16);
    ShiftedMultiple(BitsPoly(d), 16);
  }

  lemma SumIsZero(x: bv16, y: bv16, sum: bv16)
    requires x ^ y == sum
    ensures sum == 0 <==> x == y
  {
  }

  /** Two messages of equal length have the same CRC exactly if their difference is a
      multiple of the generator. */
  lemma {:induction false} UndetectedExactlyWhen(m: seq<bv8>, m': seq<bv8>)
    requires |m| == |m'|
    ensures Crc(m) == Crc(m') <==> IsMultiple(BitsPoly(Difference(MessageBits(m), MessageBits(m'))))
  {
    var d := Difference(MessageBits(m), MessageBits(m'));
    CrcIsAffine(m, m');
    SumIsZero(Crc(m), Crc(m'), Feed(0, d));
    ZeroExactlyWhen(d);
  }

  // ----- an odd number of bits -----

  /** Whether an odd number of the bits is set. */
  function Odd(bits: seq<bool>): bool {
    if bits == [] then false else Odd(bits[..|bits| - 1]) != bits[|bits| - 1]
  }

  lemma {:induction false} OddAppend(a: seq<bool>, b: seq<bool>)
    ensures Odd(a + b) == (Odd(a) != Odd(b))
  {
    if b == [] {
      assert a + b == a;
    } else {
      assert (a + b)[..|a + b| - 1] == a + b[..|b| - 1];
      OddAppend(a, b[..|b| - 1]);
    }
  }

  lemma {:induction false} OddFlip(b: seq<bool>, k: nat)
    requires k < |b|
    ensures Odd(b[k := !b[k]]) == !Odd(b)
  {
    var c := b[k := !b[k]];
    var n := |b| - 1;
    if k == n {
      assert c[..n] == b[..n];
    } else {
      assert c[..n] == b[..n][k := !b[k]];
      OddFlip(b[..n], k);
    }
  }

  lemma OddOne(x: bool)
    ensures Odd([x]) == x
  {
    assert [x][..0] == [];
  }

  /** Whether an odd number of the register's bits is set. */
  function Parity(r: bv16): bool {
    Odd(RegisterBits(r))
  }

  lemma ShiftParity(b: seq<bool>, last: bool)
    requires b != []
    ensures Odd(b[1..] + [last]) == ((Odd(b) != b[0]) != last)
  {
    assert b == [b[0]] + b[1..];
    OddAppend([b[0]], b[1..]);
    OddOne(b[0]);
    OddAppend(b[1..], [last]);
    OddOne(last);
  }

  lemma FeedbackParity(b: seq<bool>)
    requires |b| == 16
    ensures Odd((b[1..] + [true])[3 := !b[4]][10 := !b[11]]) == (Odd(b) == b[0])
  {
    var c := b[1..] + [true];
    ShiftParity(b, true);
    OddFlip(c, 3);
    OddFlip(c[3 := !c[3]], 10);
  }

  lemma StepParityBits(r: bv16, s: bv16, b: seq<bool>, bit: bool)
    requires b == RegisterBits(r) && s == if b[0] != bit then (r << 1) ^ POLYNOMIAL else r << 1
    ensures Odd(RegisterBits(s)) == (Odd(b) != bit)
  {
    if b[0] != bit {
      FeedbackBits(r, s, b);
      FlippedTwice(b);
      FeedbackParity(b);
    } else {
      ShiftBits(r, s, b);
      ShiftParity(b, false);
    }
  }

  /** A step adds its bit to the register's parity: the generator has four terms. */
  lemma StepParity(r: bv16, bit: bool)
    ensures Parity(Step(r, bit)) == (Parity(r) != bit)
  {
    StepParityBits(r, Step(r, bit), RegisterBits(r), bit);
  }

  lemma {:induction false} NoneIsEven(bits: seq<bool>)
    requires forall k :: 0 <= k < |bits| ==> !bits[k]
    ensures !Odd(bits)
  {
    if bits != [] {
      NoneIsEven(bits[..|bits| - 1]);
    }
  }

  lemma {:induction false} FeedParity(bits: seq<bool>)
    ensures Parity(Feed(0, bits)) == Odd(bits)
  {
    if bits == [] {
      NoneIsEven(RegisterBits(0));
    } else {
      FeedParity(bits[..|bits| - 1]);
      StepParity(Feed(0, bits[..|bits| - 1]), bits[|bits| - 1]);
    }
  }

  /** Any change of an odd number of bits, wherever they are, changes the CRC. */
  lemma {:induction false} OddIsDetected(m: seq<bv8>, m': seq<bv8>)
    requires |m| == |m'| && Odd(Difference(MessageBits(m), MessageBits(m')))
    ensures Crc(m) != Crc(m')
  {
    var d := Difference(MessageBits(m), MessageBits(m'));
    CrcIsAffine(m, m');
    SumIsZero(Crc(m), Crc(m'), Feed(0, d));
    FeedParity(d);
    FeedParity([]);
  }
}
