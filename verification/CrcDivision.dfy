/** Both CRCs are remainders of dividing the message, as a polynomial over GF(2), by the generator. */
module CrcDivision {
  import opened Gf2
  import opened Crc
  import opened CrcLaws

  // ----- CRC-32: the register is kept reversed, bit 0 for the highest degree; a byte is sent low bit first -----

  ghost function Bit32(c: bv32, i: nat): bool {
    if i == 0 then c & 1 == 1 else Bit32(c >> 1, i - 1)
  }

  ghost function Bits32(c: bv32): (s: seq<bool>)
    ensures |s| == 32
  {
    seq(32, i requires 0 <= i < 32 => Bit32(c, i))
  }

  /** The lowest `n` bits of `x`, lowest first. */
  ghost function LowBits(x: bv32, n: nat): seq<bool> {
    if n == 0 then [] else [x & 1 == 1] + LowBits(x >> 1, n - 1)
  }

  ghost function LowFirst(m: seq<bv8>): seq<bool> {
    if m == [] then [] else LowBits(m[0] as bv32, 8) + LowFirst(m[1..])
  }

  ghost function G32(): (g: seq<bool>)
    ensures |g| == 33 && g[0]
  {
    [true] + Bits32(CRC32_POLYNOMIAL)
  }

  lemma EightBits(c: bv32)
    ensures Bit32(c, 0) == (c & 1 == 1) && Bit32(c, 1) == (c & 2 == 2)
    ensures Bit32(c, 2) == (c & 4 == 4) && Bit32(c, 3) == (c & 8 == 8)
    ensures Bit32(c, 4) == (c & 0x10 == 0x10) && Bit32(c, 5) == (c & 0x20 == 0x20)
    ensures Bit32(c, 6) == (c & 0x40 == 0x40) && Bit32(c, 7) == (c & 0x80 == 0x80)
  {
    FourBits(c);
    FourBits(c >> 4);
    FourUp(c, 0);
    FourUp(c, 1);
    FourUp(c, 2);
    FourUp(c, 3);
  }

  lemma FourBits(c: bv32)
    ensures Bit32(c, 0) == (c & 1 == 1) && Bit32(c, 1) == (c & 2 == 2)
    ensures Bit32(c, 2) == (c & 4 == 4) && Bit32(c, 3) == (c & 8 == 8)
  {
    assert Bit32(c, 2) == Bit32(c >> 1, 1) == Bit32((c >> 1) >> 1, 0);
    assert Bit32(c, 3) == Bit32(c >> 1, 2) == Bit32((c >> 1) >> 1, 1) == Bit32(((c >> 1) >> 1) >> 1, 0);
  }

  /** The generator of CRC-32, by the degrees of its terms. */
  lemma Generator32(i: nat)
    requires i <= 32
    ensures G32()[i] <==> 32 - i in {32, 26, 23, 22, 16, 12, 11, 10, 8, 7, 5, 4, 2, 1, 0}
  {
    hide Bit32;
    var g: bv32 := CRC32_POLYNOMIAL;
    EightBits(g);
    EightBits(g >> 8);
    EightBits(g >> 16);
    EightBits(g >> 24);
    if i > 0 {
      var k := i - 1;
      assert G32()[i] == Bits32(g)[k] == Bit32(g, k);
      if 8 <= k < 16 {
        EightUp(g, k - 8);
      } else if 16 <= k < 24 {
        SixteenUp(g, k - 16);
      } else if 24 <= k {
        SixteenUp(g, k - 16);
        EightUp(g >> 16, k - 24);
        assert (g >> 16) >> 8 == g >> 24;
      }
    }
  }

  lemma {:induction false} BitOfPlus(a: bv32, b: bv32, i: nat)
    ensures Bit32(Plus(a, b), i) == (Bit32(a, i) != Bit32(b, i))
    decreases i
  {
    hide Plus;
    LowestOfPlus(a, b);
    PlusShifts(a, b);
    if i > 0 {
      BitOfPlus(a >> 1, b >> 1, i - 1);
    }
  }

  lemma PlusShifts(a: bv32, b: bv32)
    ensures Plus(a, b) >> 1 == Plus(a >> 1, b >> 1)
  {
    SumShifts(a, b, Plus(a, b), Plus(a >> 1, b >> 1));
  }

  lemma SumShifts(a: bv32, b: bv32, sum: bv32, half: bv32)
    requires sum == a ^ b && half == (a >> 1) ^ (b >> 1)
    ensures sum >> 1 == half
  {
  }

  lemma LowestOfPlus(a: bv32, b: bv32)
    ensures (Plus(a, b) & 1 == 1) == ((a & 1 == 1) != (b & 1 == 1))
  {
  }

  /** Thirty-two shifts leave nothing. */
  lemma NothingAbove(c: bv32)
    ensures !Bit32(c, 32)
  {
    SixteenUp(c, 16);
    SixteenUp(c >> 16, 0);
    AllShiftedOut(c);
  }

  lemma AllShiftedOut(c: bv32)
    ensures (c >> 16) >> 16 == 0
  {
  }

  lemma SixteenUp(c: bv32, i: nat)
    ensures Bit32(c, i + 16) == Bit32(c >> 16, i)
  {
    EightUp(c, i + 8);
    EightUp(c >> 8, i);
    assert (c >> 8) >> 8 == c >> 16;
  }

  lemma EightUp(c: bv32, i: nat)
    ensures Bit32(c, i + 8) == Bit32(c >> 8, i)
  {
    FourUp(c, i + 4);
    FourUp(c >> 4, i);
    assert (c >> 4) >> 4 == c >> 8;
  }

  lemma FourUp(c: bv32, i: nat)
    ensures Bit32(c, i + 4) == Bit32(c >> 4, i)
  {
    assert Bit32(c, i + 4) == Bit32(c >> 1, i + 3) == Bit32((c >> 1) >> 1, i + 2);
    assert Bit32((c >> 1) >> 1, i + 2) == Bit32(((c >> 1) >> 1) >> 1, i + 1) == Bit32((((c >> 1) >> 1) >> 1) >> 1, i);
    assert (((c >> 1) >> 1) >> 1) >> 1 == c >> 4;
  }

  lemma ShiftedDown(c: bv32)
    ensures Bits32(c)[1..] + [false] == Bits32(c >> 1)
  {
    hide Bit32;
    forall i | 0 <= i < 32 ensures (Bits32(c)[1..] + [false])[i] == Bit32(c >> 1, i) {
      BitUp(c, i);
      NothingAbove(c);
    }
  }

  /** One bit into the register is one step of long division. */
  lemma FeedBit(c: bv32, bit: bv32)
    requires bit == 0 || bit == 1
    ensures Feed(Bits32(c), bit == 1, G32()) == Bits32(Step32(Plus(c, bit)))
  {
    hide Plus, Step32, Bit32;
    var d := Plus(c, bit);
    BitInto(c, bit);
    StepIs(d);
    var shifted := Bits32(c)[1..] + [false];
    BitUp(c, 0);
    ShiftedDown(c);
    if d & 1 == 1 {
      forall i | 0 <= i < 32 ensures Xor(shifted, G32()[1..])[i] == Bit32(Step32(d), i) {
        BitOfPlus(d >> 1, CRC32_POLYNOMIAL, i);
      }
    }
  }

  lemma BitUp(c: bv32, i: nat)
    ensures Bit32(c, i + 1) == Bit32(c >> 1, i) && Bit32(c, 0) == (c & 1 == 1)
  {
  }

  lemma BitInto(c: bv32, bit: bv32)
    requires bit == 0 || bit == 1
    ensures Plus(c, bit) >> 1 == c >> 1 && (Plus(c, bit) & 1 == 1) == ((c & 1 == 1) != (bit == 1))
  {
  }

  lemma StepIs(d: bv32)
    ensures Step32(d) == if d & 1 == 1 then Plus(d >> 1, CRC32_POLYNOMIAL) else d >> 1
  {
  }

  /** The register after feeding it the lowest `n` bits of `x`. */
  ghost function Fed(c: bv32, x: bv32, n: nat): bv32
    decreases n
  {
    if n == 0 then c else Fed(Step32(Plus(c, x & 1)), x >> 1, n - 1)
  }

  lemma {:induction false} FeedBits(c: bv32, x: bv32, n: nat)
    ensures FeedAll(Bits32(c), LowBits(x, n), G32()) == Bits32(Fed(c, x, n))
    decreases n
  {
    hide Feed, Bits32, Step32, Plus, G32;
    if n > 0 {
      var next := Step32(Plus(c, x & 1));
      FeedBits(next, x >> 1, n - 1);
      OneBit(x);
      FeedBit(c, x & 1);
      assert LowBits(x, n)[1..] == LowBits(x >> 1, n - 1);
    }
  }

  lemma OneBit(x: bv32)
    ensures x & 1 == 0 || x & 1 == 1
  {
  }

  ghost function Dropped(x: bv32, n: nat): bv32
    decreases n
  {
    if n == 0 then x else Dropped(x >> 1, n - 1)
  }

  /** Feeding bits one by one, or adding them all first and then stepping: the same. */
  lemma {:induction false} FedIsSteps(c: bv32, x: bv32, n: nat)
    ensures Plus(Fed(c, x, n), Dropped(x, n)) == Steps32(Plus(c, x), n)
    decreases n
  {
    hide Step32, Plus;
    if n > 0 {
      FedIsSteps(Step32(Plus(c, x & 1)), x >> 1, n - 1);
      StepSplit(c, x);
    }
  }

  lemma StepSplit(c: bv32, x: bv32)
    ensures Step32(Plus(c, x)) == Plus(Step32(Plus(c, x & 1)), x >> 1)
  {
    hide *;
    SplitLowest(x);
    PlusAssociates(c, x & 1, (x >> 1) << 1);
    StepLinear(Plus(c, x & 1), (x >> 1) << 1);
    StepOfEven(x);
  }

  lemma SplitLowest(x: bv32)
    ensures x == Plus(x & 1, (x >> 1) << 1)
  {
  }

  lemma StepOfEven(x: bv32)
    ensures Step32((x >> 1) << 1) == x >> 1
  {
  }

  lemma ByteDropped(x: bv8)
    ensures Dropped(x as bv32, 8) == 0
  {
  }

  lemma PlusZero(c: bv32)
    ensures Plus(c, 0) == c
  {
  }

  lemma {:induction false} RegisterDivides(c: bv32, m: seq<bv8>)
    ensures FeedAll(Bits32(c), LowFirst(m), G32()) == Bits32(Register32(c, m))
    decreases |m|
  {
    hide Feed, Bits32, Steps32, Plus, G32, LowBits;
    if m != [] {
      var x := m[0] as bv32;
      var next := Steps32(Plus(c, x), 8);
      FeedBits(c, x, 8);
      FedIsSteps(c, x, 8);
      ByteDropped(m[0]);
      PlusZero(Fed(c, x, 8));
      FeedAppend(Bits32(c), LowBits(x, 8), LowFirst(m[1..]), G32());
      RegisterDivides(next, m[1..]);
    }
  }

  /** The CRC-32, its final complement undone, is the remainder of the message followed by 32 zeros, with the first 32
      bits complemented. */
  lemma Crc32IsDivision(m: seq<bv8>)
    ensures Bits32(Plus(Crc32(m), 0xFFFF_FFFF)) ==
            Remainder(Xor(LowFirst(m) + Zeros(32), Bits32(0xFFFF_FFFF)), G32())
  {
    hide *;
    RegisterEnds32(0, m);
    PlusCancels(Register32(0xFFFF_FFFF, m), 0xFFFF_FFFF);
    RegisterDivides(0xFFFF_FFFF, m);
    FeedIsDivision(Bits32(0xFFFF_FFFF), LowFirst(m), G32());
  }

  // ----- CRC-32 collisions as a division -----

  lemma BitsOfZero(i: nat)
    ensures !Bit32(0, i)
    decreases i
  {
    if i > 0 {
      BitsOfZero(i - 1);
    }
  }

  ghost predicate NoBits(c: bv32, n: nat) {
    forall i: nat | i < n :: !Bit32(c, i)
  }

  lemma {:induction false} NoBitsIsZero(c: bv32, n: nat)
    requires Dropped(c, n) == 0 && NoBits(c, n)
    ensures c == 0
    decreases n
  {
    if n > 0 {
      var half := c >> 1;
      BitUp(c, 0);
      forall i: nat | i < n - 1 ensures !Bit32(half, i) {
        BitUp(c, i);
      }
      NoBitsIsZero(half, n - 1);
      NothingLeft(c);
    }
  }

  lemma NothingLeft(c: bv32)
    requires c >> 1 == 0 && c & 1 != 1
    ensures c == 0
  {
  }

  lemma AllDropped(c: bv32)
    ensures Dropped(c, 32) == 0
  {
    DroppedEight(c, 24);
    DroppedEight(c >> 8, 16);
    DroppedEight((c >> 8) >> 8, 8);
    DroppedEight(((c >> 8) >> 8) >> 8, 0);
  }

  lemma DroppedEight(c: bv32, n: nat)
    ensures Dropped(c, n + 8) == Dropped(c >> 8, n)
    ensures (((c >> 8) >> 8) >> 8) >> 8 == 0
  {
    DroppedFour(c, n + 4);
    DroppedFour(c >> 4, n);
    assert (c >> 4) >> 4 == c >> 8;
  }

  lemma DroppedFour(c: bv32, n: nat)
    ensures Dropped(c, n + 4) == Dropped(c >> 4, n)
  {
    assert Dropped(c, n + 4) == Dropped(c >> 1, n + 3) == Dropped((c >> 1) >> 1, n + 2);
    assert Dropped((c >> 1) >> 1, n + 2) == Dropped(((c >> 1) >> 1) >> 1, n + 1)
        == Dropped((((c >> 1) >> 1) >> 1) >> 1, n);
    assert (((c >> 1) >> 1) >> 1) >> 1 == c >> 4;
  }

  /** Messages of equal length share their CRC-32 exactly when their sum, followed by 32 zeros, is divisible by the
      generator. */
  lemma CollideIffDivisible(a: seq<bv8>, b: seq<bv8>)
    requires |a| == |b|
    ensures Crc32(a) == Crc32(b) <==> Remainder(LowFirst(Sum(a, b)) + Zeros(32), G32()) == Zeros(32)
  {
    hide LowFirst, G32, Register32, Remainder, FeedAll, Bit32, Sum;
    CollideIff(a, b);
    var s := LowFirst(Sum(a, b));
    RegisterDivides(0, Sum(a, b));
    FeedIsDivision(Bits32(0), s, G32());
    forall i | 0 <= i < 32 ensures !Bit32(0, i) {
      BitsOfZero(i);
    }
    assert Bits32(0) == Zeros(32) && Xor(s + Zeros(32), Bits32(0)) == s + Zeros(32);
    var c := Register32(0, Sum(a, b));
    if Bits32(c) == Zeros(32) {
      forall i: nat | i < 32 ensures !Bit32(c, i) {
        assert Bits32(c)[i] == Zeros(32)[i];
      }
      assert NoBits(c, 32);
      AllDropped(c);
      NoBitsIsZero(c, 32);
    }
  }

  // ----- CRC-8: bytes and register high bit first -----

  ghost function HighBits(x: bv8, n: nat): (s: seq<bool>)
    ensures |s| == n
    decreases n
  {
    if n == 0 then [] else [x & 0x80 == 0x80] + HighBits(x << 1, n - 1)
  }

  ghost function HighFirst(m: seq<bv8>): seq<bool> {
    if m == [] then [] else HighBits(m[0], 8) + HighFirst(m[1..])
  }

  ghost function Bits8(c: bv8): (s: seq<bool>)
    ensures |s| == 8
  {
    HighBits(c, 8)
  }

  ghost function G8(): (g: seq<bool>)
    ensures |g| == 9 && g[0]
  {
    [true] + Bits8(CRC8_POLYNOMIAL)
  }

  /** The generator of CRC-8, by the degrees of its terms. */
  lemma Generator8(i: nat)
    requires i <= 8
    ensures G8()[i] <==> 8 - i in {8, 2, 1, 0}
  {
    var g: bv8 := CRC8_POLYNOMIAL;
    assert HighBits(g, 8) == [false] + HighBits(0x0E, 7) == [false, false] + HighBits(0x1C, 6);
    assert HighBits(0x1C, 6) == [false] + HighBits(0x38, 5) == [false, false] + HighBits(0x70, 4);
    assert HighBits(0x70, 4) == [false] + HighBits(0xE0, 3) == [false, true] + HighBits(0xC0, 2);
    assert HighBits(0xC0, 2) == [true] + HighBits(0x80, 1) == [true, true];
  }

  lemma {:induction false} HighBitsOfSum(a: bv8, b: bv8, n: nat)
    ensures HighBits(Plus8(a, b), n) == Xor(HighBits(a, n), HighBits(b, n))
    decreases n
  {
    hide Xor;
    if n == 0 {
      XorOfNone();
    } else {
      HighBitsOfSum(a << 1, b << 1, n - 1);
      SumShiftsUp(a, b);
      XorCons(a & 0x80 == 0x80, b & 0x80 == 0x80, HighBits(a << 1, n - 1), HighBits(b << 1, n - 1));
    }
  }

  lemma SumShiftsUp(a: bv8, b: bv8)
    ensures Plus8(a, b) << 1 == Plus8(a << 1, b << 1)
    ensures (Plus8(a, b) & 0x80 == 0x80) == ((a & 0x80 == 0x80) != (b & 0x80 == 0x80))
  {
  }

  lemma XorOfNone()
    ensures Xor([], []) == []
  {
  }

  lemma XorCons(x: bool, y: bool, s: seq<bool>, t: seq<bool>)
    requires |s| == |t|
    ensures Xor([x] + s, [y] + t) == [x != y] + Xor(s, t)
  {
  }

  lemma {:induction false} HighBitsExtend(x: bv8, n: nat)
    ensures HighBits(x, n) <= HighBits(x, n + 1)
    decreases n
  {
    if n > 0 {
      HighBitsExtend(x << 1, n - 1);
    }
  }

  /** Shifting up drops the leading bit and brings in a zero. */
  lemma ShiftUp8(x: bv8)
    ensures HighBits(x << 1, 8) == HighBits(x, 8)[1..] + [false]
  {
    hide HighBits;
    HighBitsExtend(x << 1, 7);
    EndsInZero(x);
    LastBit(x << 1);
    FirstBit(x);
  }

  lemma EndsInZero(x: bv8)
    ensures (x << 1) & 1 == 0
  {
  }

  lemma FirstBit(x: bv8)
    ensures HighBits(x, 8) == [x & 0x80 == 0x80] + HighBits(x << 1, 7)
  {
  }

  lemma LastBit(y: bv8)
    requires y & 1 == 0
    ensures !HighBits(y, 8)[7]
  {
  }

  lemma FeedBit8(c: bv8, bit: bv8)
    requires bit == 0 || bit == 0x80
    ensures Feed(Bits8(c), bit == 0x80, G8()) == Bits8(Step8(Plus8(c, bit)))
  {
    var d := Plus8(c, bit);
    assert d << 1 == c << 1;
    ShiftUp8(c);
    HighBitsOfSum(d << 1, CRC8_POLYNOMIAL, 8);
    assert G8()[1..] == Bits8(CRC8_POLYNOMIAL);
  }

  ghost function Fed8(c: bv8, x: bv8, n: nat): bv8
    decreases n
  {
    if n == 0 then c else Fed8(Step8(Plus8(c, x & 0x80)), x << 1, n - 1)
  }

  lemma {:induction false} FeedBits8(c: bv8, x: bv8, n: nat)
    ensures FeedAll(Bits8(c), HighBits(x, n), G8()) == Bits8(Fed8(c, x, n))
    decreases n
  {
    hide Feed, Step8, G8, Bits8, Plus8;
    if n > 0 {
      FeedBits8(Step8(Plus8(c, x & 0x80)), x << 1, n - 1);
      FeedBit8(c, x & 0x80);
      assert HighBits(x, n)[1..] == HighBits(x << 1, n - 1);
    }
  }

  ghost function Dropped8(x: bv8, n: nat): bv8
    decreases n
  {
    if n == 0 then x else Dropped8(x << 1, n - 1)
  }

  lemma {:induction false} FedIsSteps8(c: bv8, x: bv8, n: nat)
    ensures Plus8(Fed8(c, x, n), Dropped8(x, n)) == Steps8(Plus8(c, x), n)
    decreases n
  {
    hide Step8, Plus8;
    if n > 0 {
      FedIsSteps8(Step8(Plus8(c, x & 0x80)), x << 1, n - 1);
      StepSplit8(c, x);
    }
  }

  lemma StepSplit8(c: bv8, x: bv8)
    ensures Step8(Plus8(c, x)) == Plus8(Step8(Plus8(c, x & 0x80)), x << 1)
  {
    hide *;
    SplitHighest(x);
    Plus8Associates(c, x & 0x80, x & 0x7F);
    Step8Linear(Plus8(c, x & 0x80), x & 0x7F);
    StepOfLow(x);
  }

  lemma SplitHighest(x: bv8)
    ensures x == Plus8(x & 0x80, x & 0x7F)
  {
  }

  lemma Plus8Associates(a: bv8, b: bv8, c: bv8)
    ensures Plus8(Plus8(a, b), c) == Plus8(a, Plus8(b, c))
  {
  }

  lemma StepOfLow(x: bv8)
    ensures Step8(x & 0x7F) == x << 1
  {
  }

  lemma ByteDropped8(x: bv8)
    ensures Dropped8(x, 8) == 0
  {
  }

  lemma Plus8Zero(c: bv8)
    ensures Plus8(c, 0) == c
  {
  }

  lemma {:induction false} RegisterDivides8(c: bv8, m: seq<bv8>)
    ensures FeedAll(Bits8(c), HighFirst(m), G8()) == Bits8(Register8(c, m))
    decreases |m|
  {
    hide Feed, Steps8, G8, HighBits, Bits8, Plus8;
    if m != [] {
      var x := m[0];
      FeedBits8(c, x, 8);
      FedIsSteps8(c, x, 8);
      ByteDropped8(x);
      Plus8Zero(Fed8(c, x, 8));
      FeedAppend(Bits8(c), HighBits(x, 8), HighFirst(m[1..]), G8());
      RegisterDivides8(Steps8(Plus8(c, x), 8), m[1..]);
    }
  }

  /** The CRC-8 is the remainder of the message followed by 8 zeros. */
  lemma Crc8IsDivision(m: seq<bv8>)
    ensures Bits8(Crc8(m)) == Remainder(HighFirst(m) + Zeros(8), G8())
  {
    hide Feed, Steps8, G8, Register8, Remainder, FeedAll, Bits8, HighFirst;
    RegisterDivides8(0, m);
    FeedIsDivision(Bits8(0), HighFirst(m), G8());
    NoBitsSet8();
    XorZeros(HighFirst(m) + Zeros(8), 8);
  }

  lemma NoBitsSet8()
    ensures Bits8(0) == Zeros(8)
  {
    assert (0 as bv8) << 1 == 0;
  }

  lemma XorZeros(s: seq<bool>, n: nat)
    requires n <= |s|
    ensures Xor(s, Zeros(n)) == s
  {
  }
}
