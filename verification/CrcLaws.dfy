/** The table-driven loops compute the division remainders, and which changes to a message they always notice. */
module CrcLaws {
  import opened Gf2
  import opened Crc

  // ----- the tables -----

  ghost predicate EntriesRight(i: bv8) {
    Crc32Table(i) == Steps32(i as bv32, 8) && Crc8Table(i) == Steps8(i, 8)
  }

  /** Both tables are linear, so that the first column and the first row decide them. */
  lemma TableIsLinear32(i: bv8)
    ensures Crc32Table(i) == Plus(Crc32Table(i & 0xF0), Crc32Table(i & 0x0F))
  {
    match i & 0x0F {
      case 0 => case 1 => case 2 => case 3 => case 4 => case 5 => case 6 => case 7 =>
      case 8 => case 9 => case 10 => case 11 => case 12 => case 13 => case 14 => case _ =>
    }
  }

  lemma TableIsLinear8(i: bv8)
    ensures Crc8Table(i) == Plus8(Crc8Table(i & 0xF0), Crc8Table(i & 0x0F))
  {
    match i & 0x0F {
      case 0 => case 1 => case 2 => case 3 => case 4 => case 5 => case 6 => case 7 =>
      case 8 => case 9 => case 10 => case 11 => case 12 => case 13 => case 14 => case _ =>
    }
  }

  lemma EightSteps8(c: bv8)
    ensures Steps8(c, 8) == Step8(Step8(Step8(Step8(Step8(Step8(Step8(Step8(c))))))))
  {
    var four := Step8(Step8(Step8(Step8(c))));
    assert Steps8(c, 8) == Steps8(Step8(c), 7) == Steps8(Step8(Step8(c)), 6) == Steps8(Step8(Step8(Step8(c))), 5);
    assert Steps8(four, 4) == Steps8(Step8(four), 3) == Steps8(Step8(Step8(four)), 2);
  }

  lemma EightSteps32(c: bv32)
    ensures Steps32(c, 8) == Step32(Step32(Step32(Step32(Step32(Step32(Step32(Step32(c))))))))
  {
    var four := Step32(Step32(Step32(Step32(c))));
    assert Steps32(c, 8) == Steps32(Step32(c), 7) == Steps32(Step32(Step32(c)), 6);
    assert Steps32(Step32(Step32(c)), 6) == Steps32(Step32(Step32(Step32(c))), 5);
    assert Steps32(four, 4) == Steps32(Step32(four), 3) == Steps32(Step32(Step32(four)), 2);
  }

  lemma FirstColumn(i: bv8)
    requires i & 0x0F == 0
    ensures EntriesRight(i)
  {
    hide Steps8, Steps32;
    EightSteps8(i);
    EightSteps32(i as bv32);
    match i >> 4 {
      case 0 => case 1 => case 2 => case 3 => case 4 => case 5 => case 6 => case 7 =>
      case 8 => case 9 => case 10 => case 11 => case 12 => case 13 => case 14 => case _ =>
    }
  }

  lemma FirstRow32(i: bv8)
    requires i & 0xF0 == 0
    ensures Crc32Table(i) == Steps32(i as bv32, 8)
  {
    hide Steps32;
    EightSteps32(i as bv32);
    match i & 0x0F {
      case 0 => case 1 => case 2 => case 3 => case 4 => case 5 => case 6 => case 7 =>
      case 8 => case 9 => case 10 => case 11 => case 12 => case 13 => case 14 => case _ =>
    }
  }

  lemma FirstRow8(i: bv8)
    requires i & 0xF0 == 0
    ensures Crc8Table(i) == Steps8(i, 8)
  {
    hide Steps8;
    EightSteps8(i);
    match i {
      case 0 => case 1 => case 2 => case 3 => case 4 => case 5 => case 6 => case 7 =>
      case 8 => case 9 => case 10 => case 11 => case 12 => case 13 => case 14 => case _ =>
    }
  }

  lemma Halves(i: bv8)
    ensures (i & 0xF0) & 0x0F == 0 && (i & 0x0F) & 0xF0 == 0
    ensures i == Plus8(i & 0xF0, i & 0x0F) && i as bv32 == Plus((i & 0xF0) as bv32, (i & 0x0F) as bv32)
  {
  }

  lemma Step8Linear(a: bv8, b: bv8)
    ensures Step8(Plus8(a, b)) == Plus8(Step8(a), Step8(b))
  {
    hide Step8, Plus8;
    if a & 0x80 == 0 && b & 0x80 == 0 {
      Linear8Low(a, b);
    } else if a & 0x80 == 0 {
      Linear8Mixed(a, b);
    } else if b & 0x80 == 0 {
      Linear8Mixed(b, a);
      Plus8Commutes(a, b);
      Plus8Commutes(Step8(a), Step8(b));
    } else {
      Linear8High(a, b);
    }
  }

  lemma Plus8Commutes(a: bv8, b: bv8)
    ensures Plus8(a, b) == Plus8(b, a)
  {
  }

  lemma Linear8Low(a: bv8, b: bv8)
    requires a & 0x80 == 0 && b & 0x80 == 0
    ensures Step8(Plus8(a, b)) == Plus8(Step8(a), Step8(b))
  {
  }

  lemma Linear8Mixed(a: bv8, b: bv8)
    requires a & 0x80 == 0 && b & 0x80 == 0x80
    ensures Step8(Plus8(a, b)) == Plus8(Step8(a), Step8(b))
  {
  }

  lemma Linear8High(a: bv8, b: bv8)
    requires a & 0x80 == 0x80 && b & 0x80 == 0x80
    ensures Step8(Plus8(a, b)) == Plus8(Step8(a), Step8(b))
  {
  }

  lemma {:induction false} Steps8Linear(a: bv8, b: bv8, n: nat)
    ensures Steps8(Plus8(a, b), n) == Plus8(Steps8(a, n), Steps8(b, n))
    decreases n
  {
    hide Step8, Plus8;
    if n > 0 {
      Step8Linear(a, b);
      Steps8Linear(Step8(a), Step8(b), n - 1);
    }
  }

  /** Every entry of either table is its index after eight steps. */
  lemma TableEntry(i: bv8)
    ensures EntriesRight(i)
  {
    hide Crc32Table, Crc8Table, Steps32, Steps8, Plus, Plus8;
    var high, low := i & 0xF0, i & 0x0F;
    Halves(i);
    TableIsLinear32(i);
    TableIsLinear8(i);
    FirstColumn(high);
    FirstRow32(low);
    FirstRow8(low);
    StepsLinear(high as bv32, low as bv32, 8);
    Steps8Linear(high, low, 8);
  }

  // ----- the CRC-32 step is linear and injective -----

  lemma StepLinear(a: bv32, b: bv32)
    ensures Step32(Plus(a, b)) == Plus(Step32(a), Step32(b))
  {
    hide Step32, Plus;
    if a & 1 == 0 && b & 1 == 0 {
      LinearEven(a, b);
    } else if a & 1 == 0 {
      LinearMixed(a, b);
    } else if b & 1 == 0 {
      LinearMixed(b, a);
      PlusCommutes(a, b);
      PlusCommutes(Step32(a), Step32(b));
    } else {
      LinearOdd(a, b);
    }
  }

  lemma PlusCommutes(a: bv32, b: bv32)
    ensures Plus(a, b) == Plus(b, a)
  {
  }

  lemma PlusAssociates(a: bv32, b: bv32, c: bv32)
    ensures Plus(Plus(a, b), c) == Plus(a, Plus(b, c))
  {
  }

  lemma PlusCancels(a: bv32, b: bv32)
    ensures Plus(Plus(a, b), b) == a
  {
  }

  lemma LinearEven(a: bv32, b: bv32)
    requires a & 1 == 0 && b & 1 == 0
    ensures Step32(Plus(a, b)) == Plus(Step32(a), Step32(b))
  {
  }

  lemma LinearOdd(a: bv32, b: bv32)
    requires a & 1 == 1 && b & 1 == 1
    ensures Step32(Plus(a, b)) == Plus(Step32(a), Step32(b))
  {
  }

  lemma LinearMixed(a: bv32, b: bv32)
    requires a & 1 == 0 && b & 1 == 1
    ensures Step32(Plus(a, b)) == Plus(Step32(a), Step32(b))
  {
  }

  lemma {:induction false} StepsLinear(a: bv32, b: bv32, n: nat)
    ensures Steps32(Plus(a, b), n) == Plus(Steps32(a, n), Steps32(b, n))
    decreases n
  {
    hide Step32, Plus;
    if n > 0 {
      StepLinear(a, b);
      StepsLinear(Step32(a), Step32(b), n - 1);
    }
  }

  lemma StepInjective(a: bv32, b: bv32)
    requires Step32(a) == Step32(b)
    ensures a == b
  {
  }

  lemma {:induction false} StepsInjective(a: bv32, b: bv32, n: nat)
    requires Steps32(a, n) == Steps32(b, n)
    ensures a == b
    decreases n
  {
    hide Step32;
    if n > 0 {
      StepsInjective(Step32(a), Step32(b), n - 1);
      StepInjective(a, b);
    }
  }

  /** What is above the lowest byte only moves down. */
  lemma HighPasses(y: bv32)
    requires y <= 0xFF_FFFF
    ensures Steps32(y << 8, 8) == y
  {
    hide Steps32;
    LowByteClear(y);
    HighMovesDown(y << 8);
  }

  lemma LowByteClear(y: bv32)
    requires y <= 0xFF_FFFF
    ensures (y << 8) & 0xFF == 0 && (y << 8) >> 8 == y
  {
  }

  lemma HighMovesDown(v: bv32)
    requires v & 0xFF == 0
    ensures Steps32(v, 8) == v >> 8
  {
  }

  lemma Absorb(u: bv32, y: bv32)
    requires y <= 0xFF_FFFF
    ensures Plus(Steps32(u, 8), y) == Steps32(Plus(u, y << 8), 8)
  {
    hide *;
    HighPasses(y);
    StepsLinear(u, y << 8, 8);
  }

  /** One turn of the loop is eight steps. */
  lemma TableByte(c: bv32, x: bv8)
    ensures TableStep32(c, x) == Steps32(Plus(c, x as bv32), 8)
  {
    hide Crc32Table, Steps32, Plus;
    var low := (Plus(c, x as bv32) & 0xFF) as bv8;
    SplitByte(c, x, low);
    TableEntry32(low);
    Absorb(low as bv32, c >> 8);
  }

  lemma SplitByte(c: bv32, x: bv8, low: bv8)
    requires low == (Plus(c, x as bv32) & 0xFF) as bv8
    ensures c >> 8 <= 0xFF_FFFF && Plus(low as bv32, (c >> 8) << 8) == Plus(c, x as bv32)
  {
  }

  lemma TableEntry32(i: bv8)
    ensures Crc32Table(i) == Steps32(i as bv32, 8)
  {
    hide Crc32Table, Steps32;
    TableEntry(i);
  }

  lemma TableEntry8(i: bv8)
    ensures Crc8Table(i) == Steps8(i, 8)
  {
    hide Crc8Table, Steps8;
    TableEntry(i);
  }

  // ----- the loops -----

  method ComputeCrc32(data: array<bv8>, size: nat) returns (r: bv32)
    requires size <= data.Length
    ensures r == Crc32(data[..size])
  {
    hide *;
    var crc: bv32 := 0xFFFF_FFFF;
    var p := 0;
    assert data[0..size] == data[..size];
    while p < size
      invariant 0 <= p <= size
      invariant Register32(crc, data[p..size]) == Register32(0xFFFF_FFFF, data[..size])
    {
      TableByte(crc, data[p]);
      RegisterStep32(crc, data[p..size]);
      assert data[p..size][1..] == data[p + 1..size];
      crc := TableStep32(crc, data[p]);
      p := p + 1;
    }
    assert data[p..size] == [];
    RegisterEnds32(crc, data[..size]);
    r := Plus(crc, 0xFFFF_FFFF);
  }

  lemma RegisterEnds32(c: bv32, m: seq<bv8>)
    ensures Register32(c, []) == c && Crc32(m) == Plus(Register32(0xFFFF_FFFF, m), 0xFFFF_FFFF)
  {
    hide Plus, Steps32;
  }

  lemma RegisterStep32(c: bv32, m: seq<bv8>)
    requires m != []
    ensures Register32(c, m) == Register32(Steps32(Plus(c, m[0] as bv32), 8), m[1..])
  {
    hide Plus, Steps32;
  }

  method ComputeCrc8(data: array<bv8>, size: nat) returns (crc: bv8)
    requires size <= data.Length
    ensures crc == Crc8(data[..size])
  {
    hide *;
    crc := 0;
    var p := 0;
    assert data[0..size] == data[..size];
    while p < size
      invariant 0 <= p <= size
      invariant Register8(crc, data[p..size]) == Register8(0, data[..size])
    {
      TableEntry8(Plus8(crc, data[p]));
      RegisterStep8(crc, data[p..size]);
      assert data[p..size][1..] == data[p + 1..size];
      crc := Crc8Table(Plus8(crc, data[p]));
      p := p + 1;
    }
    assert data[p..size] == [];
    RegisterEnds8(crc, data[..size]);
  }

  lemma RegisterEnds8(c: bv8, m: seq<bv8>)
    ensures Register8(c, []) == c && Crc8(m) == Register8(0, m)
  {
  }

  lemma RegisterStep8(c: bv8, m: seq<bv8>)
    requires m != []
    ensures Register8(c, m) == Register8(Steps8(Plus8(c, m[0]), 8), m[1..])
  {
    hide Steps8;
  }

  // ----- CRC-32 notices every change inside four bytes -----

  lemma {:induction false} RegisterAppend(c: bv32, a: seq<bv8>, b: seq<bv8>)
    ensures Register32(c, a + b) == Register32(Register32(c, a), b)
    decreases |a|
  {
    hide Steps32, Plus;
    if a == [] {
      assert a + b == b;
    } else {
      RegisterAppend(Steps32(Plus(c, a[0] as bv32), 8), a[1..], b);
      assert (a + b)[1..] == a[1..] + b;
    }
  }

  lemma {:induction false} RegisterInjective(a: bv32, b: bv32, m: seq<bv8>)
    requires Register32(a, m) == Register32(b, m)
    ensures a == b
    decreases |m|
  {
    hide Steps32, Plus;
    if m != [] {
      var x := m[0] as bv32;
      RegisterInjective(Steps32(Plus(a, x), 8), Steps32(Plus(b, x), 8), m[1..]);
      StepsInjective(Plus(a, x), Plus(b, x), 8);
      PlusCancels(a, x);
      PlusCancels(b, x);
    }
  }

  /** A byte at its place in a word, and four bytes as the register meets them: the first lowest. */
  function Placed(x: bv8, place: nat): bv32 {
    if place == 0 then x as bv32
    else if place == 1 then (x as bv32) << 8
    else if place == 2 then (x as bv32) << 16
    else (x as bv32) << 24
  }

  function Word(x0: bv8, x1: bv8, x2: bv8, x3: bv8): bv32 {
    Plus(Plus(Plus(Placed(x0, 0), Placed(x1, 1)), Placed(x2, 2)), Placed(x3, 3))
  }

  function Steps32Times4(c: bv32): bv32 {
    Steps32(Steps32(Steps32(Steps32(c, 8), 8), 8), 8)
  }

  lemma AbsorbPlaced(u: bv32, y: bv8, place: nat)
    requires place < 3
    ensures Plus(Steps32(u, 8), Placed(y, place)) == Steps32(Plus(u, Placed(y, place + 1)), 8)
  {
    hide *;
    SmallWhenPlaced(y, place);
    Absorb(u, Placed(y, place));
    PlacedNext(y, place);
  }

  lemma SmallWhenPlaced(y: bv8, place: nat)
    requires place < 3
    ensures Placed(y, place) <= 0xFF_FFFF
  {
  }

  lemma PlacedNext(y: bv8, place: nat)
    requires place < 3
    ensures Placed(y, place) << 8 == Placed(y, place + 1)
  {
  }

  lemma FourBytes(c: bv32, m: seq<bv8>)
    requires |m| == 4
    ensures Register32(c, m) == Steps32Times4(Plus(c, Word(m[0], m[1], m[2], m[3])))
  {
    hide Steps32, Plus, Placed, Register32;
    var s0 := Plus(c, Placed(m[0], 0));
    var s1 := Plus(s0, Placed(m[1], 1));
    var s2 := Plus(s1, Placed(m[2], 2));
    Unroll4(c, m);
    AbsorbPlaced(s0, m[1], 0);
    AbsorbPlaced(Steps32(s1, 8), m[2], 0);
    AbsorbPlaced(s1, m[2], 1);
    AbsorbPlaced(Steps32(Steps32(s2, 8), 8), m[3], 0);
    AbsorbPlaced(Steps32(s2, 8), m[3], 1);
    AbsorbPlaced(s2, m[3], 2);
    PlusAssociates(c, Placed(m[0], 0), Placed(m[1], 1));
    PlusAssociates(c, Plus(Placed(m[0], 0), Placed(m[1], 1)), Placed(m[2], 2));
    PlusAssociates(c, Plus(Plus(Placed(m[0], 0), Placed(m[1], 1)), Placed(m[2], 2)), Placed(m[3], 3));
  }

  lemma Unroll4(c: bv32, m: seq<bv8>)
    requires |m| == 4
    ensures Register32(c, m) ==
            Steps32(Plus(Steps32(Plus(Steps32(Plus(Steps32(Plus(c, Placed(m[0], 0)), 8), Placed(m[1], 0)), 8),
                                      Placed(m[2], 0)), 8), Placed(m[3], 0)), 8)
  {
    hide Steps32, Plus, Register32;
    var c1 := Steps32(Plus(c, Placed(m[0], 0)), 8);
    var c2 := Steps32(Plus(c1, Placed(m[1], 0)), 8);
    var c3 := Steps32(Plus(c2, Placed(m[2], 0)), 8);
    RegisterStep32(c, m);
    RegisterStep32(c1, m[1..]);
    RegisterStep32(c2, m[2..]);
    RegisterStep32(c3, m[3..]);
    RegisterEnds32(Steps32(Plus(c3, Placed(m[3], 0)), 8), m);
    assert m[1..][1..] == m[2..] && m[2..][1..] == m[3..] && m[3..][1..] == [];
  }

  lemma WordInjective(a0: bv8, a1: bv8, a2: bv8, a3: bv8, b0: bv8, b1: bv8, b2: bv8, b3: bv8)
    requires Word(a0, a1, a2, a3) == Word(b0, b1, b2, b3)
    ensures a0 == b0 && a1 == b1 && a2 == b2 && a3 == b3
  {
    hide Word;
    BytesOfWord(a0, a1, a2, a3);
    BytesOfWord(b0, b1, b2, b3);
  }

  lemma BytesOfWord(x0: bv8, x1: bv8, x2: bv8, x3: bv8)
    ensures var w := Word(x0, x1, x2, x3);
            && (w & 0xFF) as bv8 == x0 && ((w >> 8) & 0xFF) as bv8 == x1
            && ((w >> 16) & 0xFF) as bv8 == x2 && ((w >> 24) & 0xFF) as bv8 == x3
  {
  }

  lemma FourBytesInjective(c: bv32, a: seq<bv8>, b: seq<bv8>)
    requires |a| == |b| == 4 && Register32(c, a) == Register32(c, b)
    ensures a == b
  {
    hide Steps32, Plus, Word, Register32;
    FourBytes(c, a);
    FourBytes(c, b);
    var v, w := Word(a[0], a[1], a[2], a[3]), Word(b[0], b[1], b[2], b[3]);
    var x, y := Plus(c, v), Plus(c, w);
    StepsInjective(Steps32(Steps32(Steps32(x, 8), 8), 8), Steps32(Steps32(Steps32(y, 8), 8), 8), 8);
    StepsInjective(Steps32(Steps32(x, 8), 8), Steps32(Steps32(y, 8), 8), 8);
    StepsInjective(Steps32(x, 8), Steps32(y, 8), 8);
    StepsInjective(x, y, 8);
    PlusCommutes(c, v);
    PlusCommutes(c, w);
    PlusCancels(v, c);
    PlusCancels(w, c);
    WordInjective(a[0], a[1], a[2], a[3], b[0], b[1], b[2], b[3]);
  }

  /** Messages of equal length that differ, but only within four consecutive bytes, have different CRC-32 values. */
  lemma WindowIsNoticed(a: seq<bv8>, b: seq<bv8>, from: nat)
    requires |a| == |b| && a != b
    requires forall i | 0 <= i < |a| && !(from <= i < from + 4) :: a[i] == b[i]
    ensures Crc32(a) != Crc32(b)
  {
    if Crc32(a) == Crc32(b) {
      SameCrcSameWindow(a, b, from);
    }
  }

  lemma SameCrcSameWindow(a: seq<bv8>, b: seq<bv8>, from: nat)
    requires |a| == |b| && Crc32(a) == Crc32(b)
    requires forall i | 0 <= i < |a| && !(from <= i < from + 4) :: a[i] == b[i]
    ensures a == b
  {
    hide *;
    // Four zero bytes more make room for a window at the very end.
    var zeros := [0, 0, 0, 0];
    var longA, longB := a + zeros, b + zeros;
    RegisterEnds32(0, a);
    RegisterEnds32(0, b);
    PlusCancels(Register32(0xFFFF_FFFF, a), 0xFFFF_FFFF);
    PlusCancels(Register32(0xFFFF_FFFF, b), 0xFFFF_FFFF);
    RegisterAppend(0xFFFF_FFFF, a, zeros);
    RegisterAppend(0xFFFF_FFFF, b, zeros);
    var lo := if from <= |a| then from else |a|;
    assert longA[..lo] == longB[..lo] && longA[lo + 4..] == longB[lo + 4..];
    SplitAt(longA, lo);
    SplitAt(longB, lo);
    var c := Register32(0xFFFF_FFFF, longA[..lo]);
    RegisterInjective(Register32(c, longA[lo..lo + 4]), Register32(c, longB[lo..lo + 4]), longA[lo + 4..]);
    FourBytesInjective(c, longA[lo..lo + 4], longB[lo..lo + 4]);
    assert longA == longA[..lo] + longA[lo..lo + 4] + longA[lo + 4..];
    assert longB == longB[..lo] + longB[lo..lo + 4] + longB[lo + 4..];
    assert a == longA[..|a|] && b == longB[..|b|];
  }

  lemma SplitAt(m: seq<bv8>, lo: nat)
    requires lo + 4 <= |m|
    ensures Register32(0xFFFF_FFFF, m) ==
            Register32(Register32(Register32(0xFFFF_FFFF, m[..lo]), m[lo..lo + 4]), m[lo + 4..])
  {
    hide *;
    assert m == m[..lo] + (m[lo..lo + 4] + m[lo + 4..]);
    RegisterAppend(0xFFFF_FFFF, m[..lo], m[lo..lo + 4] + m[lo + 4..]);
    RegisterAppend(Register32(0xFFFF_FFFF, m[..lo]), m[lo..lo + 4], m[lo + 4..]);
  }

  // ----- which messages collide -----

  /** The sum of two messages of equal length, byte by byte. */
  function Sum(a: seq<bv8>, b: seq<bv8>): (s: seq<bv8>)
    requires |a| == |b|
    ensures |s| == |a|
  {
    seq(|a|, i requires 0 <= i < |a| => Plus8(a[i], b[i]))
  }

  lemma PlusExchanges(a: bv32, b: bv32, c: bv32, d: bv32)
    ensures Plus(Plus(a, b), Plus(c, d)) == Plus(Plus(a, c), Plus(b, d))
  {
    hide Plus;
    PlusAssociates(a, b, Plus(c, d));
    PlusAssociates(b, c, d);
    PlusCommutes(b, c);
    PlusAssociates(c, b, d);
    PlusAssociates(a, c, Plus(b, d));
  }

  lemma SumOfBytes(x: bv8, y: bv8)
    ensures Plus8(x, y) as bv32 == Plus(x as bv32, y as bv32)
  {
  }

  lemma {:induction false} RegisterIsLinear(c: bv32, d: bv32, a: seq<bv8>, b: seq<bv8>)
    requires |a| == |b|
    ensures Register32(Plus(c, d), Sum(a, b)) == Plus(Register32(c, a), Register32(d, b))
    decreases |a|
  {
    hide *;
    FirstOfSum(a, b);
    if a == [] {
      RegisterEnds32(c, a);
      RegisterEnds32(d, b);
      RegisterEnds32(Plus(c, d), a);
    } else {
      var x, y := Plus(c, a[0] as bv32), Plus(d, b[0] as bv32);
      SumOfBytes(a[0], b[0]);
      PlusExchanges(c, d, a[0] as bv32, b[0] as bv32);
      StepsLinear(x, y, 8);
      RegisterStep32(c, a);
      RegisterStep32(d, b);
      RegisterStep32(Plus(c, d), Sum(a, b));
      RegisterIsLinear(Steps32(x, 8), Steps32(y, 8), a[1..], b[1..]);
    }
  }

  lemma FirstOfSum(a: seq<bv8>, b: seq<bv8>)
    requires |a| == |b|
    ensures a == [] ==> b == [] && Sum(a, b) == []
    ensures a != [] ==> Sum(a, b)[1..] == Sum(a[1..], b[1..]) && Sum(a, b)[0] == Plus8(a[0], b[0])
  {
    hide Plus8;
  }

  lemma PlusSelf(a: bv32, b: bv32)
    ensures Plus(a, a) == 0 && (Plus(a, b) == 0 <==> a == b)
  {
  }

  /** Messages of equal length share their CRC-32 exactly when their sum leaves an empty register. */
  lemma CollideIff(a: seq<bv8>, b: seq<bv8>)
    requires |a| == |b|
    ensures Crc32(a) == Crc32(b) <==> Register32(0, Sum(a, b)) == 0
  {
    hide *;
    var c, d := Register32(0xFFFF_FFFF, a), Register32(0xFFFF_FFFF, b);
    RegisterEnds32(0, a);
    RegisterEnds32(0, b);
    PlusCancels(c, 0xFFFF_FFFF);
    PlusCancels(d, 0xFFFF_FFFF);
    RegisterIsLinear(0xFFFF_FFFF, 0xFFFF_FFFF, a, b);
    PlusSelf(0xFFFF_FFFF, 0);
    PlusSelf(c, d);
  }

  /** Five bytes are too many: two messages that differ in all of five bytes and share their CRC-32. */
  lemma FiveBytesCanCollide()
    ensures Crc32([0, 0, 0, 0, 0]) == Crc32([0x80, 0x20, 0x83, 0xB8, 0xED])
  {
  }
}
