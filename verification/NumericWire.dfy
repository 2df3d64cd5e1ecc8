/** What the bytes of a numeric PDR say, by format codes and offsets alone, and that this is what is delivered. */
module NumericWire {
  import opened Bytes
  import opened NumericPdr
  import opened Wrappers

  // ----- the bytes -----

  /** Codes 0 to 5 are unsigned and signed numbers of 8, 16 and 32 bits in turn; 6 is a real32. */
  function SizeOfCode(code: byte): (n: nat)
    ensures n == 1 || n == 2 || n == 4
  {
    if code < 2 then 1 else if code < 4 then 2 else 4
  }

  /** A number of `n` bytes, lowest byte first. */
  function Unsigned(s: seq<byte>, at: nat, n: nat): nat
    requires at + n <= |s|
    decreases n
  {
    if n == 0 then 0 else s[at] as nat + 0x100 * Unsigned(s, at + 1, n - 1)
  }

  function RangeOf(n: nat): nat {
    if n == 1 then 0x100 else if n == 2 then 0x1_0000 else 0x1_0000_0000
  }

  /** The value at an offset; a real32 as the conversion leaves it. */
  function WireValue(code: byte, s: seq<byte>, at: nat, conv: Conversion): Value
    requires at + SizeOfCode(code) <= |s|
  {
    if code >= 6 then Raw(conv(s[at..at + 4]))
    else
      var u, range := Unsigned(s, at, SizeOfCode(code)), RangeOf(SizeOfCode(code));
      Integer(if code % 2 == 1 && u >= range / 2 then u - range else u)
  }

  /** Known codes, and as many bytes as they ask for. */
  predicate RoomFor(sensor: bool, pdr: seq<byte>) {
    && 56 <= |pdr|
    && var code := pdr[if sensor then 32 else 33];
       var s := SizeOfCode(code);
       var f := if sensor then 55 + 3 * s else 54 + 2 * s;
       && code <= 5 && f + 2 <= |pdr| && pdr[f] <= 6
       && f + 2 + (if sensor then 9 else 5) * SizeOfCode(pdr[f]) <= |pdr|
  }

  /** The readings: for a sensor a hysteresis at 45, then ten bytes, then the two bounds; for an effecter the bounds at
      54. Behind them are the range format and the range support. */
  ghost predicate ReadingsOnWire(sensor: bool, pdr: seq<byte>, conv: Conversion, v: Numeric)
    requires RoomFor(sensor, pdr)
  {
    var code := pdr[if sensor then 32 else 33];
    var s := SizeOfCode(code);
    var at := if sensor then 55 + s else 54;
    && v.lead == (if sensor then [WireValue(code, pdr, 45, conv)] else [])
    && v.bounds == [WireValue(code, pdr, at, conv), WireValue(code, pdr, at + s, conv)]
    && v.rangeFormat == pdr[at + 2 * s] && v.rangeSupport == pdr[at + 2 * s + 1]
  }

  /** The nine or five ranges, one after the other behind the range support. */
  ghost predicate RangesOnWire(sensor: bool, pdr: seq<byte>, conv: Conversion, v: Numeric)
    requires RoomFor(sensor, pdr)
  {
    var s := SizeOfCode(pdr[if sensor then 32 else 33]);
    var f := if sensor then 55 + 3 * s else 54 + 2 * s;
    var r := SizeOfCode(pdr[f]);
    && |v.ranges| == (if sensor then 9 else 5)
    && forall i | 0 <= i < |v.ranges| ::
         f + 2 + i * r + r <= |pdr| && v.ranges[i] == WireValue(pdr[f], pdr, f + 2 + i * r, conv)
  }

  /** `t` is `s` with the real32 fields at the offsets converted and all other bytes as they are. */
  ghost predicate RealsConverted(s: seq<byte>, t: seq<byte>, offsets: seq<nat>, conv: Conversion) {
    && |t| == |s|
    && (forall o | o in offsets :: o + 4 <= |s| && t[o..o + 4] == conv(s[o..o + 4]))
    && (forall i | 0 <= i < |s| && (forall o | o in offsets :: !(o <= i < o + 4)) :: t[i] == s[i])
  }

  /** The bytes before the readings, and a sensor's ten between them. Resolution, offset and the intervals are real32; a
      sensor's intervals are converted only with readings of more than eight bits. */
  ghost predicate BlocksOnWire(sensor: bool, pdr: seq<byte>, conv: Conversion, v: Numeric)
    requires RoomFor(sensor, pdr)
  {
    if sensor then
      var s := SizeOfCode(pdr[32]);
      && RealsConverted(pdr[..45], v.common, [33, 37], conv)
      && RealsConverted(pdr[45 + s..55 + s], v.middle, if s == 1 then [] else [2, 6], conv)
    else RealsConverted(pdr[..54], v.common, [34, 38, 46, 50], conv) && v.middle == []
  }

  /** All of `v` is what the bytes say. */
  ghost predicate OnWire(sensor: bool, pdr: seq<byte>, conv: Conversion, v: Numeric)
    requires RoomFor(sensor, pdr)
  {
    && ReadingsOnWire(sensor, pdr, conv, v) && RangesOnWire(sensor, pdr, conv, v)
    && BlocksOnWire(sensor, pdr, conv, v)
  }

  // ----- which buffers are accepted -----

  lemma CodesAgree(code: byte)
    ensures DataFormat(code).Some? <==> code <= 5
    ensures RangeFormat(code).Some? <==> code <= 6
    ensures code <= 5 ==> RangeFormat(code) == DataFormat(code)
    ensures code <= 6 ==> Width(RangeFormat(code).value) == SizeOfCode(code)
    ensures code == 6 ==> RangeFormat(code) == Some(Real32)
  {
  }

  /** The validators accept known codes with as many bytes as these ask for. */
  lemma AcceptedIff(l: Layout, pdr: seq<byte>)
    requires Known(l)
    ensures Accepted(l, pdr) <==> RoomFor(l == SENSOR, pdr)
  {
    hide DataFormat, RangeFormat, Width, SizeOfCode;
    if 56 <= |pdr| {
      CodesAgree(pdr[l.sizeAt]);
      var s := SizeOfCode(pdr[l.sizeAt]);
      var f := if l == SENSOR then 55 + 3 * s else 54 + 2 * s;
      if f < |pdr| {
        CodesAgree(pdr[f]);
      }
    }
  }

  // ----- one value -----

  lemma UnsignedIs(s: seq<byte>, at: nat)
    ensures at + 1 <= |s| ==> Unsigned(s, at, 1) == s[at] as int
    ensures at + 2 <= |s| ==> Unsigned(s, at, 2) == Le16At(s, at)
    ensures at + 4 <= |s| ==> Unsigned(s, at, 4) == Le32At(s, at)
  {
    if at + 4 <= |s| {
      assert Unsigned(s, at + 1, 3) == s[at + 1] as nat + 0x100 * Unsigned(s, at + 2, 2);
    }
  }

  lemma {:induction false} SameNumber(s: seq<byte>, t: seq<byte>, at: nat, from: nat, n: nat)
    requires at + n <= |s| && from + n <= |t| && s[at..at + n] == t[from..from + n]
    ensures Unsigned(s, at, n) == Unsigned(t, from, n)
    decreases n
  {
    if n > 0 {
      assert s[at] == s[at..at + n][0] && t[from] == t[from..from + n][0];
      assert s[at + 1..at + n] == s[at..at + n][1..] == t[from..from + n][1..] == t[from + 1..from + n];
      SameNumber(s, t, at + 1, from + 1, n - 1);
    }
  }

  /** A value whose bytes lie at an offset is the value that the bytes there say. */
  lemma ValueIsOnWire(code: byte, v: Value, s: seq<byte>, at: nat, conv: Conversion)
    requires code <= 6 && Typed(RangeFormat(code).value, v)
    requires at + SizeOfCode(code) <= |s| && ValueBytes(RangeFormat(code).value, v) == s[at..at + SizeOfCode(code)]
    ensures ConvertValue(conv, v) == WireValue(code, s, at, conv)
    ensures code <= 5 ==> v == WireValue(code, s, at, conv)
  {
    hide Le16, Le32, Le16At, Le32At, Unsigned;
    var n := SizeOfCode(code);
    var b := s[at..at + n];
    UnsignedIs(b, 0);
    SameNumber(s, b, at, 0, n);
    ValueRoundTrip(RangeFormat(code).value, v);
  }

  // ----- a run of values -----

  lemma PartOfConcat(a: seq<byte>, b: seq<byte>, from: nat, to: nat)
    requires from <= to <= |a| + |b|
    ensures to <= |a| ==> (a + b)[from..to] == a[from..to]
    ensures from == |a| && to == |a| + |b| ==> (a + b)[from..to] == b
  {
  }

  /** One value of a run of values lies at its place in the run. */
  lemma {:induction false} ValueInRun(f: Format, vs: seq<Value>, i: nat)
    requires AllTyped(f, vs) && i < |vs|
    ensures i * Width(f) + Width(f) <= |vs| * Width(f)
    ensures ValueBytes(f, vs[i]) == ValuesBytes(f, vs)[i * Width(f)..i * Width(f) + Width(f)]
  {
    hide Typed, ValueBytes, ValuesBytes, Width;
    Room(i, |vs|, Width(f));
    LastValue(f, vs);
    var front, w := vs[..|vs| - 1], Width(f);
    var head := ValuesBytes(f, front);
    if i < |front| {
      ValueInRun(f, front, i);
      PartOfConcat(head, ValueBytes(f, vs[|front|]), i * w, i * w + w);
    } else {
      PartOfConcat(head, ValueBytes(f, vs[i]), i * w, i * w + w);
    }
  }

  /** A run of values lies in `s` from `from` to `to`. */
  ghost predicate RunAt(code: byte, vs: seq<Value>, s: seq<byte>, from: nat, to: nat) {
    && code <= 6 && RangeFormat(code).Some? && from <= to <= |s|
    && AllTyped(RangeFormat(code).value, vs) && ValuesBytes(RangeFormat(code).value, vs) == s[from..to]
  }

  lemma RunOnWire(code: byte, vs: seq<Value>, s: seq<byte>, from: nat, to: nat, i: nat, conv: Conversion)
    requires RunAt(code, vs, s, from, to) && i < |vs|
    ensures from + i * SizeOfCode(code) + SizeOfCode(code) <= |s|
    ensures ConvertValue(conv, vs[i]) == WireValue(code, s, from + i * SizeOfCode(code), conv)
    ensures code <= 5 ==> vs[i] == WireValue(code, s, from + i * SizeOfCode(code), conv)
  {
    hide Typed, ValueBytes, ValuesBytes, Width, WireValue, ConvertValue;
    CodesAgree(code);
    var w := SizeOfCode(code);
    ValueInRun(RangeFormat(code).value, vs, i);
    SliceOfSlice(s, from, to, i * w, i * w + w);
    assert Typed(RangeFormat(code).value, vs[i]);
    ValueIsOnWire(code, vs[i], s, from + i * w, conv);
  }

  // ----- real32 fields -----

  lemma NoReals(conv: Conversion, s: seq<byte>)
    ensures RealsConverted(s, s, [], conv)
  {
  }

  lemma {:induction false} ConvertAllReals(conv: Conversion, s: seq<byte>, offsets: seq<nat>)
    requires Inside(s, offsets) && Apart(offsets)
    ensures RealsConverted(s, ConvertAll(conv, s, offsets), offsets, conv)
  {
    hide ConvertAt, RealsConverted;
    if offsets == [] {
      NoReals(conv, s);
    } else {
      var k := |offsets| - 1;
      var front, at := offsets[..k], offsets[k];
      ConvertAllReals(conv, s, front);
      ConvertsOnlyBefore(conv, s, front, at);
      OneMoreReal(conv, s, ConvertAll(conv, s, front), front, at);
      assert front + [at] == offsets;
    }
  }

  lemma OneMoreReal(conv: Conversion, s: seq<byte>, t: seq<byte>, offsets: seq<nat>, at: nat)
    requires RealsConverted(s, t, offsets, conv) && at + 4 <= |s| && t[at..] == s[at..]
    requires forall i | 0 <= i < |offsets| :: offsets[i] + 4 <= at
    ensures RealsConverted(s, ConvertAt(conv, t, at), offsets + [at], conv)
  {
    var r := ConvertAt(conv, t, at);
    assert t[at..at + 4] == t[at..][..4] == s[at..][..4] == s[at..at + 4];
    assert r[at..at + 4] == conv(s[at..at + 4]);
    forall o | o in offsets ensures o + 4 <= |s| && r[o..o + 4] == conv(s[o..o + 4]) {
      var k :| 0 <= k < |offsets| && offsets[k] == o;
      assert r[o..o + 4] == t[o..o + 4];
    }
    forall i | 0 <= i < |s| && (forall o | o in offsets + [at] :: !(o <= i < o + 4)) ensures r[i] == s[i] {
      assert at in offsets + [at];
      assert r[i] == t[i];
      assert forall o | o in offsets :: o in offsets + [at];
    }
  }

  // ----- a PDR -----

  /** The places of the fields, in numbers. */
  lemma PlacesOfReadings(l: Layout, x: Numeric, pdr: seq<byte>)
    requires Fits(l, x) && Lies(l, x, pdr) && RoomFor(l == SENSOR, pdr)
    ensures var code := pdr[l.sizeAt];
            var s := SizeOfCode(code);
            var at := if l == SENSOR then 55 + s else 54;
            && x.common == pdr[..l.common] && code == x.common[l.sizeAt]
            && x.middle == (if l == SENSOR then pdr[45 + s..55 + s] else [])
            && (l == SENSOR ==> RunAt(code, x.lead, pdr, 45, 45 + s)) && RunAt(code, x.bounds, pdr, at, at + 2 * s)
  {
    hide Typed, ValuesBytes, AllTyped, DataFormat, RangeFormat, Width, SizeOfCode;
    var code := x.common[l.sizeAt];
    assert code == pdr[l.sizeAt];
    CodesAgree(code);
  }

  lemma PlacesOfRanges(l: Layout, x: Numeric, pdr: seq<byte>)
    requires Fits(l, x) && Lies(l, x, pdr) && RoomFor(l == SENSOR, pdr)
    ensures var s := SizeOfCode(pdr[l.sizeAt]);
            var f := if l == SENSOR then 55 + 3 * s else 54 + 2 * s;
            && x.rangeFormat == pdr[f] && x.rangeSupport == pdr[f + 1]
            && RunAt(x.rangeFormat, x.ranges, pdr, f + 2, f + 2 + l.ranges * SizeOfCode(x.rangeFormat))
  {
    hide Typed, ValuesBytes, AllTyped, DataFormat, RangeFormat, Width, SizeOfCode;
    var code := x.common[l.sizeAt];
    assert code == pdr[l.sizeAt];
    CodesAgree(code);
    CodesAgree(x.rangeFormat);
    var f := if l == SENSOR then 55 + 3 * SizeOfCode(code) else 54 + 2 * SizeOfCode(code);
    TwoBytes(pdr, f);
    SamePair(x.rangeFormat, x.rangeSupport, pdr[f], pdr[f + 1]);
  }

  lemma SamePair(a: byte, b: byte, c: byte, d: byte)
    ensures [a, b] == [c, d] ==> a == c && b == d
  {
    if [a, b] == [c, d] {
      assert [a, b][0] == [c, d][0] && [a, b][1] == [c, d][1];
    }
  }

  lemma ReadingsLie(l: Layout, x: Numeric, pdr: seq<byte>, conv: Conversion)
    requires Fits(l, x) && Lies(l, x, pdr) && RoomFor(l == SENSOR, pdr)
    ensures ReadingsOnWire(l == SENSOR, pdr, conv, Delivered(conv, l, x))
  {
    hide Lies, RunAt, WireValue, ConvertAll, ConvertValues, SizeOfCode, AllTyped, DataFormat, RangeFormat;
    PlacesOfReadings(l, x, pdr);
    PlacesOfRanges(l, x, pdr);
    var code := pdr[l.sizeAt];
    var s := SizeOfCode(code);
    var at := if l == SENSOR then 55 + s else 54;
    if l == SENSOR {
      RunOnWire(code, x.lead, pdr, 45, 45 + s, 0, conv);
    }
    RunOnWire(code, x.bounds, pdr, at, at + 2 * s, 0, conv);
    RunOnWire(code, x.bounds, pdr, at, at + 2 * s, 1, conv);
  }

  lemma RangesLie(l: Layout, x: Numeric, pdr: seq<byte>, conv: Conversion)
    requires Fits(l, x) && Lies(l, x, pdr) && RoomFor(l == SENSOR, pdr)
    ensures RangesOnWire(l == SENSOR, pdr, conv, Delivered(conv, l, x))
  {
    hide Lies, RunAt, WireValue, ConvertAll, ConvertValue, SizeOfCode, AllTyped, DataFormat, RangeFormat;
    PlacesOfRanges(l, x, pdr);
    var s := SizeOfCode(pdr[l.sizeAt]);
    var f := if l == SENSOR then 55 + 3 * s else 54 + 2 * s;
    var r := SizeOfCode(pdr[f]);
    forall i | 0 <= i < |x.ranges|
      ensures f + 2 + i * r + r <= |pdr|
      ensures ConvertValue(conv, x.ranges[i]) == WireValue(pdr[f], pdr, f + 2 + i * r, conv)
    {
      RunOnWire(pdr[f], x.ranges, pdr, f + 2, f + 2 + l.ranges * r, i, conv);
    }
  }

  lemma BlocksLie(l: Layout, x: Numeric, pdr: seq<byte>, conv: Conversion)
    requires Fits(l, x) && Lies(l, x, pdr) && RoomFor(l == SENSOR, pdr)
    ensures BlocksOnWire(l == SENSOR, pdr, conv, Delivered(conv, l, x))
  {
    hide Lies, RunAt, RealsConverted, ConvertAll, ConvertValues, SizeOfCode, AllTyped, DataFormat, RangeFormat, Width;
    PlacesOfReadings(l, x, pdr);
    CodesAgree(pdr[l.sizeAt]);
    ConvertAllReals(conv, x.common, l.reals);
    ConvertAllReals(conv, x.middle, MiddleReals(l, DataFormat(pdr[l.sizeAt]).value));
  }

  /** What the parser delivers is, value by value, what the bytes say. */
  lemma DeliveredIsOnWire(l: Layout, x: Numeric, pdr: seq<byte>, conv: Conversion)
    requires Fits(l, x) && NumericBytes(l, x) <= pdr
    ensures RoomFor(l == SENSOR, pdr) && OnWire(l == SENSOR, pdr, conv, Delivered(conv, l, x))
  {
    EncodedIsAccepted(l, x, pdr);
    AcceptedIff(l, pdr);
    LiesIff(l, x, pdr);
    hide NumericBytes, Lies, Accepted, ReadingsOnWire, RangesOnWire, BlocksOnWire, Delivered;
    ReadingsLie(l, x, pdr, conv);
    RangesLie(l, x, pdr, conv);
    BlocksLie(l, x, pdr, conv);
  }
}
