/** The code for numeric sensor and effecter PDRs: the length validators, and the readers that move a cursor. */
module NumericParse {
  import opened Bytes
  import opened NumericPdr
  import opened NumericWire
  import opened Wrappers

  // ----- the length validators -----

  method ValidateSensorLength(pdr: seq<byte>) returns (ok: bool)
    requires |pdr| >= 69
    ensures ok == Accepted(SENSOR, pdr)
  {
    var minSize, rangeFormatAt := 69, 45 + 13;
    match pdr[32] {
      case 0 | 1 =>
      case 2 | 3 => minSize, rangeFormatAt := minSize + 3, rangeFormatAt + 3;
      case 4 | 5 => minSize, rangeFormatAt := minSize + 9, rangeFormatAt + 9;
      case _ => return false;
    }
    if |pdr| < minSize {
      return false;
    }
    match pdr[rangeFormatAt] {
      case 0 | 1 =>
      case 2 | 3 => minSize := minSize + 9;
      case 4 | 5 | 6 => minSize := minSize + 27;
      case _ => return false;
    }
    ok := |pdr| >= minSize;
  }

  method ValidateEffecterLength(pdr: seq<byte>) returns (ok: bool)
    requires |pdr| >= 63
    ensures ok == Accepted(EFFECTER, pdr)
  {
    var minSize, rangeFormatAt := 63, 54 + 2;
    match pdr[33] {
      case 0 | 1 =>
      case 2 | 3 => minSize, rangeFormatAt := minSize + 2, rangeFormatAt + 2;
      case 4 | 5 => minSize, rangeFormatAt := minSize + 6, rangeFormatAt + 6;
      case _ => return false;
    }
    if |pdr| < minSize {
      return false;
    }
    match pdr[rangeFormatAt] {
      case 0 | 1 =>
      case 2 | 3 => minSize := minSize + 5;
      case 4 | 5 | 6 => minSize := minSize + 15;
      case _ => return false;
    }
    ok := |pdr| >= minSize;
  }

  // ----- the readers -----

  /** Consecutive fields of one format, each copied at the cursor, which then moves past it. */
  method Take(pdr: seq<byte>, at: nat, f: Format, n: nat) returns (vs: seq<Value>, next: nat)
    requires at + n * Width(f) <= |pdr|
    ensures |vs| == n && AllTyped(f, vs) && next == at + n * Width(f) && ValuesBytes(f, vs) == pdr[at..next]
  {
    hide Typed, ValueBytes, ReadValue, Width;
    vs, next := [], at;
    while |vs| < n
      invariant |vs| <= n && AllTyped(f, vs) && next == at + |vs| * Width(f) <= |pdr|
      invariant ValuesBytes(f, vs) == pdr[at..next]
    {
      Room(|vs|, n, Width(f));
      var field := pdr[next..next + Width(f)];
      ReadIsExact(f, field);
      assert (vs + [ReadValue(f, field)])[..|vs|] == vs;
      assert pdr[at..next] + field == pdr[at..next + Width(f)];
      vs, next := vs + [ReadValue(f, field)], next + Width(f);
    }
  }

  /** The cursor over the readings, which fails on a data size it does not know. */
  method ReadReadings(l: Layout, pdr: seq<byte>, at: nat, code: byte, conv: Conversion)
    returns (ok: bool, lead: seq<Value>, middle: seq<byte>, bounds: seq<Value>, next: nat)
    requires Known(l)
    requires DataFormat(code).Some? ==> at + (l.lead + 2) * Width(DataFormat(code).value) + l.middle <= |pdr|
    ensures ok == DataFormat(code).Some?
    ensures ok ==>
              var d := DataFormat(code).value;
              var a := at + l.lead * Width(d);
              && AllTyped(d, lead) && |lead| == l.lead && ValuesBytes(d, lead) == pdr[at..a]
              && middle == ConvertAll(conv, pdr[a..a + l.middle], MiddleReals(l, d))
              && next == a + l.middle + 2 * Width(d)
              && AllTyped(d, bounds) && |bounds| == 2 && ValuesBytes(d, bounds) == pdr[a + l.middle..next]
  {
    hide Typed, ValuesBytes, AllTyped, Width;
    lead, middle, bounds, next := [], [], [], at;
    var f := DataFormat(code);
    if f.None? {
      return false, lead, middle, bounds, next;
    }
    ok := true;
    lead, next := Take(pdr, next, f.value, l.lead);
    middle := ConvertAll(conv, pdr[next..next + l.middle], MiddleReals(l, f.value));
    next := next + l.middle;
    bounds, next := Take(pdr, next, f.value, 2);
  }

  /** The cursor over the ranges; `raw` are the values before their conversion. */
  method ReadRanges(l: Layout, pdr: seq<byte>, at: nat, code: byte, conv: Conversion)
    returns (ok: bool, ranges: seq<Value>, ghost raw: seq<Value>)
    requires RangeFormat(code).Some? ==> at + l.ranges * Width(RangeFormat(code).value) <= |pdr|
    ensures ok == RangeFormat(code).Some? && ranges == ConvertValues(conv, raw)
    ensures ok ==>
              var r := RangeFormat(code).value;
              AllTyped(r, raw) && |raw| == l.ranges && ValuesBytes(r, raw) == pdr[at..at + l.ranges * Width(r)]
  {
    hide Typed, ValuesBytes, AllTyped, Width;
    raw := [];
    ranges := [];
    var f := RangeFormat(code);
    if f.None? {
      return false, ranges, raw;
    }
    ok := true;
    var vs, next := Take(pdr, at, f.value, l.ranges);
    ranges := ConvertValues(conv, vs);
    raw := vs;
  }

  /** The readers over an accepted PDR: neither fails. */
  method ReadAccepted(l: Layout, pdr: seq<byte>, conv: Conversion) returns (result: Numeric)
    requires Known(l) && Accepted(l, pdr) && pdr[5] == l.pdrType
    ensures exists x: Numeric :: Fits(l, x) && NumericBytes(l, x) <= pdr && result == Delivered(conv, l, x)
    ensures forall x: Numeric | Fits(l, x) && NumericBytes(l, x) <= pdr :: result == Delivered(conv, l, x)
  {
    hide Typed, ValuesBytes, AllTyped, NumericBytes, DataFormat, RangeFormat, Width, ConvertAll, ConvertValues;
    var common := ConvertAll(conv, pdr[..l.common], l.reals);
    var ok, lead, middle, bounds, at := ReadReadings(l, pdr, l.common, pdr[l.sizeAt], conv);
    assert ok;
    var format, support := pdr[at], pdr[at + 1];
    var inRange, ranges;
    ghost var raw;
    inRange, ranges, raw := ReadRanges(l, pdr, at + 2, format, conv);
    assert inRange;
    result := Numeric(common, lead, middle, bounds, format, support, ranges);
    ghost var from := at - 2 * Width(DataFormat(pdr[l.sizeAt]).value) - l.middle;
    ghost var x := Numeric(pdr[..l.common], lead, pdr[from..from + l.middle], bounds, format, support, raw);
    TwoBytes(pdr, at);
    assert Fits(l, x) && Lies(l, x, pdr);
    assert result == Delivered(conv, l, x);
    OnlyThis(l, x, pdr, conv);
  }

  /** The parser accepts exactly the buffers that start with the encoding of a PDR of the layout, and delivers that PDR,
      its real32 fields converted. Once the validator has accepted, neither reader fails. The sensor parser asserts the
      PDR type; the effecter parser checks it. Both in terms of encodings and in terms of the bytes. */
  method Parse(l: Layout, pdr: seq<byte>, conv: Conversion) returns (result: Option<Numeric>)
    requires Known(l) && (l == SENSOR && |pdr| >= MinLength(l) ==> pdr[5] == l.pdrType)
    ensures result.Some? <==> Accepted(l, pdr) && pdr[5] == l.pdrType
    ensures result.Some? ==>
              exists x: Numeric :: Fits(l, x) && NumericBytes(l, x) <= pdr && result.value == Delivered(conv, l, x)
    ensures forall x: Numeric | Fits(l, x) && NumericBytes(l, x) <= pdr :: result == Some(Delivered(conv, l, x))
    ensures result.Some? <==> RoomFor(l == SENSOR, pdr) && pdr[5] == if l == SENSOR then 2 else 9
    ensures result.Some? ==> OnWire(l == SENSOR, pdr, conv, result.value)
  {
    hide Typed, ValuesBytes, AllTyped, NumericBytes, DataFormat, RangeFormat, Width, Delivered, Fits, OnWire,
         RoomFor;
    EncodedAreAccepted(l, pdr);
    AcceptedIff(l, pdr);
    if |pdr| < MinLength(l) {
      return None;
    }
    if l == EFFECTER && pdr[5] != l.pdrType {
      return None;
    }
    var valid;
    if l == SENSOR {
      valid := ValidateSensorLength(pdr);
    } else {
      valid := ValidateEffecterLength(pdr);
    }
    if !valid {
      return None;
    }
    var x := ReadAccepted(l, pdr, conv);
    ghost var y: Numeric :| Fits(l, y) && NumericBytes(l, y) <= pdr && x == Delivered(conv, l, y);
    DeliveredIsOnWire(l, y, pdr, conv);
    result := Some(x);
  }
}
