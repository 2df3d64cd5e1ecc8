/** Numeric sensor and effecter PDRs (Tables 78 and 87 in sections 28.4 and 28.11 of DSP0248 v1.2.0): their values,
    their encoding, and which buffers start with one. */
module NumericPdr {
  import opened Bytes
  import opened Wrappers

  // ----- one value -----

  datatype Format = U8 | S8 | U16 | S16 | U32 | S32 | Real32

  /** A real32 is its four bytes. */
  type Real = s: seq<byte> | |s| == 4 witness [0, 0, 0, 0]

  /** What the byte order conversion of a 32-bit integer makes of a real32. On integers it does nothing on a
      little-endian host; a real32 may come out as anything, since its value is turned into an integer and back. */
  type Conversion = Real -> Real

  datatype Value = Integer(n: int) | Raw(bytes: seq<byte>)

  /** The codes of a data size, and of a range field format. */
  function DataFormat(code: byte): Option<Format> {
    match code
    case 0 => Some(U8)
    case 1 => Some(S8)
    case 2 => Some(U16)
    case 3 => Some(S16)
    case 4 => Some(U32)
    case 5 => Some(S32)
    case _ => None
  }

  function RangeFormat(code: byte): Option<Format> {
    if code == 6 then Some(Real32) else DataFormat(code)
  }

  function Width(f: Format): (w: nat)
    ensures w == 1 || w == 2 || w == 4
  {
    match f
    case U8 | S8 => 1
    case U16 | S16 => 2
    case U32 | S32 | Real32 => 4
  }

  predicate Typed(f: Format, v: Value) {
    match f
    case U8 => v.Integer? && 0 <= v.n < 0x100
    case S8 => v.Integer? && -0x80 <= v.n < 0x80
    case U16 => v.Integer? && 0 <= v.n < 0x1_0000
    case S16 => v.Integer? && -0x8000 <= v.n < 0x8000
    case U32 => v.Integer? && 0 <= v.n < TWO_32
    case S32 => v.Integer? && -0x8000_0000 <= v.n < 0x8000_0000
    case Real32 => v.Raw? && |v.bytes| == 4
  }

  /** Two's complement, little-endian. */
  function ValueBytes(f: Format, v: Value): (s: seq<byte>)
    requires Typed(f, v)
    ensures |s| == Width(f)
  {
    match f
    case U8 | S8 => [v.n % 0x100]
    case U16 | S16 => Le16(v.n % 0x1_0000)
    case U32 | S32 => Le32(v.n % TWO_32)
    case Real32 => v.bytes
  }

  function Signed(n: nat, range: nat): int {
    if n < range / 2 then n else n - range
  }

  function ReadValue(f: Format, s: seq<byte>): (v: Value)
    requires |s| == Width(f)
    ensures Typed(f, v)
  {
    match f
    case U8 => Integer(s[0] as int)
    case S8 => Integer(Signed(s[0] as int, 0x100))
    case U16 => Integer(Le16At(s, 0))
    case S16 => Integer(Signed(Le16At(s, 0), 0x1_0000))
    case U32 => Integer(Le32At(s, 0))
    case S32 => Integer(Signed(Le32At(s, 0), TWO_32))
    case Real32 => Raw(s)
  }

  lemma ReadIsExact(f: Format, s: seq<byte>)
    requires |s| == Width(f)
    ensures ValueBytes(f, ReadValue(f, s)) == s
  {
    hide Le16, Le32, Le16At, Le32At, Signed;
    if Width(f) == 1 {
      SignedIsModulo(s[0] as int, 0x100);
    } else if Width(f) == 2 {
      SignedIsModulo(Le16At(s, 0), 0x1_0000);
      Le16Exact(s, 0);
      assert s[0..2] == s;
    } else {
      SignedIsModulo(Le32At(s, 0), TWO_32);
      Le32Exact(s, 0);
      assert s[0..4] == s;
    }
  }

  lemma SignedIsModulo(n: nat, range: nat)
    requires range == 0x100 || range == 0x1_0000 || range == TWO_32
    requires n < range
    ensures n % range == n && Signed(n, range) % range == n
  {
    if range == 0x100 {
    } else if range == 0x1_0000 {
    } else {
    }
  }

  lemma ModuloIsSigned(n: int, range: nat)
    requires range == 0x100 || range == 0x1_0000 || range == TWO_32
    ensures 0 <= n < range ==> n % range == n
    ensures -(range / 2) <= n < range / 2 ==> Signed(n % range, range) == n
  {
    if range == 0x100 {
    } else if range == 0x1_0000 {
    } else {
    }
  }

  lemma ValueRoundTrip(f: Format, v: Value)
    requires Typed(f, v)
    ensures ReadValue(f, ValueBytes(f, v)) == v
  {
    hide Le16, Le32, Le16At, Le32At, Signed;
    var s := ValueBytes(f, v);
    match f
    case U8 => ModuloIsSigned(v.n, 0x100);
    case S8 => ModuloIsSigned(v.n, 0x100);
    case U16 =>
      ModuloIsSigned(v.n, 0x1_0000);
      Le16Back(s, v.n % 0x1_0000);
    case S16 =>
      ModuloIsSigned(v.n, 0x1_0000);
      Le16Back(s, v.n % 0x1_0000);
    case U32 =>
      ModuloIsSigned(v.n, TWO_32);
      Le32Back(s, v.n % TWO_32);
    case S32 =>
      ModuloIsSigned(v.n, TWO_32);
      Le32Back(s, v.n % TWO_32);
    case Real32 =>
  }

  lemma Le16Back(s: seq<byte>, n: u16)
    requires s == Le16(n)
    ensures Le16At(s, 0) == n
  {
    assert s[0..2] == s;
    Le16RoundTrip(s, 0, n);
  }

  lemma Le32Back(s: seq<byte>, n: u32)
    requires s == Le32(n)
    ensures Le32At(s, 0) == n
  {
    assert s[0..4] == s;
    Le32RoundTrip(s, 0, n);
  }

  // ----- a run of values of one format -----

  predicate AllTyped(f: Format, vs: seq<Value>) {
    forall i | 0 <= i < |vs| :: Typed(f, vs[i])
  }

  function ValuesBytes(f: Format, vs: seq<Value>): (s: seq<byte>)
    requires AllTyped(f, vs)
    ensures |s| == |vs| * Width(f)
  {
    if vs == [] then [] else
      var rest := vs[..|vs| - 1];
      ValuesBytes(f, rest) + ValueBytes(f, vs[|vs| - 1])
  }

  lemma LastValue(f: Format, vs: seq<Value>)
    requires vs != [] && AllTyped(f, vs)
    ensures AllTyped(f, vs[..|vs| - 1]) && Typed(f, vs[|vs| - 1])
    ensures ValuesBytes(f, vs) == ValuesBytes(f, vs[..|vs| - 1]) + ValueBytes(f, vs[|vs| - 1])
  {
  }

  lemma {:induction false} ValuesInjective(f: Format, vs: seq<Value>, ws: seq<Value>)
    requires |vs| == |ws| && AllTyped(f, vs) && AllTyped(f, ws) && ValuesBytes(f, vs) == ValuesBytes(f, ws)
    ensures vs == ws
  {
    hide Typed, ValueBytes, ReadValue, ValuesBytes;
    if vs != [] {
      var k := |vs| - 1;
      LastValue(f, vs);
      LastValue(f, ws);
      Cancel(ValuesBytes(f, vs[..k]), ValueBytes(f, vs[k]), ValuesBytes(f, ws[..k]), ValueBytes(f, ws[k]));
      ValuesInjective(f, vs[..k], ws[..k]);
      ValueRoundTrip(f, vs[k]);
      ValueRoundTrip(f, ws[k]);
      assert vs == vs[..k] + [vs[k]] && ws == ws[..k] + [ws[k]];
    }
  }

  lemma Cancel(a: seq<byte>, b: seq<byte>, c: seq<byte>, d: seq<byte>)
    requires a + b == c + d && |a| == |c|
    ensures a == c && b == d
  {
    assert a == (a + b)[..|a|] && c == (c + d)[..|c|];
    assert b == (a + b)[|a|..] && d == (c + d)[|c|..];
  }

  lemma Room(k: nat, n: nat, w: nat)
    requires k < n
    ensures (k + 1) * w == k * w + w <= n * w
  {
  }

  // ----- conversions of real32 fields -----

  function ConvertAt(conv: Conversion, s: seq<byte>, at: nat): (r: seq<byte>)
    requires at + 4 <= |s|
    ensures |r| == |s|
  {
    s[..at] + conv(s[at..at + 4]) + s[at + 4..]
  }

  predicate Inside(s: seq<byte>, offsets: seq<nat>) {
    forall i | 0 <= i < |offsets| :: offsets[i] + 4 <= |s|
  }

  /** All the real32 fields at the offsets, converted. */
  function ConvertAll(conv: Conversion, s: seq<byte>, offsets: seq<nat>): (r: seq<byte>)
    requires Inside(s, offsets)
    ensures |r| == |s|
  {
    if offsets == [] then s
    else ConvertAt(conv, ConvertAll(conv, s, offsets[..|offsets| - 1]), offsets[|offsets| - 1])
  }

  function ConvertValue(conv: Conversion, v: Value): Value {
    if v.Raw? && |v.bytes| == 4 then Raw(conv(v.bytes)) else v
  }

  function ConvertValues(conv: Conversion, vs: seq<Value>): (ws: seq<Value>)
    ensures |ws| == |vs|
  {
    seq(|vs|, i requires 0 <= i < |vs| => ConvertValue(conv, vs[i]))
  }

  predicate Apart(offsets: seq<nat>) {
    forall i, j | 0 <= i < j < |offsets| :: offsets[i] + 4 <= offsets[j]
  }

  predicate Fixes(conv: Conversion, s: seq<byte>, offsets: seq<nat>)
    requires Inside(s, offsets)
  {
    forall i | 0 <= i < |offsets| :: conv(s[offsets[i]..offsets[i] + 4]) == s[offsets[i]..offsets[i] + 4]
  }

  lemma {:induction false} ConvertsOnlyBefore(conv: Conversion, s: seq<byte>, offsets: seq<nat>, at: nat)
    requires Inside(s, offsets) && at <= |s| && forall i | 0 <= i < |offsets| :: offsets[i] + 4 <= at
    ensures ConvertAll(conv, s, offsets)[at..] == s[at..]
  {
    if offsets != [] {
      var k := |offsets| - 1;
      var t := ConvertAll(conv, s, offsets[..k]);
      ConvertsOnlyBefore(conv, s, offsets[..k], at);
      assert ConvertAt(conv, t, offsets[k])[at..] == t[at..];
    }
  }

  lemma LastConversion(conv: Conversion, s: seq<byte>, t: seq<byte>, at: nat)
    requires at + 4 <= |s| == |t| && t[at..] == s[at..]
    ensures ConvertAt(conv, t, at) == s <==> t == s && conv(s[at..at + 4]) == s[at..at + 4]
  {
    var r := ConvertAt(conv, t, at);
    assert t[at..at + 4] == t[at..][..4] == s[at..][..4] == s[at..at + 4];
    assert r[..at] == t[..at] && r[at..at + 4] == conv(s[at..at + 4]);
    assert t == t[..at] + t[at..] && s == s[..at] + s[at..];
  }

  lemma FixesFront(conv: Conversion, s: seq<byte>, offsets: seq<nat>)
    requires Inside(s, offsets) && offsets != []
    ensures var k := |offsets| - 1;
            Fixes(conv, s, offsets) <==>
            Fixes(conv, s, offsets[..k]) && conv(s[offsets[k]..offsets[k] + 4]) == s[offsets[k]..offsets[k] + 4]
  {
    var front := offsets[..|offsets| - 1];
    assert offsets == front + [offsets[|offsets| - 1]];
  }

  /** A conversion leaves a block as it is exactly when it leaves each of its real32 fields as it is. */
  lemma {:induction false} ConvertAllIff(conv: Conversion, s: seq<byte>, offsets: seq<nat>)
    requires Inside(s, offsets) && Apart(offsets)
    ensures ConvertAll(conv, s, offsets) == s <==> Fixes(conv, s, offsets)
  {
    hide ConvertAt, Fixes;
    if offsets == [] {
      NothingToFix(conv, s);
    } else {
      var k := |offsets| - 1;
      ConvertAllIff(conv, s, offsets[..k]);
      ConvertsOnlyBefore(conv, s, offsets[..k], offsets[k]);
      LastConversion(conv, s, ConvertAll(conv, s, offsets[..k]), offsets[k]);
      FixesFront(conv, s, offsets);
    }
  }

  lemma NothingToFix(conv: Conversion, s: seq<byte>)
    ensures Fixes(conv, s, []) && ConvertAll(conv, s, []) == s
  {
  }

  // ----- both PDRs: common bytes, readings, range format and support, ranges -----

  /** Where they differ: a sensor has a hysteresis and ten bytes of thresholds and intervals before its two bounds, and
      nine ranges (nominal value, normal, warning, critical and fatal limits); an effecter has none of the former, and
      five ranges (nominal value, normal and rated limits). The common bytes have real32 fields at `reals`: resolution
      and offset, and for an effecter its two intervals. */
  datatype Layout =
    Layout(pdrType: byte, common: nat, sizeAt: nat, lead: nat, middle: nat, ranges: nat, reals: seq<nat>)

  const SENSOR := Layout(2, 45, 32, 1, 10, 9, [33, 37])
  const EFFECTER := Layout(9, 54, 33, 0, 0, 5, [34, 38, 46, 50])

  predicate Known(l: Layout) {
    l == SENSOR || l == EFFECTER
  }

  function MinLength(l: Layout): nat {
    l.common + l.lead + l.middle + 4 + l.ranges
  }

  /** A PDR. The integers among the common bytes and in the middle block are kept in the host's byte order, which is
      that of the PDR. */
  datatype Numeric = Numeric(common: seq<byte>, lead: seq<Value>, middle: seq<byte>, bounds: seq<Value>,
                             rangeFormat: byte, rangeSupport: byte, ranges: seq<Value>)

  predicate Fits(l: Layout, x: Numeric) {
    && Known(l) && |x.common| == l.common && x.common[5] == l.pdrType
    && |x.lead| == l.lead && |x.middle| == l.middle && |x.bounds| == 2 && |x.ranges| == l.ranges
    && DataFormat(x.common[l.sizeAt]).Some? && RangeFormat(x.rangeFormat).Some?
    && var d := DataFormat(x.common[l.sizeAt]).value;
       AllTyped(d, x.lead) && AllTyped(d, x.bounds) && AllTyped(RangeFormat(x.rangeFormat).value, x.ranges)
  }

  function NumericBytes(l: Layout, x: Numeric): seq<byte>
    requires Fits(l, x)
  {
    var d := DataFormat(x.common[l.sizeAt]).value;
    x.common + ValuesBytes(d, x.lead) + x.middle + ValuesBytes(d, x.bounds) + [x.rangeFormat, x.rangeSupport]
    + ValuesBytes(RangeFormat(x.rangeFormat).value, x.ranges)
  }

  /** 57 + 3s + 9r bytes for a sensor, 56 + 2s + 5r for an effecter. */
  lemma NumericLength(l: Layout, x: Numeric)
    requires Fits(l, x)
    ensures var s, r := Width(DataFormat(x.common[l.sizeAt]).value), Width(RangeFormat(x.rangeFormat).value);
            |NumericBytes(l, x)| == if l == SENSOR then 57 + 3 * s + 9 * r else 56 + 2 * s + 5 * r
  {
    hide Typed, ValuesBytes, AllTyped, Width, DataFormat, RangeFormat;
  }

  // ----- what the parsers deliver -----

  /** The real32 fields of the middle block, a sensor's two intervals, are converted unless readings have 8 bits. */
  function MiddleReals(l: Layout, f: Format): seq<nat> {
    if l.middle == 10 && Width(f) > 1 then [2, 6] else []
  }

  /** A PDR with its real32 fields converted. */
  function Delivered(conv: Conversion, l: Layout, x: Numeric): Numeric
    requires Fits(l, x)
  {
    x.(common := ConvertAll(conv, x.common, l.reals),
       middle := ConvertAll(conv, x.middle, MiddleReals(l, DataFormat(x.common[l.sizeAt]).value)),
       ranges := ConvertValues(conv, x.ranges))
  }

  /** What is delivered is what was encoded exactly when the conversion leaves every real32 field converted as it is:
      those of the common bytes, of the middle block, and ranges that are real32. */
  lemma DeliveredIff(conv: Conversion, l: Layout, x: Numeric)
    requires Fits(l, x)
    ensures Delivered(conv, l, x) == x <==>
            && Fixes(conv, x.common, l.reals)
            && Fixes(conv, x.middle, MiddleReals(l, DataFormat(x.common[l.sizeAt]).value))
            && forall i | 0 <= i < |x.ranges| :: ConvertValue(conv, x.ranges[i]) == x.ranges[i]
  {
    hide ConvertAll, AllTyped, DataFormat, RangeFormat;
    var f := DataFormat(x.common[l.sizeAt]).value;
    ConvertAllIff(conv, x.common, l.reals);
    ConvertAllIff(conv, x.middle, MiddleReals(l, f));
    var ws := ConvertValues(conv, x.ranges);
    assert ws == x.ranges <==> forall i | 0 <= i < |x.ranges| :: ws[i] == x.ranges[i];
  }

  // ----- what the validators accept -----

  /** Known codes, and room for every field. */
  predicate Accepted(l: Layout, pdr: seq<byte>)
    requires Known(l)
  {
    && |pdr| >= MinLength(l) && DataFormat(pdr[l.sizeAt]).Some?
    && var s := Width(DataFormat(pdr[l.sizeAt]).value);
       var at := if l == SENSOR then 55 + 3 * s else 54 + 2 * s;
       && |pdr| >= at + 2 && RangeFormat(pdr[at]).Some?
       && |pdr| >= at + 2 + (if l == SENSOR then 9 else 5) * Width(RangeFormat(pdr[at]).value)
  }

  /** What it is for `x` to lie at the start of a buffer, field by field. */
  ghost predicate Lies(l: Layout, x: Numeric, pdr: seq<byte>)
    requires Fits(l, x)
  {
    var d, r := DataFormat(x.common[l.sizeAt]).value, RangeFormat(x.rangeFormat).value;
    var a := l.common + l.lead * Width(d);
    var b := a + l.middle;
    var c := b + 2 * Width(d);
    && c + 2 + l.ranges * Width(r) <= |pdr|
    && x.common == pdr[..l.common] && ValuesBytes(d, x.lead) == pdr[l.common..a]
    && x.middle == pdr[a..b] && ValuesBytes(d, x.bounds) == pdr[b..c]
    && [x.rangeFormat, x.rangeSupport] == pdr[c..c + 2]
    && ValuesBytes(r, x.ranges) == pdr[c + 2..c + 2 + l.ranges * Width(r)]
  }

  lemma PrefixSplit(a: seq<byte>, b: seq<byte>, p: seq<byte>)
    ensures a + b <= p <==> a <= p && |a| + |b| <= |p| && b == p[|a|..|a| + |b|]
  {
    if a + b <= p {
      assert a == (a + b)[..|a|] == p[..|a|] && b == (a + b)[|a|..] == p[|a|..|a| + |b|];
    }
    if a <= p && |a| + |b| <= |p| && b == p[|a|..|a| + |b|] {
      assert a + b == p[..|a| + |b|];
    }
  }

  lemma PrefixOfSix(a: seq<byte>, b: seq<byte>, c: seq<byte>, d: seq<byte>, e: seq<byte>, f: seq<byte>, p: seq<byte>)
    ensures var i, j := |a| + |b|, |a| + |b| + |c|;
            var k := j + |d|;
            a + b + c + d + e + f <= p <==>
              && k + |e| + |f| <= |p| && a == p[..|a|] && b == p[|a|..i] && c == p[i..j] && d == p[j..k]
              && e == p[k..k + |e|] && f == p[k + |e|..k + |e| + |f|]
  {
    PrefixSplit(a, b, p);
    PrefixSplit(a + b, c, p);
    PrefixSplit(a + b + c, d, p);
    PrefixSplit(a + b + c + d, e, p);
    PrefixSplit(a + b + c + d + e, f, p);
  }

  lemma LiesIff(l: Layout, x: Numeric, pdr: seq<byte>)
    requires Fits(l, x)
    ensures NumericBytes(l, x) <= pdr <==> Lies(l, x, pdr)
  {
    hide Typed, ValuesBytes, AllTyped, Width, DataFormat, RangeFormat;
    var d, r := DataFormat(x.common[l.sizeAt]).value, RangeFormat(x.rangeFormat).value;
    PrefixOfSix(x.common, ValuesBytes(d, x.lead), x.middle, ValuesBytes(d, x.bounds), [x.rangeFormat, x.rangeSupport],
                ValuesBytes(r, x.ranges), pdr);
  }

  /** At most one PDR of a layout lies at the start of a buffer. */
  lemma OnlyOne(l: Layout, x: Numeric, y: Numeric, pdr: seq<byte>)
    requires Fits(l, x) && Fits(l, y) && NumericBytes(l, x) <= pdr && NumericBytes(l, y) <= pdr
    ensures x == y
  {
    hide Typed, ValuesBytes, AllTyped, Width, DataFormat, RangeFormat, NumericBytes;
    LiesIff(l, x, pdr);
    LiesIff(l, y, pdr);
    var d := DataFormat(x.common[l.sizeAt]).value;
    ValuesInjective(d, x.lead, y.lead);
    ValuesInjective(d, x.bounds, y.bounds);
    assert [x.rangeFormat, x.rangeSupport][0] == [y.rangeFormat, y.rangeSupport][0];
    assert [x.rangeFormat, x.rangeSupport][1] == [y.rangeFormat, y.rangeSupport][1];
    ValuesInjective(RangeFormat(x.rangeFormat).value, x.ranges, y.ranges);
  }

  /** The validator turns no PDR away: whatever starts with an encoding is accepted. */
  lemma EncodedIsAccepted(l: Layout, x: Numeric, pdr: seq<byte>)
    requires Fits(l, x) && NumericBytes(l, x) <= pdr
    ensures Accepted(l, pdr) && pdr[5] == l.pdrType
  {
    hide Typed, ValuesBytes, AllTyped, NumericBytes, DataFormat, RangeFormat;
    LiesIff(l, x, pdr);
    var at := if l == SENSOR then 55 + 3 * Width(DataFormat(x.common[l.sizeAt]).value)
              else 54 + 2 * Width(DataFormat(x.common[l.sizeAt]).value);
    assert pdr[at] == pdr[at..at + 2][0] == x.rangeFormat;
    assert x.common[l.sizeAt] == pdr[l.sizeAt];
  }

  lemma EncodedAreAccepted(l: Layout, pdr: seq<byte>)
    requires Known(l)
    ensures (exists x: Numeric :: Fits(l, x) && NumericBytes(l, x) <= pdr) ==> Accepted(l, pdr) && pdr[5] == l.pdrType
  {
    hide NumericBytes, Fits, Accepted;
    if x: Numeric :| Fits(l, x) && NumericBytes(l, x) <= pdr {
      EncodedIsAccepted(l, x, pdr);
    }
  }

  lemma NoOther(l: Layout, x: Numeric, pdr: seq<byte>)
    requires Fits(l, x) && NumericBytes(l, x) <= pdr
    ensures forall y: Numeric | Fits(l, y) && NumericBytes(l, y) <= pdr :: y == x
  {
    hide NumericBytes, Fits;
    forall y: Numeric | Fits(l, y) && NumericBytes(l, y) <= pdr ensures y == x {
      OnlyOne(l, x, y, pdr);
    }
  }

  lemma OnlyThis(l: Layout, x: Numeric, pdr: seq<byte>, conv: Conversion)
    requires Fits(l, x) && Lies(l, x, pdr)
    ensures NumericBytes(l, x) <= pdr
    ensures forall y: Numeric | Fits(l, y) && NumericBytes(l, y) <= pdr ::
              Delivered(conv, l, y) == Delivered(conv, l, x)
  {
    hide Fits, Lies, NumericBytes, Delivered;
    LiesIff(l, x, pdr);
    NoOther(l, x, pdr);
  }

  lemma TwoBytes(pdr: seq<byte>, at: nat)
    requires at + 2 <= |pdr|
    ensures pdr[at..at + 2] == [pdr[at], pdr[at + 1]]
  {
  }
}
