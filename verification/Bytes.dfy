/** Fixed-width integers and the little-endian byte order used by every PLDM message and PDR. */
module Bytes {
  type byte = b: int | 0 <= b < 0x100
  type u16 = n: int | 0 <= n < 0x1_0000
  type u32 = n: int | 0 <= n < 0x1_0000_0000

  const U16_MAX := 0xFFFF
  const U32_MAX := 0xFFFF_FFFF
  const TWO_32 := 0x1_0000_0000

  /** Unsigned 32-bit wrap-around. */
  function Wrap32(n: int): u32 {
    n % TWO_32
  }

  lemma WrapAdd(a: int, b: int)
    ensures Wrap32(Wrap32(a) + b) == Wrap32(a + b)
  {
    var q := a / TWO_32;
    assert a + b == Wrap32(a) + b + q * TWO_32;
    WrapPeriod(Wrap32(a) + b, q);
  }

  lemma WrapPeriod(n: int, q: int)
    ensures Wrap32(n + q * TWO_32) == Wrap32(n)
  {
    var k := n / TWO_32;
    var m := n + q * TWO_32;
    assert m == (k + q) * TWO_32 + n % TWO_32;
    assert m / TWO_32 == k + q;
  }

  function Le16(n: u16): (s: seq<byte>)
    ensures |s| == 2
  {
    [n % 0x100, n / 0x100]
  }

  function Le32(n: u32): (s: seq<byte>)
    ensures |s| == 4
  {
    [n % 0x100, n / 0x100 % 0x100, n / 0x1_0000 % 0x100, n / 0x100_0000]
  }

  function Le16At(s: seq<byte>, at: nat): u16
    requires at + 2 <= |s|
  {
    s[at] as int + 0x100 * (s[at + 1] as int)
  }

  function Le32At(s: seq<byte>, at: nat): u32
    requires at + 4 <= |s|
  {
    s[at] as int + 0x100 * (s[at + 1] as int) + 0x1_0000 * (s[at + 2] as int) + 0x100_0000 * (s[at + 3] as int)
  }

  /** Reading back a 16-bit field that was stored at an offset. */
  lemma Le16RoundTrip(s: seq<byte>, at: nat, n: u16)
    requires at + 2 <= |s| && s[at..at + 2] == Le16(n)
    ensures Le16At(s, at) == n
  {
    assert s[at] == s[at..at + 2][0] && s[at + 1] == s[at..at + 2][1];
  }

  lemma Le16Exact(s: seq<byte>, at: nat)
    requires at + 2 <= |s|
    ensures s[at..at + 2] == Le16(Le16At(s, at))
  {
  }

  lemma Digits(n: u32)
    ensures n == n % 0x100 + 0x100 * (n / 0x100 % 0x100) + 0x1_0000 * (n / 0x1_0000 % 0x100)
                 + 0x100_0000 * (n / 0x100_0000)
  {
    var q1, q2, q3 := n / 0x100, n / 0x1_0000, n / 0x100_0000;
    assert n == n % 0x100 + 0x100 * q1;
    assert q1 == q1 % 0x100 + 0x100 * q2;
    assert q2 == q2 % 0x100 + 0x100 * q3;
  }

  lemma DigitsOfSum(d0: byte, d1: byte, d2: byte, d3: byte)
    ensures Le32(d0 as int + 0x100 * d1 as int + 0x1_0000 * d2 as int + 0x100_0000 * d3 as int) == [d0, d1, d2, d3]
  {
    var n := d0 as int + 0x100 * d1 as int + 0x1_0000 * d2 as int + 0x100_0000 * d3 as int;
    var q1, q2 := d1 as int + 0x100 * d2 as int + 0x1_0000 * d3 as int, d2 as int + 0x100 * d3 as int;
    assert n / 0x100 == q1 && n % 0x100 == d0;
    assert n / 0x1_0000 == q2 && q1 % 0x100 == d1;
    assert n / 0x100_0000 == d3 && q2 % 0x100 == d2;
  }

  /** Reading back a 32-bit field that was stored at an offset. */
  lemma Le32RoundTrip(s: seq<byte>, at: nat, n: u32)
    requires at + 4 <= |s| && s[at..at + 4] == Le32(n)
    ensures Le32At(s, at) == n
  {
    var f := s[at..at + 4];
    assert s[at] == f[0] && s[at + 1] == f[1] && s[at + 2] == f[2] && s[at + 3] == f[3];
    Digits(n);
  }

  /** Four bytes are the encoding of the number read from them. */
  lemma Le32Exact(s: seq<byte>, at: nat)
    requires at + 4 <= |s|
    ensures s[at..at + 4] == Le32(Le32At(s, at))
  {
    hide Le32;
    DigitsOfSum(s[at], s[at + 1], s[at + 2], s[at + 3]);
    assert s[at..at + 4] == [s[at], s[at + 1], s[at + 2], s[at + 3]];
  }

  lemma SliceOfSlice(s: seq<byte>, a: nat, b: nat, c: nat, d: nat)
    requires a <= b <= |s| && c <= d <= b - a
    ensures s[a..b][c..d] == s[a + c..a + d]
  {
    var inner := s[a..b];
    forall i | 0 <= i < d - c ensures inner[c..d][i] == s[a + c..a + d][i] {
      assert inner[c..d][i] == inner[c + i] == s[a + c + i];
    }
  }

  lemma Associates(a: seq<byte>, b: seq<byte>, c: seq<byte>)
    ensures a + (b + c) == a + b + c && |a + (b + c)| == |a| + |b| + |c|
    ensures [] + c == c && a + [] == a && b + [] == b
  {
  }

  /** Writing a field into a buffer. */
  method PutAt(buffer: array<byte>, at: nat, field: seq<byte>) returns (next: nat)
    requires at + |field| <= buffer.Length
    modifies buffer
    ensures next == at + |field| && buffer[..next] == old(buffer[..at]) + field
    ensures buffer[next..] == old(buffer[at + |field|..])
  {
    var i := 0;
    while i < |field|
      invariant 0 <= i <= |field|
      invariant buffer[..at + i] == old(buffer[..at]) + field[..i]
      invariant buffer[at + i..] == old(buffer[at + i..])
    {
      buffer[at + i] := field[i];
      i := i + 1;
    }
    next := at + |field|;
  }
}
