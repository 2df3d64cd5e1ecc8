/** The CRC-32 and CRC-8 of the utilities: table-driven loops against division of polynomials over GF(2). */
module Gf2 {
  // A polynomial is its coefficients, highest degree first.

  /** `b` added into the leading coefficients of `a`. */
  function Xor(a: seq<bool>, b: seq<bool>): (s: seq<bool>)
    requires |b| <= |a|
    ensures |s| == |a|
  {
    seq(|a|, i requires 0 <= i < |a| => if i < |b| then a[i] != b[i] else a[i])
  }

  function Zeros(n: nat): (s: seq<bool>)
    ensures |s| == n
  {
    seq(n, _ => false)
  }

  /** Long division: what is left of `s` after dividing by the generator `g`. */
  function Remainder(s: seq<bool>, g: seq<bool>): (r: seq<bool>)
    requires |g| >= 2 && |s| >= |g| - 1
    ensures |r| == |g| - 1
    decreases |s|
  {
    if |s| < |g| then s else Remainder((if s[0] then Xor(s, g) else s)[1..], g)
  }

  /** One message bit into a shift register. */
  function Feed(reg: seq<bool>, bit: bool, g: seq<bool>): (r: seq<bool>)
    requires |g| == |reg| + 1 >= 2
    ensures |r| == |reg|
  {
    var shifted := reg[1..] + [false];
    if reg[0] != bit then Xor(shifted, g[1..]) else shifted
  }

  function FeedAll(reg: seq<bool>, bits: seq<bool>, g: seq<bool>): (r: seq<bool>)
    requires |g| == |reg| + 1 >= 2
    ensures |r| == |reg|
    decreases |bits|
  {
    if bits == [] then reg else FeedAll(Feed(reg, bits[0], g), bits[1..], g)
  }

  lemma {:induction false} FeedAppend(reg: seq<bool>, a: seq<bool>, b: seq<bool>, g: seq<bool>)
    requires |g| == |reg| + 1 >= 2
    ensures FeedAll(reg, a + b, g) == FeedAll(FeedAll(reg, a, g), b, g)
    decreases |a|
  {
    if a == [] {
      assert a + b == b;
    } else {
      assert (a + b)[1..] == a[1..] + b;
      FeedAppend(Feed(reg, a[0], g), a[1..], b, g);
    }
  }

  /** A shift register divides: feeding it the message is dividing the message, shifted up by the degree of the
      generator and with the register's first content added at its top. */
  lemma {:induction false} FeedIsDivision(reg: seq<bool>, bits: seq<bool>, g: seq<bool>)
    requires |g| == |reg| + 1 >= 2 && g[0]
    ensures FeedAll(reg, bits, g) == Remainder(Xor(bits + Zeros(|reg|), reg), g)
    decreases |bits|
  {
    hide Feed, Xor;
    if bits == [] {
      XorWhole(reg);
    } else {
      FeedIsDivision(Feed(reg, bits[0], g), bits[1..], g);
      DivisionStep(reg, bits, g);
    }
  }

  lemma XorWhole(reg: seq<bool>)
    ensures Xor([] + Zeros(|reg|), reg) == reg
  {
  }

  /** One subtraction of the generator, at most, and the leading coefficient is gone. */
  lemma DivisionStep(reg: seq<bool>, bits: seq<bool>, g: seq<bool>)
    requires |g| == |reg| + 1 >= 2 && g[0] && bits != []
    ensures var s := Xor(bits + Zeros(|reg|), reg);
            (if s[0] then Xor(s, g) else s)[1..] == Xor(bits[1..] + Zeros(|reg|), Feed(reg, bits[0], g))
  {
    var s := Xor(bits + Zeros(|reg|), reg);
    var left, right := if s[0] then Xor(s, g) else s, Xor(bits[1..] + Zeros(|reg|), Feed(reg, bits[0], g));
    forall i | 0 <= i < |right| ensures left[i + 1] == right[i] {
      assert (bits + Zeros(|reg|))[i + 1] == (bits[1..] + Zeros(|reg|))[i];
      assert i + 1 < |reg| ==> (reg[1..] + [false])[i] == reg[i + 1];
    }
  }
}

module Crc {
  import opened Gf2

  const CRC32_POLYNOMIAL: bv32 := 0xEDB8_8320
  const CRC8_POLYNOMIAL: bv8 := 0x07

  // The tables, sixteen entries a row.

  function Crc32Table(i: bv8): bv32 {
    match i >> 4
    case 0 => (match i & 0x0F
      case 0 => 0x00000000 case 1 => 0x77073096 case 2 => 0xee0e612c case 3 => 0x990951ba
      case 4 => 0x076dc419 case 5 => 0x706af48f case 6 => 0xe963a535 case 7 => 0x9e6495a3
      case 8 => 0x0edb8832 case 9 => 0x79dcb8a4 case 10 => 0xe0d5e91e case 11 => 0x97d2d988
      case 12 => 0x09b64c2b case 13 => 0x7eb17cbd case 14 => 0xe7b82d07 case _ => 0x90bf1d91)
    case 1 => (match i & 0x0F
      case 0 => 0x1db71064 case 1 => 0x6ab020f2 case 2 => 0xf3b97148 case 3 => 0x84be41de
      case 4 => 0x1adad47d case 5 => 0x6ddde4eb case 6 => 0xf4d4b551 case 7 => 0x83d385c7
      case 8 => 0x136c9856 case 9 => 0x646ba8c0 case 10 => 0xfd62f97a case 11 => 0x8a65c9ec
      case 12 => 0x14015c4f case 13 => 0x63066cd9 case 14 => 0xfa0f3d63 case _ => 0x8d080df5)
    case 2 => (match i & 0x0F
      case 0 => 0x3b6e20c8 case 1 => 0x4c69105e case 2 => 0xd56041e4 case 3 => 0xa2677172
      case 4 => 0x3c03e4d1 case 5 => 0x4b04d447 case 6 => 0xd20d85fd case 7 => 0xa50ab56b
      case 8 => 0x35b5a8fa case 9 => 0x42b2986c case 10 => 0xdbbbc9d6 case 11 => 0xacbcf940
      case 12 => 0x32d86ce3 case 13 => 0x45df5c75 case 14 => 0xdcd60dcf case _ => 0xabd13d59)
    case 3 => (match i & 0x0F
      case 0 => 0x26d930ac case 1 => 0x51de003a case 2 => 0xc8d75180 case 3 => 0xbfd06116
      case 4 => 0x21b4f4b5 case 5 => 0x56b3c423 case 6 => 0xcfba9599 case 7 => 0xb8bda50f
      case 8 => 0x2802b89e case 9 => 0x5f058808 case 10 => 0xc60cd9b2 case 11 => 0xb10be924
      case 12 => 0x2f6f7c87 case 13 => 0x58684c11 case 14 => 0xc1611dab case _ => 0xb6662d3d)
    case 4 => (match i & 0x0F
      case 0 => 0x76dc4190 case 1 => 0x01db7106 case 2 => 0x98d220bc case 3 => 0xefd5102a
      case 4 => 0x71b18589 case 5 => 0x06b6b51f case 6 => 0x9fbfe4a5 case 7 => 0xe8b8d433
      case 8 => 0x7807c9a2 case 9 => 0x0f00f934 case 10 => 0x9609a88e case 11 => 0xe10e9818
      case 12 => 0x7f6a0dbb case 13 => 0x086d3d2d case 14 => 0x91646c97 case _ => 0xe6635c01)
    case 5 => (match i & 0x0F
      case 0 => 0x6b6b51f4 case 1 => 0x1c6c6162 case 2 => 0x856530d8 case 3 => 0xf262004e
      case 4 => 0x6c0695ed case 5 => 0x1b01a57b case 6 => 0x8208f4c1 case 7 => 0xf50fc457
      case 8 => 0x65b0d9c6 case 9 => 0x12b7e950 case 10 => 0x8bbeb8ea case 11 => 0xfcb9887c
      case 12 => 0x62dd1ddf case 13 => 0x15da2d49 case 14 => 0x8cd37cf3 case _ => 0xfbd44c65)
    case 6 => (match i & 0x0F
      case 0 => 0x4db26158 case 1 => 0x3ab551ce case 2 => 0xa3bc0074 case 3 => 0xd4bb30e2
      case 4 => 0x4adfa541 case 5 => 0x3dd895d7 case 6 => 0xa4d1c46d case 7 => 0xd3d6f4fb
      case 8 => 0x4369e96a case 9 => 0x346ed9fc case 10 => 0xad678846 case 11 => 0xda60b8d0
      case 12 => 0x44042d73 case 13 => 0x33031de5 case 14 => 0xaa0a4c5f case _ => 0xdd0d7cc9)
    case 7 => (match i & 0x0F
      case 0 => 0x5005713c case 1 => 0x270241aa case 2 => 0xbe0b1010 case 3 => 0xc90c2086
      case 4 => 0x5768b525 case 5 => 0x206f85b3 case 6 => 0xb966d409 case 7 => 0xce61e49f
      case 8 => 0x5edef90e case 9 => 0x29d9c998 case 10 => 0xb0d09822 case 11 => 0xc7d7a8b4
      case 12 => 0x59b33d17 case 13 => 0x2eb40d81 case 14 => 0xb7bd5c3b case _ => 0xc0ba6cad)
    case 8 => (match i & 0x0F
      case 0 => 0xedb88320 case 1 => 0x9abfb3b6 case 2 => 0x03b6e20c case 3 => 0x74b1d29a
      case 4 => 0xead54739 case 5 => 0x9dd277af case 6 => 0x04db2615 case 7 => 0x73dc1683
      case 8 => 0xe3630b12 case 9 => 0x94643b84 case 10 => 0x0d6d6a3e case 11 => 0x7a6a5aa8
      case 12 => 0xe40ecf0b case 13 => 0x9309ff9d case 14 => 0x0a00ae27 case _ => 0x7d079eb1)
    case 9 => (match i & 0x0F
      case 0 => 0xf00f9344 case 1 => 0x8708a3d2 case 2 => 0x1e01f268 case 3 => 0x6906c2fe
      case 4 => 0xf762575d case 5 => 0x806567cb case 6 => 0x196c3671 case 7 => 0x6e6b06e7
      case 8 => 0xfed41b76 case 9 => 0x89d32be0 case 10 => 0x10da7a5a case 11 => 0x67dd4acc
      case 12 => 0xf9b9df6f case 13 => 0x8ebeeff9 case 14 => 0x17b7be43 case _ => 0x60b08ed5)
    case 10 => (match i & 0x0F
      case 0 => 0xd6d6a3e8 case 1 => 0xa1d1937e case 2 => 0x38d8c2c4 case 3 => 0x4fdff252
      case 4 => 0xd1bb67f1 case 5 => 0xa6bc5767 case 6 => 0x3fb506dd case 7 => 0x48b2364b
      case 8 => 0xd80d2bda case 9 => 0xaf0a1b4c case 10 => 0x36034af6 case 11 => 0x41047a60
      case 12 => 0xdf60efc3 case 13 => 0xa867df55 case 14 => 0x316e8eef case _ => 0x4669be79)
    case 11 => (match i & 0x0F
      case 0 => 0xcb61b38c case 1 => 0xbc66831a case 2 => 0x256fd2a0 case 3 => 0x5268e236
      case 4 => 0xcc0c7795 case 5 => 0xbb0b4703 case 6 => 0x220216b9 case 7 => 0x5505262f
      case 8 => 0xc5ba3bbe case 9 => 0xb2bd0b28 case 10 => 0x2bb45a92 case 11 => 0x5cb36a04
      case 12 => 0xc2d7ffa7 case 13 => 0xb5d0cf31 case 14 => 0x2cd99e8b case _ => 0x5bdeae1d)
    case 12 => (match i & 0x0F
      case 0 => 0x9b64c2b0 case 1 => 0xec63f226 case 2 => 0x756aa39c case 3 => 0x026d930a
      case 4 => 0x9c0906a9 case 5 => 0xeb0e363f case 6 => 0x72076785 case 7 => 0x05005713
      case 8 => 0x95bf4a82 case 9 => 0xe2b87a14 case 10 => 0x7bb12bae case 11 => 0x0cb61b38
      case 12 => 0x92d28e9b case 13 => 0xe5d5be0d case 14 => 0x7cdcefb7 case _ => 0x0bdbdf21)
    case 13 => (match i & 0x0F
      case 0 => 0x86d3d2d4 case 1 => 0xf1d4e242 case 2 => 0x68ddb3f8 case 3 => 0x1fda836e
      case 4 => 0x81be16cd case 5 => 0xf6b9265b case 6 => 0x6fb077e1 case 7 => 0x18b74777
      case 8 => 0x88085ae6 case 9 => 0xff0f6a70 case 10 => 0x66063bca case 11 => 0x11010b5c
      case 12 => 0x8f659eff case 13 => 0xf862ae69 case 14 => 0x616bffd3 case _ => 0x166ccf45)
    case 14 => (match i & 0x0F
      case 0 => 0xa00ae278 case 1 => 0xd70dd2ee case 2 => 0x4e048354 case 3 => 0x3903b3c2
      case 4 => 0xa7672661 case 5 => 0xd06016f7 case 6 => 0x4969474d case 7 => 0x3e6e77db
      case 8 => 0xaed16a4a case 9 => 0xd9d65adc case 10 => 0x40df0b66 case 11 => 0x37d83bf0
      case 12 => 0xa9bcae53 case 13 => 0xdebb9ec5 case 14 => 0x47b2cf7f case _ => 0x30b5ffe9)
    case _ => (match i & 0x0F
      case 0 => 0xbdbdf21c case 1 => 0xcabac28a case 2 => 0x53b39330 case 3 => 0x24b4a3a6
      case 4 => 0xbad03605 case 5 => 0xcdd70693 case 6 => 0x54de5729 case 7 => 0x23d967bf
      case 8 => 0xb3667a2e case 9 => 0xc4614ab8 case 10 => 0x5d681b02 case 11 => 0x2a6f2b94
      case 12 => 0xb40bbe37 case 13 => 0xc30c8ea1 case 14 => 0x5a05df1b case _ => 0x2d02ef8d)
  }

  function Crc8Table(i: bv8): bv8 {
    match i >> 4
    case 0 => (match i & 0x0F
      case 0 => 0x00 case 1 => 0x07 case 2 => 0x0e case 3 => 0x09
      case 4 => 0x1c case 5 => 0x1b case 6 => 0x12 case 7 => 0x15
      case 8 => 0x38 case 9 => 0x3f case 10 => 0x36 case 11 => 0x31
      case 12 => 0x24 case 13 => 0x23 case 14 => 0x2a case _ => 0x2d)
    case 1 => (match i & 0x0F
      case 0 => 0x70 case 1 => 0x77 case 2 => 0x7e case 3 => 0x79
      case 4 => 0x6c case 5 => 0x6b case 6 => 0x62 case 7 => 0x65
      case 8 => 0x48 case 9 => 0x4f case 10 => 0x46 case 11 => 0x41
      case 12 => 0x54 case 13 => 0x53 case 14 => 0x5a case _ => 0x5d)
    case 2 => (match i & 0x0F
      case 0 => 0xe0 case 1 => 0xe7 case 2 => 0xee case 3 => 0xe9
      case 4 => 0xfc case 5 => 0xfb case 6 => 0xf2 case 7 => 0xf5
      case 8 => 0xd8 case 9 => 0xdf case 10 => 0xd6 case 11 => 0xd1
      case 12 => 0xc4 case 13 => 0xc3 case 14 => 0xca case _ => 0xcd)
    case 3 => (match i & 0x0F
      case 0 => 0x90 case 1 => 0x97 case 2 => 0x9e case 3 => 0x99
      case 4 => 0x8c case 5 => 0x8b case 6 => 0x82 case 7 => 0x85
      case 8 => 0xa8 case 9 => 0xaf case 10 => 0xa6 case 11 => 0xa1
      case 12 => 0xb4 case 13 => 0xb3 case 14 => 0xba case _ => 0xbd)
    case 4 => (match i & 0x0F
      case 0 => 0xc7 case 1 => 0xc0 case 2 => 0xc9 case 3 => 0xce
      case 4 => 0xdb case 5 => 0xdc case 6 => 0xd5 case 7 => 0xd2
      case 8 => 0xff case 9 => 0xf8 case 10 => 0xf1 case 11 => 0xf6
      case 12 => 0xe3 case 13 => 0xe4 case 14 => 0xed case _ => 0xea)
    case 5 => (match i & 0x0F
      case 0 => 0xb7 case 1 => 0xb0 case 2 => 0xb9 case 3 => 0xbe
      case 4 => 0xab case 5 => 0xac case 6 => 0xa5 case 7 => 0xa2
      case 8 => 0x8f case 9 => 0x88 case 10 => 0x81 case 11 => 0x86
      case 12 => 0x93 case 13 => 0x94 case 14 => 0x9d case _ => 0x9a)
    case 6 => (match i & 0x0F
      case 0 => 0x27 case 1 => 0x20 case 2 => 0x29 case 3 => 0x2e
      case 4 => 0x3b case 5 => 0x3c case 6 => 0x35 case 7 => 0x32
      case 8 => 0x1f case 9 => 0x18 case 10 => 0x11 case 11 => 0x16
      case 12 => 0x03 case 13 => 0x04 case 14 => 0x0d case _ => 0x0a)
    case 7 => (match i & 0x0F
      case 0 => 0x57 case 1 => 0x50 case 2 => 0x59 case 3 => 0x5e
      case 4 => 0x4b case 5 => 0x4c case 6 => 0x45 case 7 => 0x42
      case 8 => 0x6f case 9 => 0x68 case 10 => 0x61 case 11 => 0x66
      case 12 => 0x73 case 13 => 0x74 case 14 => 0x7d case _ => 0x7a)
    case 8 => (match i & 0x0F
      case 0 => 0x89 case 1 => 0x8e case 2 => 0x87 case 3 => 0x80
      case 4 => 0x95 case 5 => 0x92 case 6 => 0x9b case 7 => 0x9c
      case 8 => 0xb1 case 9 => 0xb6 case 10 => 0xbf case 11 => 0xb8
      case 12 => 0xad case 13 => 0xaa case 14 => 0xa3 case _ => 0xa4)
    case 9 => (match i & 0x0F
      case 0 => 0xf9 case 1 => 0xfe case 2 => 0xf7 case 3 => 0xf0
      case 4 => 0xe5 case 5 => 0xe2 case 6 => 0xeb case 7 => 0xec
      case 8 => 0xc1 case 9 => 0xc6 case 10 => 0xcf case 11 => 0xc8
      case 12 => 0xdd case 13 => 0xda case 14 => 0xd3 case _ => 0xd4)
    case 10 => (match i & 0x0F
      case 0 => 0x69 case 1 => 0x6e case 2 => 0x67 case 3 => 0x60
      case 4 => 0x75 case 5 => 0x72 case 6 => 0x7b case 7 => 0x7c
      case 8 => 0x51 case 9 => 0x56 case 10 => 0x5f case 11 => 0x58
      case 12 => 0x4d case 13 => 0x4a case 14 => 0x43 case _ => 0x44)
    case 11 => (match i & 0x0F
      case 0 => 0x19 case 1 => 0x1e case 2 => 0x17 case 3 => 0x10
      case 4 => 0x05 case 5 => 0x02 case 6 => 0x0b case 7 => 0x0c
      case 8 => 0x21 case 9 => 0x26 case 10 => 0x2f case 11 => 0x28
      case 12 => 0x3d case 13 => 0x3a case 14 => 0x33 case _ => 0x34)
    case 12 => (match i & 0x0F
      case 0 => 0x4e case 1 => 0x49 case 2 => 0x40 case 3 => 0x47
      case 4 => 0x52 case 5 => 0x55 case 6 => 0x5c case 7 => 0x5b
      case 8 => 0x76 case 9 => 0x71 case 10 => 0x78 case 11 => 0x7f
      case 12 => 0x6a case 13 => 0x6d case 14 => 0x64 case _ => 0x63)
    case 13 => (match i & 0x0F
      case 0 => 0x3e case 1 => 0x39 case 2 => 0x30 case 3 => 0x37
      case 4 => 0x22 case 5 => 0x25 case 6 => 0x2c case 7 => 0x2b
      case 8 => 0x06 case 9 => 0x01 case 10 => 0x08 case 11 => 0x0f
      case 12 => 0x1a case 13 => 0x1d case 14 => 0x14 case _ => 0x13)
    case 14 => (match i & 0x0F
      case 0 => 0xae case 1 => 0xa9 case 2 => 0xa0 case 3 => 0xa7
      case 4 => 0xb2 case 5 => 0xb5 case 6 => 0xbc case 7 => 0xbb
      case 8 => 0x96 case 9 => 0x91 case 10 => 0x98 case 11 => 0x9f
      case 12 => 0x8a case 13 => 0x8d case 14 => 0x84 case _ => 0x83)
    case _ => (match i & 0x0F
      case 0 => 0xde case 1 => 0xd9 case 2 => 0xd0 case 3 => 0xd7
      case 4 => 0xc2 case 5 => 0xc5 case 6 => 0xcc case 7 => 0xcb
      case 8 => 0xe6 case 9 => 0xe1 case 10 => 0xe8 case 11 => 0xef
      case 12 => 0xfa case 13 => 0xfd case 14 => 0xf4 case _ => 0xf3)
  }

  // ----- the registers, a bit and a message at a time -----

  function Step32(c: bv32): bv32 {
    if c & 1 == 1 then (c >> 1) ^ CRC32_POLYNOMIAL else c >> 1
  }

  function Steps32(c: bv32, n: nat): bv32
    decreases n
  {
    if n == 0 then c else Steps32(Step32(c), n - 1)
  }

  function Step8(c: bv8): bv8 {
    if c & 0x80 == 0x80 then (c << 1) ^ CRC8_POLYNOMIAL else c << 1
  }

  function Steps8(c: bv8, n: nat): bv8
    decreases n
  {
    if n == 0 then c else Steps8(Step8(c), n - 1)
  }

  /** Addition of polynomials. Named, so that proofs about sums need not look at single bits. */
  function Plus(a: bv32, b: bv32): bv32 {
    a ^ b
  }

  function Plus8(a: bv8, b: bv8): bv8 {
    a ^ b
  }

  /** One byte by table lookup. */
  function TableStep32(crc: bv32, x: bv8): bv32 {
    Plus(Crc32Table((Plus(crc, x as bv32) & 0xFF) as bv8), crc >> 8)
  }

  function Register32(c: bv32, m: seq<bv8>): bv32
    decreases |m|
  {
    if m == [] then c else Register32(Steps32(Plus(c, m[0] as bv32), 8), m[1..])
  }

  function Register8(c: bv8, m: seq<bv8>): bv8
    decreases |m|
  {
    if m == [] then c else Register8(Steps8(Plus8(c, m[0]), 8), m[1..])
  }

  function Crc32(m: seq<bv8>): bv32 {
    Plus(Register32(0xFFFF_FFFF, m), 0xFFFF_FFFF)
  }

  function Crc8(m: seq<bv8>): bv8 {
    Register8(0, m)
  }
}
