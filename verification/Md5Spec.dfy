/** The MD5 message digest as defined by sections 3.1 to 3.5 of RFC 1321. */
module Md5Spec {
  import opened Bits

  // ----- Section 3.4: the four auxiliary functions and the 64 operations -----

  datatype Regs = Regs(a: word, b: word, c: word, d: word)

  function Not(x: word): (w: word) { 0xFFFF_FFFF - x }

  function F(x: word, y: word, z: word): (w: word) { WordOr(And(x, y), And(Not(x), z)) }
  function G(x: word, y: word, z: word): (w: word) { WordOr(And(x, z), And(y, Not(z))) }
  function H(x: word, y: word, z: word): (w: word) { WordXor(WordXor(x, y), z) }
  function I(x: word, y: word, z: word): (w: word) { WordXor(y, WordOr(x, Not(z))) }

  function Aux(r: nat, x: word, y: word, z: word): (w: word) {
    match r case 1 => F(x, y, z) case 2 => G(x, y, z) case 3 => H(x, y, z) case _ => I(x, y, z)
  }

  /** Which word of the block operation j of round r adds. */
  function Index(r: nat, j: nat): (k: nat)
    requires j < 16
    ensures k < 16
  {
    match r case 1 => j case 2 => (5 * j + 1) % 16 case 3 => (3 * j + 5) % 16 case _ => 7 * j % 16
  }

  function Shift(r: nat, j: nat): (s: nat)
    requires j < 16
    ensures 0 < s < 32
  {
    match r
    case 1 => (match j % 4 case 0 => 7 case 1 => 12 case 2 => 17 case _ => 22)
    case 2 => (match j % 4 case 0 => 5 case 1 => 9 case 2 => 14 case _ => 20)
    case 3 => (match j % 4 case 0 => 4 case 1 => 11 case 2 => 16 case _ => 23)
    case _ => (match j % 4 case 0 => 6 case 1 => 10 case 2 => 15 case _ => 21)
  }

  // The table T[1..64], sixteen entries a round.
  function Sine1(j: nat): (w: word)
    requires j < 16
  {
    match j
    case 0 => 0xd76a_a478 case 1 => 0xe8c7_b756 case 2 => 0x2420_70db case 3 => 0xc1bd_ceee
    case 4 => 0xf57c_0faf case 5 => 0x4787_c62a case 6 => 0xa830_4613 case 7 => 0xfd46_9501
    case 8 => 0x6980_98d8 case 9 => 0x8b44_f7af case 10 => 0xffff_5bb1 case 11 => 0x895c_d7be
    case 12 => 0x6b90_1122 case 13 => 0xfd98_7193 case 14 => 0xa679_438e case _ => 0x49b4_0821
  }

  function Sine2(j: nat): (w: word)
    requires j < 16
  {
    match j
    case 0 => 0xf61e_2562 case 1 => 0xc040_b340 case 2 => 0x265e_5a51 case 3 => 0xe9b6_c7aa
    case 4 => 0xd62f_105d case 5 => 0x0244_1453 case 6 => 0xd8a1_e681 case 7 => 0xe7d3_fbc8
    case 8 => 0x21e1_cde6 case 9 => 0xc337_07d6 case 10 => 0xf4d5_0d87 case 11 => 0x455a_14ed
    case 12 => 0xa9e3_e905 case 13 => 0xfcef_a3f8 case 14 => 0x676f_02d9 case _ => 0x8d2a_4c8a
  }

  function Sine3(j: nat): (w: word)
    requires j < 16
  {
    match j
    case 0 => 0xfffa_3942 case 1 => 0x8771_f681 case 2 => 0x6d9d_6122 case 3 => 0xfde5_380c
    case 4 => 0xa4be_ea44 case 5 => 0x4bde_cfa9 case 6 => 0xf6bb_4b60 case 7 => 0xbebf_bc70
    case 8 => 0x289b_7ec6 case 9 => 0xeaa1_27fa case 10 => 0xd4ef_3085 case 11 => 0x0488_1d05
    case 12 => 0xd9d4_d039 case 13 => 0xe6db_99e5 case 14 => 0x1fa2_7cf8 case _ => 0xc4ac_5665
  }

  function Sine4(j: nat): (w: word)
    requires j < 16
  {
    match j
    case 0 => 0xf429_2244 case 1 => 0x432a_ff97 case 2 => 0xab94_23a7 case 3 => 0xfc93_a039
    case 4 => 0x655b_59c3 case 5 => 0x8f0c_cc92 case 6 => 0xffef_f47d case 7 => 0x8584_5dd1
    case 8 => 0x6fa8_7e4f case 9 => 0xfe2c_e6e0 case 10 => 0xa301_4314 case 11 => 0x4e08_11a1
    case 12 => 0xf753_7e82 case 13 => 0xbd3a_f235 case 14 => 0x2ad7_d2bb case _ => 0xeb86_d391
  }

  function Sine(r: nat, j: nat): (w: word)
    requires j < 16
  {
    match r case 1 => Sine1(j) case 2 => Sine2(j) case 3 => Sine3(j) case _ => Sine4(j)
  }

  /** Operation j of round r, the registers renamed so that the next operation
      again finds them in the order A, B, C, D. */
  function Operation(r: nat, j: nat, q: Regs, x: seq<word>): (after: Regs)
    requires j < 16 && |x| == 16
  {
    Regs(q.d,
         Plus(q.b, RotateLeft(Plus(Plus(Plus(q.a, Aux(r, q.b, q.c, q.d)), x[Index(r, j)]), Sine(r, j)), Shift(r, j))),
         q.b, q.c)
  }

  /** The registers after all rounds below r and the first n operations of round r. */
  function Rounds(r: nat, n: nat, q: Regs, x: seq<word>): (after: Regs)
    requires n <= 16 && |x| == 16
    decreases r, n
  {
    if r == 0 then q
    else if n == 0 then Rounds(r - 1, 16, q, x)
    else Operation(r, n - 1, Rounds(r, n - 1, q, x), x)
  }

  /** Section 2: four octets make a word, low-order octet first. */
  function DecodeWord(b0: byte, b1: byte, b2: byte, b3: byte): (w: word) {
    b0 + 0x100 * b1 + 0x1_0000 * b2 + 0x100_0000 * b3
  }

  function DecodeBlock(block: seq<byte>): (x: seq<word>)
    requires |block| == 64
    ensures |x| == 16
  {
    seq(16, i requires 0 <= i < 16 =>
      DecodeWord(block[4 * i], block[4 * i + 1], block[4 * i + 2], block[4 * i + 3]))
  }

  function Compress(q: Regs, block: seq<byte>): (after: Regs)
    requires |block| == 64
  {
    var p := Rounds(4, 16, q, DecodeBlock(block));
    Regs(Plus(q.a, p.a), Plus(q.b, p.b), Plus(q.c, p.c), Plus(q.d, p.d))
  }

  // ----- Sections 3.1 to 3.3 and 3.5: padding, length, initial value, output -----

  const INITIAL := Regs(0x6745_2301, 0xefcd_ab89, 0x98ba_dcfe, 0x1032_5476)

  /** Folds the whole blocks of data, first block first. */
  function Absorb(q: Regs, data: seq<byte>): (after: Regs)
    decreases |data|
  {
    hide Compress;
    if |data| < 64 then q else Absorb(Compress(q, data[..64]), data[64..])
  }

  /** A one bit and as many zero bits as take the length to 56 modulo 64. */
  function Padding(n: nat): (p: seq<byte>)
    ensures 1 <= |p| <= 64 && (n + |p|) % 64 == 56
    ensures p[0] == 128 && forall i :: 0 < i < |p| ==> p[i] == 0
  {
    [0x80] + Zeros((119 - n % 64) % 64)
  }

  function EncodeWord(w: word): (s: seq<byte>)
    ensures |s| == 4 && DecodeWord(s[0], s[1], s[2], s[3]) == w
  {
    assert w / 0x1_0000 == w / 0x100_0000 * 0x100 + w / 0x1_0000 % 0x100;
    assert w / 0x100 == w / 0x1_0000 * 0x100 + w / 0x100 % 0x100;
    [w % 0x100, w / 0x100 % 0x100, w / 0x1_0000 % 0x100, w / 0x100_0000]
  }

  function Encode(q: Regs): (s: seq<byte>)
    ensures |s| == 16
  {
    EncodeWord(q.a) + EncodeWord(q.b) + EncodeWord(q.c) + EncodeWord(q.d)
  }

  /** The two length words for a message of n octets: 8 * n modulo 2^64. */
  function LowCount(n: nat): (w: word) { 8 * n % 0x1_0000_0000 }
  function HighCount(n: nat): (w: word) { 8 * n / 0x1_0000_0000 % 0x1_0000_0000 }

  /** The digest of m when the length words appended to it are low and high. */
  function DigestWithCount(m: seq<byte>, low: word, high: word): (d: seq<byte>)
    ensures |d| == 16
  {
    Encode(Absorb(INITIAL, m + Padding(|m|) + EncodeWord(low) + EncodeWord(high)))
  }

  function Digest(m: seq<byte>): (d: seq<byte>)
    ensures |d| == 16
  {
    DigestWithCount(m, LowCount(|m|), HighCount(|m|))
  }

  lemma {:induction false} AbsorbConcat(q: Regs, s: seq<byte>, t: seq<byte>)
    requires |s| % 64 == 0
    ensures Absorb(q, s + t) == Absorb(Absorb(q, s), t)
    decreases |s|
  {
    hide Compress;
    if |s| < 64 {
      assert s + t == t;
    } else {
      assert (s + t)[..64] == s[..64] && (s + t)[64..] == s[64..] + t;
      AbsorbConcat(Compress(q, s[..64]), s[64..], t);
    }
  }

  lemma AbsorbBlock(q: Regs, s: seq<byte>, block: seq<byte>)
    requires |s| % 64 == 0 && |block| == 64
    ensures Absorb(q, s + block) == Compress(Absorb(q, s), block)
  {
    hide Compress;
    AbsorbConcat(q, s, block);
    assert block[..64] == block && block[64..] == [];
  }
}
