/** The buffered MD5 implementation: a context holding the chaining state, a
    64-bit count in two words and a partly filled block. */
module Md5 {
  import opened Bits
  import opened Md5Spec

  // ----- MD5Transform -----

  function F1(x: word, y: word, z: word): (w: word) { WordXor(z, And(x, WordXor(y, z))) }
  function F2(x: word, y: word, z: word): (w: word) { F1(z, x, y) }
  function F3(x: word, y: word, z: word): (w: word) { WordXor(WordXor(x, y), z) }
  function F4(x: word, y: word, z: word): (w: word) { WordXor(y, WordOr(x, Not(z))) }

  /** w += f + data, w rotated left by s, w += x. */
  function MacroStep(f: word, w: word, x: word, data: word, s: nat): (z: word)
    requires 0 < s < 32
  {
    Plus(RotateLeft(Plus(w, Plus(f, data)), s), x)
  }

  lemma F1Meaning(x: word, y: word, z: word)
    ensures F1(x, y, z) == F(x, y, z)
  {
    Powers();
    SelectBits(32, x, y, z);
  }

  lemma F2Meaning(x: word, y: word, z: word)
    ensures F2(x, y, z) == G(x, y, z)
  {
    hide And, Or, Xor;
    F1Meaning(z, x, y);
    AndCommutes(z, x);
    AndCommutes(Not(z), y);
  }

  lemma F3Meaning(x: word, y: word, z: word)
    ensures F3(x, y, z) == H(x, y, z)
  {
  }

  lemma F4Meaning(x: word, y: word, z: word)
    ensures F4(x, y, z) == I(x, y, z)
  {
  }

  lemma MacroStepMeaning(f: word, w: word, x: word, d: word, t: word, s: nat)
    requires 0 < s < 32
    ensures MacroStep(f, w, x, Plus(d, t), s) == Plus(x, RotateLeft(Plus(Plus(Plus(w, f), d), t), s))
  {
    hide RotateLeft, Plus;
    PlusAssociates(w, f, Plus(d, t));
    PlusAssociates(Plus(w, f), d, t);
    PlusCommutes(RotateLeft(Plus(Plus(Plus(w, f), d), t), s), x);
  }

  method StepF1(w: word, x: word, y: word, z: word, k: nat, t: word, s: nat,
                ghost j: nat, ghost start: Regs, input: seq<word>)
    returns (r: word)
    requires |input| == 16 && j < 16
    requires k == Index(1, j) && t == Sine(1, j) && s == Shift(1, j)
    requires Regs(w, x, y, z) == Rounds(1, j, start, input)
    ensures Regs(z, r, x, y) == Rounds(1, j + 1, start, input)
  {
    hide Plus, RotateLeft, MacroStep, F, G, H, I, F1, F2, F3, F4, Sine, Index, Shift;
    r := MacroStep(F1(x, y, z), w, x, Plus(input[k], t), s);
    F1Meaning(x, y, z);
    MacroStepMeaning(F1(x, y, z), w, x, input[k], t, s);
  }

  method StepF2(w: word, x: word, y: word, z: word, k: nat, t: word, s: nat,
                ghost j: nat, ghost start: Regs, input: seq<word>)
    returns (r: word)
    requires |input| == 16 && j < 16
    requires k == Index(2, j) && t == Sine(2, j) && s == Shift(2, j)
    requires Regs(w, x, y, z) == Rounds(2, j, start, input)
    ensures Regs(z, r, x, y) == Rounds(2, j + 1, start, input)
  {
    hide Plus, RotateLeft, MacroStep, F, G, H, I, F1, F2, F3, F4, Sine, Index, Shift;
    r := MacroStep(F2(x, y, z), w, x, Plus(input[k], t), s);
    F2Meaning(x, y, z);
    MacroStepMeaning(F2(x, y, z), w, x, input[k], t, s);
  }

  method StepF3(w: word, x: word, y: word, z: word, k: nat, t: word, s: nat,
                ghost j: nat, ghost start: Regs, input: seq<word>)
    returns (r: word)
    requires |input| == 16 && j < 16
    requires k == Index(3, j) && t == Sine(3, j) && s == Shift(3, j)
    requires Regs(w, x, y, z) == Rounds(3, j, start, input)
    ensures Regs(z, r, x, y) == Rounds(3, j + 1, start, input)
  {
    hide Plus, RotateLeft, MacroStep, F, G, H, I, F1, F2, F3, F4, Sine, Index, Shift;
    r := MacroStep(F3(x, y, z), w, x, Plus(input[k], t), s);
    F3Meaning(x, y, z);
    MacroStepMeaning(F3(x, y, z), w, x, input[k], t, s);
  }

  method StepF4(w: word, x: word, y: word, z: word, k: nat, t: word, s: nat,
                ghost j: nat, ghost start: Regs, input: seq<word>)
    returns (r: word)
    requires |input| == 16 && j < 16
    requires k == Index(4, j) && t == Sine(4, j) && s == Shift(4, j)
    requires Regs(w, x, y, z) == Rounds(4, j, start, input)
    ensures Regs(z, r, x, y) == Rounds(4, j + 1, start, input)
  {
    hide Plus, RotateLeft, MacroStep, F, G, H, I, F1, F2, F3, F4, Sine, Index, Shift;
    r := MacroStep(F4(x, y, z), w, x, Plus(input[k], t), s);
    F4Meaning(x, y, z);
    MacroStepMeaning(F4(x, y, z), w, x, input[k], t, s);
  }

  /** Steps 1 to 16 of the unrolled transform. */
  method Round1(input: seq<word>, ghost start: Regs, a0: word, b0: word, c0: word, d0: word)
    returns (a: word, b: word, c: word, d: word)
    requires |input| == 16 && Regs(a0, b0, c0, d0) == Rounds(1, 0, start, input)
    ensures Regs(a, b, c, d) == Rounds(1, 16, start, input)
  {
    hide Plus, Rounds;
    a, b, c, d := a0, b0, c0, d0;
    a := StepF1(a, b, c, d, 0, 0xd76a_a478, 7, 0, start, input);
    d := StepF1(d, a, b, c, 1, 0xe8c7_b756, 12, 1, start, input);
    c := StepF1(c, d, a, b, 2, 0x2420_70db, 17, 2, start, input);
    b := StepF1(b, c, d, a, 3, 0xc1bd_ceee, 22, 3, start, input);
    a := StepF1(a, b, c, d, 4, 0xf57c_0faf, 7, 4, start, input);
    d := StepF1(d, a, b, c, 5, 0x4787_c62a, 12, 5, start, input);
    c := StepF1(c, d, a, b, 6, 0xa830_4613, 17, 6, start, input);
    b := StepF1(b, c, d, a, 7, 0xfd46_9501, 22, 7, start, input);
    a := StepF1(a, b, c, d, 8, 0x6980_98d8, 7, 8, start, input);
    d := StepF1(d, a, b, c, 9, 0x8b44_f7af, 12, 9, start, input);
    c := StepF1(c, d, a, b, 10, 0xffff_5bb1, 17, 10, start, input);
    b := StepF1(b, c, d, a, 11, 0x895c_d7be, 22, 11, start, input);
    a := StepF1(a, b, c, d, 12, 0x6b90_1122, 7, 12, start, input);
    d := StepF1(d, a, b, c, 13, 0xfd98_7193, 12, 13, start, input);
    c := StepF1(c, d, a, b, 14, 0xa679_438e, 17, 14, start, input);
    b := StepF1(b, c, d, a, 15, 0x49b4_0821, 22, 15, start, input);
  }

  /** Steps 17 to 32 of the unrolled transform. */
  method Round2(input: seq<word>, ghost start: Regs, a0: word, b0: word, c0: word, d0: word)
    returns (a: word, b: word, c: word, d: word)
    requires |input| == 16 && Regs(a0, b0, c0, d0) == Rounds(2, 0, start, input)
    ensures Regs(a, b, c, d) == Rounds(2, 16, start, input)
  {
    hide Plus, Rounds;
    a, b, c, d := a0, b0, c0, d0;
    a := StepF2(a, b, c, d, 1, 0xf61e_2562, 5, 0, start, input);
    d := StepF2(d, a, b, c, 6, 0xc040_b340, 9, 1, start, input);
    c := StepF2(c, d, a, b, 11, 0x265e_5a51, 14, 2, start, input);
    b := StepF2(b, c, d, a, 0, 0xe9b6_c7aa, 20, 3, start, input);
    a := StepF2(a, b, c, d, 5, 0xd62f_105d, 5, 4, start, input);
    d := StepF2(d, a, b, c, 10, 0x0244_1453, 9, 5, start, input);
    c := StepF2(c, d, a, b, 15, 0xd8a1_e681, 14, 6, start, input);
    b := StepF2(b, c, d, a, 4, 0xe7d3_fbc8, 20, 7, start, input);
    a := StepF2(a, b, c, d, 9, 0x21e1_cde6, 5, 8, start, input);
    d := StepF2(d, a, b, c, 14, 0xc337_07d6, 9, 9, start, input);
    c := StepF2(c, d, a, b, 3, 0xf4d5_0d87, 14, 10, start, input);
    b := StepF2(b, c, d, a, 8, 0x455a_14ed, 20, 11, start, input);
    a := StepF2(a, b, c, d, 13, 0xa9e3_e905, 5, 12, start, input);
    d := StepF2(d, a, b, c, 2, 0xfcef_a3f8, 9, 13, start, input);
    c := StepF2(c, d, a, b, 7, 0x676f_02d9, 14, 14, start, input);
    b := StepF2(b, c, d, a, 12, 0x8d2a_4c8a, 20, 15, start, input);
  }

  /** Steps 33 to 48 of the unrolled transform. */
  method Round3(input: seq<word>, ghost start: Regs, a0: word, b0: word, c0: word, d0: word)
    returns (a: word, b: word, c: word, d: word)
    requires |input| == 16 && Regs(a0, b0, c0, d0) == Rounds(3, 0, start, input)
    ensures Regs(a, b, c, d) == Rounds(3, 16, start, input)
  {
    hide Plus, Rounds;
    a, b, c, d := a0, b0, c0, d0;
    a := StepF3(a, b, c, d, 5, 0xfffa_3942, 4, 0, start, input);
    d := StepF3(d, a, b, c, 8, 0x8771_f681, 11, 1, start, input);
    c := StepF3(c, d, a, b, 11, 0x6d9d_6122, 16, 2, start, input);
    b := StepF3(b, c, d, a, 14, 0xfde5_380c, 23, 3, start, input);
    a := StepF3(a, b, c, d, 1, 0xa4be_ea44, 4, 4, start, input);
    d := StepF3(d, a, b, c, 4, 0x4bde_cfa9, 11, 5, start, input);
    c := StepF3(c, d, a, b, 7, 0xf6bb_4b60, 16, 6, start, input);
    b := StepF3(b, c, d, a, 10, 0xbebf_bc70, 23, 7, start, input);
    a := StepF3(a, b, c, d, 13, 0x289b_7ec6, 4, 8, start, input);
    d := StepF3(d, a, b, c, 0, 0xeaa1_27fa, 11, 9, start, input);
    c := StepF3(c, d, a, b, 3, 0xd4ef_3085, 16, 10, start, input);
    b := StepF3(b, c, d, a, 6, 0x0488_1d05, 23, 11, start, input);
    a := StepF3(a, b, c, d, 9, 0xd9d4_d039, 4, 12, start, input);
    d := StepF3(d, a, b, c, 12, 0xe6db_99e5, 11, 13, start, input);
    c := StepF3(c, d, a, b, 15, 0x1fa2_7cf8, 16, 14, start, input);
    b := StepF3(b, c, d, a, 2, 0xc4ac_5665, 23, 15, start, input);
  }

  /** Steps 49 to 64 of the unrolled transform. */
  method Round4(input: seq<word>, ghost start: Regs, a0: word, b0: word, c0: word, d0: word)
    returns (a: word, b: word, c: word, d: word)
    requires |input| == 16 && Regs(a0, b0, c0, d0) == Rounds(4, 0, start, input)
    ensures Regs(a, b, c, d) == Rounds(4, 16, start, input)
  {
    hide Plus, Rounds;
    a, b, c, d := a0, b0, c0, d0;
    a := StepF4(a, b, c, d, 0, 0xf429_2244, 6, 0, start, input);
    d := StepF4(d, a, b, c, 7, 0x432a_ff97, 10, 1, start, input);
    c := StepF4(c, d, a, b, 14, 0xab94_23a7, 15, 2, start, input);
    b := StepF4(b, c, d, a, 5, 0xfc93_a039, 21, 3, start, input);
    a := StepF4(a, b, c, d, 12, 0x655b_59c3, 6, 4, start, input);
    d := StepF4(d, a, b, c, 3, 0x8f0c_cc92, 10, 5, start, input);
    c := StepF4(c, d, a, b, 10, 0xffef_f47d, 15, 6, start, input);
    b := StepF4(b, c, d, a, 1, 0x8584_5dd1, 21, 7, start, input);
    a := StepF4(a, b, c, d, 8, 0x6fa8_7e4f, 6, 8, start, input);
    d := StepF4(d, a, b, c, 15, 0xfe2c_e6e0, 10, 9, start, input);
    c := StepF4(c, d, a, b, 6, 0xa301_4314, 15, 10, start, input);
    b := StepF4(b, c, d, a, 13, 0x4e08_11a1, 21, 11, start, input);
    a := StepF4(a, b, c, d, 4, 0xf753_7e82, 6, 12, start, input);
    d := StepF4(d, a, b, c, 11, 0xbd3a_f235, 10, 13, start, input);
    c := StepF4(c, d, a, b, 2, 0x2ad7_d2bb, 15, 14, start, input);
    b := StepF4(b, c, d, a, 9, 0xeb86_d391, 21, 15, start, input);
  }

  function StateOf(state: array<word>): (regs: Regs)
    requires state.Length == 4
    reads state
  {
    Regs(state[0], state[1], state[2], state[3])
  }

  /** Folds one block into the state.  The words of the block are decoded first,
      by or-ing shifted octets. */
  method MD5Transform(state: array<word>, block: seq<byte>)
    requires state.Length == 4 && |block| == 64
    modifies state
    ensures StateOf(state) == Compress(old(StateOf(state)), block)
  {
    hide Plus, Rounds, DecodeWord, WordOr;
    ghost var start := StateOf(state);
    var input: seq<word> := [];
    for i := 0 to 16
      invariant |input| == i && StateOf(state) == start
      invariant forall j :: 0 <= j < i ==> input[j] == DecodeBlock(block)[j]
    {
      var b0: word, b1: word, b2: word, b3: word := block[4 * i], block[4 * i + 1], block[4 * i + 2], block[4 * i + 3];
      OrOfShiftedOctets(b0, b1, b2, b3);
      input := input + [WordOr(WordOr(WordOr(b0, b1 * 0x100), b2 * 0x1_0000), b3 * 0x100_0000)];
    }
    assert input == DecodeBlock(block);
    RoundsLink(start, input);
    var a, b, c, d := state[0], state[1], state[2], state[3];
    a, b, c, d := Round1(input, start, a, b, c, d);
    a, b, c, d := Round2(input, start, a, b, c, d);
    a, b, c, d := Round3(input, start, a, b, c, d);
    a, b, c, d := Round4(input, start, a, b, c, d);
    state[0] := Plus(state[0], a);
    state[1] := Plus(state[1], b);
    state[2] := Plus(state[2], c);
    state[3] := Plus(state[3], d);
  }

  lemma RoundsLink(q: Regs, x: seq<word>)
    requires |x| == 16
    ensures Rounds(1, 0, q, x) == q
    ensures Rounds(2, 0, q, x) == Rounds(1, 16, q, x)
    ensures Rounds(3, 0, q, x) == Rounds(2, 16, q, x)
    ensures Rounds(4, 0, q, x) == Rounds(3, 16, q, x)
  {
    hide Operation;
    assert Rounds(0, 16, q, x) == q;
  }

  lemma OrOfShiftedOctets(b0: byte, b1: byte, b2: byte, b3: byte)
    ensures WordOr(WordOr(WordOr(b0, b1 * 0x100), b2 * 0x1_0000), b3 * 0x100_0000) == DecodeWord(b0, b1, b2, b3)
  {
    hide Or;
    Powers();
    OrDisjoint(8, b0, b1);
    OrDisjoint(16, b0 + 0x100 * b1, b2);
    OrDisjoint(24, b0 + 0x100 * b1 + 0x1_0000 * b2, b3);
  }

  // ----- The 64-bit count kept in two words -----

  const WORD := 0x1_0000_0000

  /** What one update makes of the high count word: the carry test compares the
      new low word with the length in octets, not with the length in bits. */
  function HighCountAfter(high: word, n: nat, len: nat): (w: word) {
    var len32 := len % WORD;
    Plus(if LowCount(n + len) < len32 then Plus(high, 1) else high, len32 / 0x2000_0000)
  }

  /** The guard under which the update of the count is exact: the length fits the
      32 bits it is cut to, and the carry test answers what a true carry would. */
  predicate CarryAgrees(n: nat, len: nat) {
    && len / WORD % 0x2000_0000 == 0
    && (n % 0x2000_0000 + len % 0x2000_0000 >= 0x2000_0000 <==> LowCount(n + len) < len % WORD)
  }

  lemma LowCountStep(n: nat, len: nat)
    ensures Plus(LowCount(n), len % WORD * 8 % WORD) == LowCount(n + len)
  {
    hide LowCount;
    var q, r := n / 0x2000_0000, n % 0x2000_0000;
    var s, t := len / 0x2000_0000, len % 0x2000_0000;
    LowCountUnits(n, q, r);
    var carry := if r + t >= 0x2000_0000 then 1 else 0;
    LowCountUnits(n + len, q + s + carry, r + t - 0x2000_0000 * carry);
    assert len % WORD == 0x2000_0000 * (s % 8) + t;
    assert len % WORD * 8 == WORD * (s % 8) + 8 * t;
    assert len % WORD * 8 % WORD == 8 * t;
  }

  lemma LowCountUnits(n: nat, q: nat, r: nat)
    requires n == 0x2000_0000 * q + r && r < 0x2000_0000
    ensures LowCount(n) == 8 * r
  {
    assert 8 * n == WORD * q + 8 * r;
  }

  lemma LowCountOctets(n: nat)
    ensures LowCount(n) / 8 % 64 == n % 64
  {
    LowCountUnits(n, n / 0x2000_0000, n % 0x2000_0000);
  }

  /** The high word stays exact over an update if and only if the guard holds. */
  lemma HighCountExactly(n: nat, len: nat)
    ensures HighCountAfter(HighCount(n), n, len) == HighCount(n + len) <==> CarryAgrees(n, len)
  {
    hide LowCount, HighCount, HighCountAfter;
    var q, r := n / 0x2000_0000, n % 0x2000_0000;
    var s, t := len / 0x2000_0000, len % 0x2000_0000;
    var carry := if r + t >= 0x2000_0000 then 1 else 0;
    var told := if LowCount(n + len) < len % WORD then 1 else 0;
    HighCountUnits(n, q, r);
    HighCountUnits(n + len, q + s + carry, r + t - 0x2000_0000 * carry);
    HighCountAfterUnits(n, q, len, s, t, told);
    HighWordGap(q + told + s % 8, s / 8, carry - told);
    LengthUnits(len, s, t);
    assert q + told + s % 8 + (carry - told) + 8 * (s / 8) == q + s + carry;
  }

  lemma LengthUnits(len: nat, s: nat, t: nat)
    requires len == 0x2000_0000 * s + t && t < 0x2000_0000
    ensures len / WORD == s / 8 && len % WORD / 0x2000_0000 == s % 8
  {
    var u, v := s / 8, s % 8;
    assert len == WORD * u + (0x2000_0000 * v + t);
  }

  lemma HighCountAfterUnits(n: nat, q: nat, len: nat, s: nat, t: nat, told: nat)
    requires len == 0x2000_0000 * s + t && t < 0x2000_0000
    requires HighCount(n) == q % WORD
    requires told == if LowCount(n + len) < len % WORD then 1 else 0
    ensures HighCountAfter(HighCount(n), n, len) == (q + told + s % 8) % WORD
  {
    hide LowCount, HighCount, Plus;
    LengthUnits(len, s, t);
    PlusModulo(q, 1);
    PlusModulo(q + told, s % 8);
  }

  lemma HighCountUnits(n: nat, q: nat, r: nat)
    requires n == 0x2000_0000 * q + r && r < 0x2000_0000
    ensures HighCount(n) == q % WORD
  {
    assert 8 * n / WORD == q;
  }

  lemma PlusModulo(x: nat, y: nat)
    requires y < WORD
    ensures Plus(x % WORD, y) == (x + y) % WORD
  {
  }

  lemma HighWordGap(a: nat, k: nat, d: int)
    requires -1 <= d <= 1 && 0 <= a + d
    ensures a % WORD == (a + d + 8 * k) % WORD <==> k % 0x2000_0000 == 0 && d == 0
  {
    var j, m := k / 0x2000_0000, k % 0x2000_0000;
    assert 8 * k == WORD * j + 8 * m;
    assert (a + d + 8 * k) % WORD == (a + d + 8 * m) % WORD;
    assert 0 <= 8 * m <= WORD - 8;
    var u := a % WORD;
    assert (a + d + 8 * m) % WORD == (u + d + 8 * m) % WORD;
  }

  /** Below 2^29 octets in all, every update is exact. */
  lemma CarryAgreesBelowLimit(n: nat, len: nat)
    requires n + len < 0x2000_0000
    ensures CarryAgrees(n, len)
  {
  }

  /** The test misses a carry: 16 more octets after 2^29 - 8. */
  lemma CarryMissed()
    ensures !CarryAgrees(0x1fff_fff8, 16)
    ensures HighCountAfter(HighCount(0x1fff_fff8), 0x1fff_fff8, 16) != HighCount(0x1fff_fff8 + 16)
  {
    HighCountExactly(0x1fff_fff8, 16);
  }

  // ----- The context -----

  function Whole(n: nat): (w: nat)
    ensures w <= n && w % 64 == 0 && n - w == n % 64
  {
    n - n % 64
  }

  lemma TakeOfSum<T>(s: seq<T>, t: seq<T>, k: nat)
    requires k <= |t|
    ensures (s + t)[..|s| + k] == s + t[..k]
    ensures (s + t)[|s| + k..] == t[k..]
  {
  }

  lemma TakeOfSumEarly<T>(s: seq<T>, t: seq<T>, k: nat)
    requires k <= |s|
    ensures (s + t)[..k] == s[..k]
    ensures (s + t)[k..] == s[k..] + t
  {
  }

  lemma NextBlock<T>(s: seq<T>, t: seq<T>, k: nat)
    requires k + 64 <= |t|
    ensures (s + t)[..|s| + k + 64] == (s + t)[..|s| + k] + t[k..k + 64]
  {
  }

  lemma FoldStep(q: Regs, s: seq<byte>, t: seq<byte>, k: nat)
    requires k + 64 <= |t| && (|s| + k) % 64 == 0
    ensures Absorb(q, (s + t)[..|s| + k + 64]) == Compress(Absorb(q, (s + t)[..|s| + k]), t[k..k + 64])
  {
    hide Absorb, Compress;
    NextBlock(s, t, k);
    AbsorbBlock(q, (s + t)[..|s| + k], t[k..k + 64]);
  }

  lemma WholeAtEnd(n: nat, end: nat)
    requires n % 64 == 0 && n <= end < n + 64
    ensures Whole(end) == n
  {
  }

  lemma WholeAfter(n: nat, len: nat)
    requires n % 64 + len < 64
    ensures Whole(n + len) == Whole(n) && (n + len) % 64 == n % 64 + len
  {
  }

  /** memcpy(buffer + at, data, |data|) */
  method CopyInto(buffer: array<byte>, at: nat, data: seq<byte>)
    requires at + |data| <= buffer.Length
    modifies buffer
    ensures buffer[..at + |data|] == old(buffer[..at]) + data
    ensures buffer[at + |data|..] == old(buffer[at + |data|..])
  {
    var i := 0;
    while i < |data|
      invariant i <= |data|
      invariant buffer[..at] == old(buffer[..at])
      invariant buffer[at..at + i] == data[..i]
      invariant buffer[at + i..] == old(buffer[at + i..])
    {
      buffer[at + i] := data[i];
      i := i + 1;
    }
    assert buffer[..at + i] == buffer[..at] + buffer[at..at + i];
  }

  class Md5Context {
    const state: array<word>
    const count: array<word>
    const buffer: array<byte>
    ghost var seen: seq<byte>   // every octet passed to Update so far

    /** The buffer holds exactly the octets not yet folded into the state, and
        the low count word is always the low half of the bit count. */
    ghost predicate Valid()
      reads this, state, count, buffer
    {
      && state.Length == 4 && count.Length == 2 && buffer.Length == 64
      && StateOf(state) == Absorb(INITIAL, seen[..Whole(|seen|)])
      && buffer[..|seen| % 64] == seen[Whole(|seen|)..]
      && count[0] == LowCount(|seen|)
    }

    ghost predicate CountIsExact()
      requires count.Length == 2
      reads this, count
    {
      count[1] == HighCount(|seen|)
    }

    constructor Init()
      ensures Valid() && CountIsExact() && seen == []
      ensures fresh(state) && fresh(count) && fresh(buffer)
    {
      state := new word[4];
      count := new word[2];
      buffer := new byte[64];
      seen := [];
      new;
      count[0] := 0;
      count[1] := 0;
      state[0] := 0x6745_2301;
      state[1] := 0xefcd_ab89;
      state[2] := 0x98ba_dcfe;
      state[3] := 0x1032_5476;
    }

    method Update(input: seq<byte>)
      requires Valid()
      modifies this, state, count, buffer
      ensures Valid()
      ensures seen == old(seen) + input
      ensures count[1] == HighCountAfter(old(count[1]), |old(seen)|, |input|)
      ensures old(CountIsExact()) ==> (CountIsExact() <==> CarryAgrees(|old(seen)|, |input|))
    {
      hide Absorb, LowCount, HighCount, HighCountAfter, CarryAgrees, Whole, StateOf;
      LowCountOctets(|seen|);
      var have := count[0] / 8 % 64;
      UpdateCount(|input|);
      Consume(have, input);
      seen := seen + input;
    }

    /** Adds the length of the input, in bits, to the count. */
    method UpdateCount(len: nat)
      requires Valid()
      modifies count
      ensures count[0] == LowCount(|seen| + len)
      ensures count[1] == HighCountAfter(old(count[1]), |seen|, len)
      ensures old(CountIsExact()) ==> (count[1] == HighCount(|seen| + len) <==> CarryAgrees(|seen|, len))
    {
      hide LowCount, Plus, HighCount, Absorb;
      var len32 := len % WORD;
      LowCountStep(|seen|, len);
      HighCountExactly(|seen|, len);
      count[0] := Plus(count[0], len32 * 8 % WORD);
      if count[0] < len32 {
        count[1] := Plus(count[1], 1);
      }
      count[1] := Plus(count[1], len32 / 0x2000_0000);
    }

    /** Fills the buffered block, folds every whole block and buffers the rest. */
    method Consume(have: nat, input: seq<byte>)
      requires state.Length == 4 && buffer.Length == 64
      requires have == |seen| % 64
      requires StateOf(state) == Absorb(INITIAL, seen[..Whole(|seen|)])
      requires buffer[..have] == seen[Whole(|seen|)..]
      modifies state, buffer
      ensures StateOf(state) == Absorb(INITIAL, (seen + input)[..Whole(|seen + input|)])
      ensures buffer[..|seen + input| % 64] == (seen + input)[Whole(|seen + input|)..]
    {
      hide Absorb, Compress, StateOf, Whole;
      if |input| >= 64 - have {
        FoldWhole(have, input);
      } else {
        WholeAfter(|seen|, |input|);
        TakeOfSumEarly(seen, input, Whole(|seen|));
        if |input| != 0 {
          CopyInto(buffer, have, input);
        }
      }
    }

    /** The input reaches the end of the buffered block. */
    method FoldWhole(have: nat, input: seq<byte>)
      requires state.Length == 4 && buffer.Length == 64
      requires have == |seen| % 64 && |input| >= 64 - have
      requires StateOf(state) == Absorb(INITIAL, seen[..Whole(|seen|)])
      requires buffer[..have] == seen[Whole(|seen|)..]
      modifies state, buffer
      ensures StateOf(state) == Absorb(INITIAL, (seen + input)[..Whole(|seen + input|)])
      ensures buffer[..|seen + input| % 64] == (seen + input)[Whole(|seen + input|)..]
    {
      hide Absorb, Compress, StateOf, Whole;
      var pos := if have != 0 then 64 - have else 0;
      TakeOfSum(seen, input, pos);
      if have != 0 {
        FillBlock(have, input[..pos]);
      } else {
        assert seen + input[..0] == seen[..|seen|];
      }
      pos := FoldBlocks(pos, input);
      TakeOfSum(seen, input, pos);
      if pos < |input| {
        CopyInto(buffer, 0, input[pos..]);
        assert buffer[..0] + input[pos..] == input[pos..];
      }
    }

    /** Completes the buffered block and folds it. */
    method FillBlock(have: nat, part: seq<byte>)
      requires state.Length == 4 && buffer.Length == 64
      requires have == |seen| % 64 && have + |part| == 64
      requires StateOf(state) == Absorb(INITIAL, seen[..Whole(|seen|)])
      requires buffer[..have] == seen[Whole(|seen|)..]
      modifies state, buffer
      ensures StateOf(state) == Absorb(INITIAL, seen + part)
    {
      hide Absorb, Compress, StateOf;
      CopyInto(buffer, have, part);
      assert buffer[..] == seen[Whole(|seen|)..] + part;
      AbsorbBlock(INITIAL, seen[..Whole(|seen|)], buffer[..]);
      assert seen[..Whole(|seen|)] + buffer[..] == seen + part;
      MD5Transform(state, buffer[..]);
    }

    /** Folds the whole blocks of the input from pos on. */
    method FoldBlocks(start: nat, input: seq<byte>) returns (pos: nat)
      requires state.Length == 4 && buffer.Length == 64
      requires start <= |input| && (|seen| + start) % 64 == 0
      requires StateOf(state) == Absorb(INITIAL, (seen + input)[..|seen| + start])
      modifies state
      ensures start <= pos <= |input| && |seen| + pos == Whole(|seen + input|)
      ensures StateOf(state) == Absorb(INITIAL, (seen + input)[..|seen| + pos])
    {
      hide Absorb, Compress, StateOf, Whole;
      ghost var all := seen + input;
      pos := start;
      while |input| - pos >= 64
        invariant start <= pos <= |input| && (|seen| + pos) % 64 == 0
        invariant StateOf(state) == Absorb(INITIAL, all[..|seen| + pos])
      {
        FoldStep(INITIAL, seen, input, pos);
        MD5Transform(state, input[pos..pos + 64]);
        pos := pos + 64;
      }
      WholeAtEnd(|seen| + pos, |all|);
    }

    /** Pads, appends the count as it stands and outputs the state; the context
        is wiped. */
    method Final() returns (digest: seq<byte>)
      requires Valid()
      modifies this, state, count, buffer
      ensures digest == old(DigestWithCount(seen, count[0], count[1]))
      ensures old(CountIsExact()) ==> digest == Digest(old(seen))
      ensures forall i :: 0 <= i < 4 ==> state[i] == 0
      ensures forall i :: 0 <= i < 64 ==> buffer[i] == 0
      ensures count[0] == count[1] == 0
    {
      hide Absorb, LowCount, HighCount, EncodeWord, CarryAgrees, HighCountAfter, StateOf, Padding, Encode;
      var low, high := count[0], count[1];
      var octets := EncodeWord(low) + EncodeWord(high);
      LowCountOctets(|seen|);
      var padlen := 64 - count[0] / 8 % 64;
      if padlen < 1 + 8 {
        padlen := padlen + 64;
      }
      ghost var m := seen;
      PaddingPrefix(|m|, padlen - 8);
      Update(([0x80] + Zeros(63))[..padlen - 8]);
      Update(octets);
      WholeMessage(m, low, high, seen);
      digest := Output();
      Wipe();
    }

    method Output() returns (digest: seq<byte>)
      requires state.Length == 4
      ensures digest == Encode(StateOf(state))
    {
      hide EncodeWord;
      digest := EncodeWord(state[0]) + EncodeWord(state[1]) + EncodeWord(state[2]) + EncodeWord(state[3]);
    }

    method Wipe()
      requires state.Length == 4 && count.Length == 2 && buffer.Length == 64
      modifies state, count, buffer
      ensures forall i :: 0 <= i < 4 ==> state[i] == 0
      ensures forall i :: 0 <= i < 64 ==> buffer[i] == 0
      ensures count[0] == count[1] == 0
    {
      forall i | 0 <= i < 4 { state[i] := 0; }
      forall i | 0 <= i < 2 { count[i] := 0; }
      forall i | 0 <= i < 64 { buffer[i] := 0; }
    }
  }

  /** Padding and count end on a block boundary, so nothing stays buffered. */
  lemma WholeMessage(m: seq<byte>, low: word, high: word, s: seq<byte>)
    requires s == m + Padding(|m|) + (EncodeWord(low) + EncodeWord(high))
    ensures s == m + Padding(|m|) + EncodeWord(low) + EncodeWord(high)
    ensures Whole(|s|) == |s| && s[..Whole(|s|)] == s
  {
    hide EncodeWord, Padding;
    assert |s| == |m| + |Padding(|m|)| + 8;
  }

  lemma PaddingPrefix(n: nat, len: nat)
    requires len == if 64 - n % 64 < 9 then 120 - n % 64 else 56 - n % 64
    ensures 1 <= len <= 64 && ([0x80] + Zeros(63))[..len] == Padding(n)
  {
    assert (119 - n % 64) % 64 == len - 1;
  }

  // ----- Runs of updates -----

  function Flatten(chunks: seq<seq<byte>>): (octets: seq<byte>) {
    if chunks == [] then [] else chunks[0] + Flatten(chunks[1..])
  }

  /** Every update of the run, given the octets before it, is exact. */
  predicate EveryCarryAgrees(n: nat, chunks: seq<seq<byte>>)
    decreases |chunks|
  {
    chunks != [] ==>
      CarryAgrees(n, |chunks[0]|) && EveryCarryAgrees(n + |chunks[0]|, chunks[1..])
  }

  lemma {:induction false} SmallRunsAgree(n: nat, chunks: seq<seq<byte>>)
    requires n + |Flatten(chunks)| < 0x2000_0000
    ensures EveryCarryAgrees(n, chunks)
    decreases |chunks|
  {
    if chunks != [] {
      CarryAgreesBelowLimit(n, |chunks[0]|);
      SmallRunsAgree(n + |chunks[0]|, chunks[1..]);
    }
  }

  /** The high count word after the run, as it is counted. */
  function HighFold(high: word, n: nat, chunks: seq<seq<byte>>): (w: word)
    decreases |chunks|
  {
    if chunks == [] then high
    else HighFold(HighCountAfter(high, n, |chunks[0]|), n + |chunks[0]|, chunks[1..])
  }

  /** What one update counts too little: one for a missed carry, minus one for a
      false one, and what the cut of the length to 32 bits takes away. */
  function Missed(n: nat, len: nat): (m: int) {
    (if n % 0x2000_0000 + len % 0x2000_0000 >= 0x2000_0000 then 1 else 0)
    - (if LowCount(n + len) < len % WORD then 1 else 0) + 8 * (len / WORD)
  }

  function MissedAll(n: nat, chunks: seq<seq<byte>>): (m: int)
    decreases |chunks|
  {
    if chunks == [] then 0 else Missed(n, |chunks[0]|) + MissedAll(n + |chunks[0]|, chunks[1..])
  }

  lemma HighCountMissed(n: nat, high: word, len: nat, m: int)
    requires high == (n / 0x2000_0000 - m) % WORD
    ensures HighCountAfter(high, n, len) == ((n + len) / 0x2000_0000 - (m + Missed(n, len))) % WORD
  {
    hide LowCount, HighCount;
    var q, r := n / 0x2000_0000, n % 0x2000_0000;
    var s, t := len / 0x2000_0000, len % 0x2000_0000;
    var carry := if r + t >= 0x2000_0000 then 1 else 0;
    var told := if LowCount(n + len) < len % WORD then 1 else 0;
    LengthUnits(len, s, t);
    SumUnits(n, len);
    assert (n + len) / 0x2000_0000 == q + s + carry;
    PlusWraps(q - m, told);
    PlusWraps(q - m + told, s % 8);
    assert s == 8 * (s / 8) + s % 8;
  }

  lemma SumUnits(n: nat, len: nat)
    ensures (n + len) / 0x2000_0000 == n / 0x2000_0000 + len / 0x2000_0000
              + if n % 0x2000_0000 + len % 0x2000_0000 >= 0x2000_0000 then 1 else 0
  {
  }

  lemma PlusWraps(x: int, y: nat)
    requires y < WORD
    ensures Plus(x % WORD, y) == (x + y) % WORD
  {
  }

  lemma {:induction false} HighFoldMissed(high: word, n: nat, chunks: seq<seq<byte>>, m: int)
    requires high == (n / 0x2000_0000 - m) % WORD
    ensures HighFold(high, n, chunks)
         == ((n + |Flatten(chunks)|) / 0x2000_0000 - (m + MissedAll(n, chunks))) % WORD
    decreases |chunks|
  {
    hide Missed, HighCountAfter;
    if chunks != [] {
      HighCountMissed(n, high, |chunks[0]|, m);
      HighFoldMissed(HighCountAfter(high, n, |chunks[0]|), n + |chunks[0]|, chunks[1..], m + Missed(n, |chunks[0]|));
    }
  }

  lemma SameWord(x: int, m: int)
    ensures (x - m) % WORD == x % WORD <==> m % WORD == 0
  {
  }

  /** The count at the end of a run is exact if and only if what was missed adds
      up to a multiple of 2^32: a missed carry and a false one can cancel. */
  lemma HighFoldExactly(chunks: seq<seq<byte>>)
    ensures HighFold(0, 0, chunks) == HighCount(|Flatten(chunks)|) <==> MissedAll(0, chunks) % WORD == 0
  {
    hide MissedAll, HighFold;
    var n := |Flatten(chunks)|;
    HighFoldMissed(0, 0, chunks, 0);
    HighCountUnits(n, n / 0x2000_0000, n % 0x2000_0000);
    SameWord(n / 0x2000_0000, MissedAll(0, chunks));
  }

  /** Updates of 2^29, 2^29 - 8 and 16 octets: a false carry, none, and a missed
      one, after which the count is right again. */
  lemma MissesCancel()
    ensures Missed(0, 0x2000_0000) == -1
    ensures Missed(0x2000_0000, 0x1fff_fff8) == 0
    ensures Missed(0x3fff_fff8, 16) == 1
  {
  }

  /** However the message is cut, the digest is that of the whole message with
      the length as it was counted; it is the digest of the message when that
      count is exact, in particular when every carry agrees. */
  method HashRun(chunks: seq<seq<byte>>) returns (digest: seq<byte>)
    ensures var m := Flatten(chunks); digest == DigestWithCount(m, LowCount(|m|), HighFold(0, 0, chunks))
    ensures MissedAll(0, chunks) % WORD == 0 ==> digest == Digest(Flatten(chunks))
    ensures EveryCarryAgrees(0, chunks) ==> digest == Digest(Flatten(chunks))
    ensures |Flatten(chunks)| < 0x2000_0000 ==> digest == Digest(Flatten(chunks))
  {
    hide Digest, DigestWithCount, CarryAgrees, HighCountAfter, HighCount, LowCount, Absorb;
    var ctx := new Md5Context.Init();
    if |Flatten(chunks)| < 0x2000_0000 {
      SmallRunsAgree(0, chunks);
    }
    HighCountNone();
    var i := 0;
    assert chunks[0..] == chunks;
    while i < |chunks|
      invariant i <= |chunks|
      invariant fresh(ctx) && fresh(ctx.state) && fresh(ctx.count) && fresh(ctx.buffer)
      invariant ctx.Valid()
      invariant Flatten(chunks) == ctx.seen + Flatten(chunks[i..])
      invariant HighFold(ctx.count[1], |ctx.seen|, chunks[i..]) == HighFold(0, 0, chunks)
      invariant EveryCarryAgrees(0, chunks) ==> ctx.CountIsExact() && EveryCarryAgrees(|ctx.seen|, chunks[i..])
    {
      assert chunks[i..][1..] == chunks[i + 1..];
      ctx.Update(chunks[i]);
      i := i + 1;
    }
    assert Flatten(chunks) == ctx.seen;
    HighFoldExactly(chunks);
    DigestCounts(ctx.seen);
    digest := ctx.Final();
  }

  lemma HighCountNone()
    ensures HighCount(0) == 0
  {
  }

  lemma DigestCounts(m: seq<byte>)
    ensures Digest(m) == DigestWithCount(m, LowCount(|m|), HighCount(|m|))
  {
    hide DigestWithCount;
  }

  /** rc_md5_calc: the digest of one buffer. */
  method Md5Calc(input: seq<byte>) returns (output: seq<byte>)
    ensures |output| == 16
    ensures output == DigestWithCount(input, LowCount(|input|), HighCountAfter(0, 0, |input|))
    ensures CarryAgrees(0, |input|) ==> output == Digest(input)
    ensures |input| < 0x2000_0000 ==> output == Digest(input)
  {
    hide DigestWithCount, Digest, HighCountAfter, LowCount, HighCount, CarryAgrees;
    var context := new Md5Context.Init();
    CarryAgreesBelowLimitIf(|input|);
    HighCountNone();
    context.Update(input);
    assert context.seen == input;
    DigestCounts(input);
    output := context.Final();
  }

  lemma CarryAgreesBelowLimitIf(len: nat)
    ensures len < 0x2000_0000 ==> CarryAgrees(0, len)
  {
    if len < 0x2000_0000 { CarryAgreesBelowLimit(0, len); }
  }
}
