/** Octets and 32-bit words as the integers they denote.  The bitwise operators
    are defined bit by bit, so that their laws are proved by induction. */
module Bits {
  type byte = x: int | 0 <= x < 256
  type word = x: int | 0 <= x < 0x1_0000_0000

  function Pow2(n: nat): (p: nat)
    ensures p > 0
  {
    if n == 0 then 1 else 2 * Pow2(n - 1)
  }

  function And(x: nat, y: nat): (r: nat)
    ensures r <= x && r <= y
    decreases x
  {
    if x == 0 || y == 0 then 0 else (if x % 2 == 1 && y % 2 == 1 then 1 else 0) + 2 * And(x / 2, y / 2)
  }

  function Or(x: nat, y: nat): (n: nat)
    decreases x + y
  {
    if x == 0 && y == 0 then 0
    else (if x % 2 == 1 || y % 2 == 1 then 1 else 0) + 2 * Or(x / 2, y / 2)
  }

  function Xor(x: nat, y: nat): (n: nat)
    decreases x + y
  {
    if x == 0 && y == 0 then 0 else (if x % 2 == y % 2 then 0 else 1) + 2 * Xor(x / 2, y / 2)
  }

  lemma {:induction false} OrFits(n: nat, x: nat, y: nat)
    requires x < Pow2(n) && y < Pow2(n)
    ensures Or(x, y) < Pow2(n)
  {
    if n > 0 { OrFits(n - 1, x / 2, y / 2); }
  }

  lemma {:induction false} XorFits(n: nat, x: nat, y: nat)
    requires x < Pow2(n) && y < Pow2(n)
    ensures Xor(x, y) < Pow2(n)
  {
    if n > 0 { XorFits(n - 1, x / 2, y / 2); }
  }

  /** Xor with the same key twice gives the value back. */
  lemma {:induction false} XorTwice(x: nat, y: nat)
    ensures Xor(Xor(x, y), y) == x
    decreases x + y
  {
    if x + y > 0 {
      hide Xor;
      XorTwice(x / 2, y / 2);
      XorHalf(x, y);
      XorHalf(Xor(x, y), y);
      SameHalves(Xor(Xor(x, y), y), x);
    }
  }

  lemma {:induction false} XorCommutes(x: nat, y: nat)
    ensures Xor(x, y) == Xor(y, x)
    decreases x + y
  {
    if x + y > 0 { XorCommutes(x / 2, y / 2); }
  }

  lemma {:induction false} AndCommutes(x: nat, y: nat)
    ensures And(x, y) == And(y, x)
    decreases x
  {
    if x > 0 && y > 0 { AndCommutes(x / 2, y / 2); }
  }

  lemma {:induction false} OrCommutes(x: nat, y: nat)
    ensures Or(x, y) == Or(y, x)
    decreases x + y
  {
    if x + y > 0 { OrCommutes(x / 2, y / 2); }
  }

  lemma AndHalf(x: nat, y: nat)
    ensures And(x, y) / 2 == And(x / 2, y / 2) && And(x, y) % 2 == (if x % 2 == 1 && y % 2 == 1 then 1 else 0)
  {
  }
  lemma XorHalf(x: nat, y: nat)
    ensures Xor(x, y) / 2 == Xor(x / 2, y / 2) && Xor(x, y) % 2 == (if x % 2 == y % 2 then 0 else 1)
  {
  }
  lemma OrHalf(x: nat, y: nat)
    ensures Or(x, y) / 2 == Or(x / 2, y / 2) && Or(x, y) % 2 == (if x % 2 == 1 || y % 2 == 1 then 1 else 0)
  {
  }

  /** The optimised selector z ^ (x & (y ^ z)) is (x & y) | (~x & z), bit by bit. */
  lemma {:induction false} SelectBits(n: nat, x: nat, y: nat, z: nat)
    requires x < Pow2(n) && y < Pow2(n) && z < Pow2(n)
    ensures Xor(z, And(x, Xor(y, z))) == Or(And(x, y), And(Pow2(n) - 1 - x, z))
  {
    if n > 0 {
      hide And, Or, Xor;
      var nx := Pow2(n) - 1 - x;
      SelectBits(n - 1, x / 2, y / 2, z / 2);
      assert nx / 2 == Pow2(n - 1) - 1 - x / 2 && nx % 2 == 1 - x % 2;
      AndHalf(x, Xor(y, z));
      AndHalf(x, y);
      AndHalf(nx, z);
      XorHalf(y, z);
      XorHalf(z, And(x, Xor(y, z)));
      OrHalf(And(x, y), And(nx, z));
      SelectBit(x % 2 == 1, y % 2 == 1, z % 2 == 1);
      SameHalves(Xor(z, And(x, Xor(y, z))), Or(And(x, y), And(nx, z)));
    } else {
      assert x == 0 && y == 0 && z == 0;
    }
  }

  lemma SelectBit(x: bool, y: bool, z: bool)
    ensures (z != (x && (y != z))) == ((x && y) || (!x && z))
  {
  }

  lemma SameHalves(a: nat, b: nat)
    requires a / 2 == b / 2 && a % 2 == b % 2
    ensures a == b
  {
  }

  /** Or of two numbers without a common bit is their sum. */
  lemma {:induction false} OrDisjoint(n: nat, x: nat, y: nat)
    requires x < Pow2(n)
    ensures Or(x, y * Pow2(n)) == x + y * Pow2(n)
  {
    if n == 0 {
      OrZero(y);
    } else {
      hide Or;
      OrDisjoint(n - 1, x / 2, y);
      var z := y * Pow2(n - 1);
      Double(y, Pow2(n - 1));
      OrHalf(x, 2 * z);
    }
  }

  lemma Double(y: nat, p: nat)
    ensures y * (2 * p) == 2 * (y * p) && y * p >= 0
  {
  }

  lemma {:induction false} OrZero(y: nat)
    ensures Or(0, y) == y
  {
    if y > 0 { OrZero(y / 2); }
  }

  lemma Powers()
    ensures Pow2(8) == 0x100 && Pow2(16) == 0x1_0000 && Pow2(24) == 0x100_0000 && Pow2(32) == 0x1_0000_0000
  {
    assert Pow2(8) == 0x100;
    assert Pow2(16) == 0x1_0000;
    assert Pow2(24) == 0x100_0000;
  }

  function WordOr(x: word, y: word): (w: word) { Powers(); OrFits(32, x, y); Or(x, y) }
  function WordXor(x: word, y: word): (w: word) { Powers(); XorFits(32, x, y); Xor(x, y) }
  function ByteXor(x: byte, y: byte): (b: byte) { Powers(); XorFits(8, x, y); Xor(x, y) }

  function Zeros(n: nat): (z: seq<byte>)
    ensures |z| == n
  {
    seq(n, i => 0)
  }

  /** Addition of 32-bit unsigned words, which wraps around. */
  function Plus(x: word, y: word): (w: word) {
    if x + y < 0x1_0000_0000 then x + y else x + y - 0x1_0000_0000
  }

  lemma PlusAssociates(x: word, y: word, z: word)
    ensures Plus(x, Plus(y, z)) == Plus(Plus(x, y), z)
  {
  }

  lemma PlusCommutes(x: word, y: word)
    ensures Plus(x, y) == Plus(y, x)
  {
  }

  lemma DivideBound(x: nat, d: nat)
    requires d > 0
    ensures 0 <= x / d <= x
  {
    var q := x / d;
    assert x == d * q + x % d;
    assert q >= 0;
    assert d * q == q + (d - 1) * q;
    MulNonNegative(d - 1, q);
  }

  lemma MulNonNegative(x: nat, y: nat)
    ensures x * y >= 0
  {
  }

  /** w << s | w >> (32 - s) */
  function RotateLeft(w: word, s: nat): (z: word)
    requires 0 < s < 32
  {
    hide WordOr, Pow2;
    var up := w * Pow2(s);
    var down := w / Pow2(32 - s);
    DivideBound(w, Pow2(32 - s));
    WordOr(up % 0x1_0000_0000, down)
  }

  /** The lower bits move up by s and the upper s bits come in below. */
  lemma RotatedParts(w: word, s: nat)
    requires 0 < s < 32
    ensures Pow2(32 - s) > 0 && RotateLeft(w, s) == w % Pow2(32 - s) * Pow2(s) + w / Pow2(32 - s)
  {
    hide Or, Pow2;
    var q := Pow2(32 - s);
    var up, low := w / q, w % q;
    assert w == up * q + low;
    Powers();
    PowSum(s, 32 - s);
    UpperPart(w, up, q, low, Pow2(s));
    OrDisjoint(s, up, low);
    OrCommutes(up, low * Pow2(s));
  }

  lemma UpperPart(w: nat, up: nat, q: nat, low: nat, p: nat)
    requires w == up * q + low && low < q && p > 0 && p * q == 0x1_0000_0000 && w < 0x1_0000_0000
    ensures up < p && w * p % 0x1_0000_0000 == low * p
  {
    Below(up, low, p, q);
    Distribute(up, q, low, p);
    Quotient(up, 0x1_0000_0000, low * p);
  }

  lemma Distribute(up: nat, q: nat, low: nat, p: nat)
    ensures (up * q + low) * p == up * (p * q) + low * p
  {
    assert up * q * p == up * (p * q);
  }

  lemma Below(up: nat, low: nat, p: nat, q: nat)
    requires low < q && up * q + low < p * q && p > 0
    ensures up < p && low * p < p * q
  {
    Gap(up + 1, p, q);
    Gap(q, low, p);
    assert (up + 1) * q == up * q + q && q * p == p * q;
  }

  lemma {:induction false} PowSum(m: nat, n: nat)
    ensures Pow2(m) * Pow2(n) == Pow2(m + n)
  {
    if m > 0 {
      PowSum(m - 1, n);
      Double(Pow2(n), Pow2(m - 1));
    }
  }

  lemma Quotient(q: nat, m: nat, r: nat)
    requires r < m
    ensures (q * m + r) / m == q && (q * m + r) % m == r
  {
    var x := q * m + r;
    var e, f := x / m, x % m;
    assert x == e * m + f && 0 <= f < m;
    Gap(e, q, m);
    Gap(q, e, m);
  }

  lemma Gap(x: nat, y: nat, m: nat)
    ensures x > y ==> x * m >= y * m + m
  {
    if x > y {
      MulNonNegative(x - y - 1, m);
      assert x * m == y * m + m + (x - y - 1) * m;
    }
  }
}
