/** Access lists of address blocks. */
module IpAcl {
  import opened Bits
  import opened CText

  const HTTP_ACL_PERMIT := 1
  const HTTP_ACL_DENY := 2

  // ----- scanCidr -----

  datatype Cidr = Bad | Block(addr: word, len: nat)

  /** What atoi returns, kept in an unsigned int. */
  function Unsigned(i: int): (w: word) { i % 0x1_0000_0000 }

  function Addr(a: byte, b: byte, c: byte, d: byte): (w: word) {
    a * 0x100_0000 + b * 0x1_0000 + c * 0x100 + d
  }

  function Checked(r1: word, r2: word, r3: word, r4: word, r5: word): (cidr: Cidr) {
    if r1 > 255 || r2 > 255 || r3 > 255 || r4 > 255 || r5 > 32 then Bad else Block(Addr(r1, r2, r3, r4), r5)
  }

  /** The text behind the first c. */
  function Behind(s: string, c: char): (text: string)
    requires Find(s, c) < |s|
  {
    s[Find(s, c) + 1..]
  }

  function CidrOf(val: string): (cidr: Cidr) {
    if Find(val, '.') == |val| then Bad
    else
      var t2 := Behind(val, '.');
      if Find(t2, '.') == |t2| then Bad
      else
        var t3 := Behind(t2, '.');
        if Find(t3, '.') == |t3| then Bad
        else
          var t4 := Behind(t3, '.');
          var length := if Find(t4, '/') == |t4| then 32 else Unsigned(Atoi(Behind(t4, '/')));
          Checked(Unsigned(Atoi(val)), Unsigned(Atoi(t2)), Unsigned(Atoi(t3)), Unsigned(Atoi(t4)), length)
  }

  /** strchr: the index of the first c from cp on, or the end of the text. */
  method StrChr(s: string, cp: nat, c: char) returns (at: nat)
    requires cp <= |s|
    ensures at == cp + Find(s[cp..], c)
  {
    at := cp;
    while at < |s| && s[at] != c
      invariant cp <= at <= cp + Find(s[cp..], c)
    {
      assert s[at] == s[cp..][at - cp];
      at := at + 1;
    }
    if at < |s| {
      assert s[at] == s[cp..][at - cp];
    }
  }

  /** Moves cp behind the next c, if there is one. */
  method StepBehind(s: string, cp: nat, c: char) returns (found: bool, next: nat)
    requires cp <= |s|
    ensures found == (Find(s[cp..], c) < |s[cp..]|)
    ensures next <= |s| && (found ==> s[next..] == Behind(s[cp..], c))
  {
    hide Find;
    next := StrChr(s, cp, c);
    found := next < |s|;
    if found {
      next := next + 1;
      assert s[cp..][Find(s[cp..], c) + 1..] == s[next..];
    }
  }

  method ScanCidr(val: string) returns (r: Cidr)
    ensures r == CidrOf(val)
  {
    hide Find, Behind, Atoi, Checked, Unsigned;
    assert val[0..] == val;
    var res1 := Unsigned(Atoi(val));
    var found, cp := StepBehind(val, 0, '.');
    if !found {
      return Bad;
    }
    var res2 := Unsigned(Atoi(val[cp..]));
    found, cp := StepBehind(val, cp, '.');
    if !found {
      return Bad;
    }
    var res3 := Unsigned(Atoi(val[cp..]));
    found, cp := StepBehind(val, cp, '.');
    if !found {
      return Bad;
    }
    var res4 := Unsigned(Atoi(val[cp..]));
    found, cp := StepBehind(val, cp, '/');
    var res5: word := 32;
    if found {
      res5 := Unsigned(Atoi(val[cp..]));
    }
    r := Checked(res1, res2, res3, res4, res5);
  }

  /** A printed number as scanCidr reads it. */
  function Read(n: nat): (r: word)
    ensures n < 0x8000_0000 ==> r == n
  {
    Unsigned(ToInt(Saturate(n)))
  }

  function Printed(a: nat, b: nat, c: nat, d: nat, tail: string): (text: string) {
    Decimal(a) + ("." + (Decimal(b) + ("." + (Decimal(c) + ("." + (Decimal(d) + tail))))))
  }

  lemma FieldRead(n: nat, c: char, rest: string)
    requires !IsDigit(c)
    ensures var s := Decimal(n) + ([c] + rest);
            Unsigned(Atoi(s)) == Read(n) && Find(s, c) < |s| && Behind(s, c) == rest
  {
    hide Atol, Decimal, Find;
    var d := Decimal(n);
    var s := d + ([c] + rest);
    AtolDecimal(n, [c] + rest);
    forall j | 0 <= j < |d|
      ensures s[j] != c
    {
      assert s[j] == d[j] && d[j] in d;
    }
    assert s[|d|] == c;
    assert Find(s, c) == |d|;
    assert s[|d| + 1..] == rest;
  }

  lemma LastField(n: nat)
    ensures Unsigned(Atoi(Decimal(n))) == Read(n) && Find(Decimal(n), '/') == |Decimal(n)|
  {
    hide Atol, Decimal, Find;
    assert Decimal(n) + "" == Decimal(n);
    AtolDecimal(n, "");
    forall j | 0 <= j < |Decimal(n)|
      ensures Decimal(n)[j] != '/'
    {
      assert Decimal(n)[j] in Decimal(n);
    }
  }

  lemma CheckedIs(a: word, b: word, c: word, d: word, len: word)
    ensures Checked(a, b, c, d, len)
         == if a <= 255 && b <= 255 && c <= 255 && d <= 255 && len <= 32 then Block(Addr(a, b, c, d), len) else Bad
  {
  }

  lemma ScanRead(a: nat, b: nat, c: nat, d: nat, len: nat)
    ensures CidrOf(Printed(a, b, c, d, "/" + Decimal(len))) == Checked(Read(a), Read(b), Read(c), Read(d), Read(len))
    ensures CidrOf(Printed(a, b, c, d, "")) == Checked(Read(a), Read(b), Read(c), Read(d), 32)
  {
    hide Atoi, Decimal, Find, Behind, Unsigned, Read, Checked;
    LastField(len);
    FieldRead(d, '/', Decimal(len));
    LastField(d);
    assert Decimal(d) + "" == Decimal(d);
    var t4, u4 := Decimal(d) + ("/" + Decimal(len)), Decimal(d) + "";
    FieldRead(c, '.', t4);
    FieldRead(c, '.', u4);
    var t3, u3 := Decimal(c) + ("." + t4), Decimal(c) + ("." + u4);
    FieldRead(b, '.', t3);
    FieldRead(b, '.', u3);
    FieldRead(a, '.', Decimal(b) + ("." + t3));
    FieldRead(a, '.', Decimal(b) + ("." + u3));
  }

  /** Printed blocks and addresses are read back, whatever the numbers: they
      are accepted exactly when the octets are at most 255 and the length at
      most 32, up to what atoi makes of numbers of 32 bits and more. */
  lemma ScanPrinted(a: nat, b: nat, c: nat, d: nat, len: nat)
    ensures CidrOf(Printed(a, b, c, d, "/" + Decimal(len)))
         == if Read(a) <= 255 && Read(b) <= 255 && Read(c) <= 255 && Read(d) <= 255 && Read(len) <= 32
            then Block(Addr(Read(a), Read(b), Read(c), Read(d)), Read(len)) else Bad
    ensures CidrOf(Printed(a, b, c, d, ""))
         == if Read(a) <= 255 && Read(b) <= 255 && Read(c) <= 255 && Read(d) <= 255
            then Block(Addr(Read(a), Read(b), Read(c), Read(d)), 32) else Bad
  {
    hide *;
    ScanRead(a, b, c, d, len);
    CheckedIs(Read(a), Read(b), Read(c), Read(d), Read(len));
    CheckedIs(Read(a), Read(b), Read(c), Read(d), 32);
  }

  /** Without three dots there is no block. */
  lemma BlockHasDots(val: string)
    requires CidrOf(val).Block?
    ensures exists i, j, k :: 0 <= i < j < k < |val| && val[i] == '.' && val[j] == '.' && val[k] == '.'
  {
    hide Find, Atoi, Checked;
    var i := Find(val, '.');
    var t2 := Behind(val, '.');
    var j := Find(t2, '.');
    var t3 := Behind(t2, '.');
    var k := Find(t3, '.');
    assert t2[j] == val[i + 1 + j] && t3[k] == t2[j + 1 + k] == val[i + 1 + (j + 1 + k)];
  }

  // ----- The mask -----

  function ShiftRight(x: nat, k: nat): (n: nat)
    decreases k
  {
    if k == 0 then x else ShiftRight(x / 2, k - 1)
  }

  function ShiftLeft(x: nat, k: nat): (n: nat) { if k == 0 then x else 2 * ShiftLeft(x, k - 1) }

  function Bit(x: nat, k: nat): (n: nat) { ShiftRight(x, k) % 2 }

  /** The top len bits of the two addresses are the same. */
  predicate SameTop(addr: word, other: word, len: nat)
    requires len <= 32
  {
    ShiftRight(addr, 32 - len) == ShiftRight(other, 32 - len)
  }

  lemma {:induction false} SameBits(n: nat, x: nat, y: nat)
    requires x < Pow2(n) && y < Pow2(n)
    ensures x == y <==> forall k :: 0 <= k < n ==> Bit(x, k) == Bit(y, k)
  {
    if n > 0 {
      SameBits(n - 1, x / 2, y / 2);
      assert forall k :: 0 < k < n ==> Bit(x, k) == Bit(x / 2, k - 1) && Bit(y, k) == Bit(y / 2, k - 1);
      assert Bit(x, 0) == x % 2 && Bit(y, 0) == y % 2;
      if forall k :: 0 <= k < n ==> Bit(x, k) == Bit(y, k) {
        forall k | 0 <= k < n - 1
          ensures Bit(x / 2, k) == Bit(y / 2, k)
        {
          assert Bit(x, k + 1) == Bit(y, k + 1);
        }
        SameHalves(x, y);
      }
    }
  }

  lemma {:induction false} ShiftFits(x: nat, k: nat, n: nat)
    requires x < Pow2(k + n)
    ensures ShiftRight(x, k) < Pow2(n)
  {
    if k > 0 { ShiftFits(x / 2, k - 1, n); }
  }

  lemma {:induction false} ShiftedBit(x: nat, j: nat, k: nat)
    ensures Bit(ShiftRight(x, j), k) == Bit(x, j + k)
    decreases j
  {
    if j > 0 { ShiftedBit(x / 2, j - 1, k); }
  }

  /** The top bits, bit by bit. */
  lemma SameTopBits(addr: word, other: word, len: nat)
    requires len <= 32
    ensures SameTop(addr, other, len) <==> forall k :: 32 - len <= k < 32 ==> Bit(addr, k) == Bit(other, k)
  {
    hide ShiftRight, Bit, Pow2;
    var j := 32 - len;
    Powers();
    ShiftFits(addr, j, len);
    ShiftFits(other, j, len);
    SameBits(len, ShiftRight(addr, j), ShiftRight(other, j));
    if SameTop(addr, other, len) {
      forall k: nat | j <= k < 32
        ensures Bit(addr, k) == Bit(other, k)
      {
        ShiftedBit(addr, j, k - j);
        ShiftedBit(other, j, k - j);
      }
    }
    if forall k :: j <= k < 32 ==> Bit(addr, k) == Bit(other, k) {
      forall k: nat | k < len
        ensures Bit(ShiftRight(addr, j), k) == Bit(ShiftRight(other, j), k)
      {
        ShiftedBit(addr, j, k);
        ShiftedBit(other, j, k);
        assert Bit(addr, j + k) == Bit(other, j + k);
      }
    }
  }

  lemma {:induction false} AndFull(l: nat, x: nat)
    requires x < Pow2(l)
    ensures And(x, Pow2(l) - 1) == x
  {
    hide And;
    AndHalf(x, Pow2(l) - 1);
    if l == 0 {
      AndZero(x);
    } else {
      AndFull(l - 1, x / 2);
      SameHalves(And(x, Pow2(l) - 1), x);
    }
  }

  lemma AndZero(x: nat)
    ensures And(x, 0) == 0
  {
  }

  lemma {:induction false} AndShifted(x: nat, m: nat, k: nat)
    ensures And(x, ShiftLeft(m, k)) == ShiftLeft(And(ShiftRight(x, k), m), k)
    decreases k
  {
    hide And;
    if k > 0 {
      AndShifted(x / 2, m, k - 1);
      AndHalf(x, 2 * ShiftLeft(m, k - 1));
      SameHalves(And(x, 2 * ShiftLeft(m, k - 1)), 2 * And(x / 2, ShiftLeft(m, k - 1)));
    }
  }

  lemma {:induction false} ShiftLeftOnce(x: nat, y: nat, k: nat)
    ensures ShiftLeft(x, k) == ShiftLeft(y, k) <==> x == y
  {
    if k > 0 { ShiftLeftOnce(x, y, k - 1); }
  }

  lemma {:induction false} ShiftLeftFits(x: nat, k: nat, n: nat)
    requires x < Pow2(n)
    ensures ShiftLeft(x, k) < Pow2(n + k)
  {
    if k > 0 { ShiftLeftFits(x, k - 1, n); }
  }

  /** The mask keeps exactly the top bits. */
  lemma MaskCompares(addr: word, other: word, len: nat)
    requires len <= 32
    ensures var mask := ShiftLeft(Pow2(len) - 1, 32 - len);
            && mask < 0x1_0000_0000
            && (And(addr, mask) == And(other, mask) <==> SameTop(addr, other, len))
  {
    hide And, ShiftRight, ShiftLeft, Pow2;
    var j, ones := 32 - len, Pow2(len) - 1;
    Powers();
    ShiftLeftFits(ones, j, len);
    AndShifted(addr, ones, j);
    AndShifted(other, ones, j);
    ShiftFits(addr, j, len);
    ShiftFits(other, j, len);
    AndFull(len, ShiftRight(addr, j));
    AndFull(len, ShiftRight(other, j));
    ShiftLeftOnce(ShiftRight(addr, j), ShiftRight(other, j), j);
  }

  /** The first octet is the most significant one. */
  lemma AddrOctets(a: byte, b: byte, c: byte, d: byte)
    ensures var w := Addr(a, b, c, d);
            && w / 0x100_0000 == a && w / 0x1_0000 == a as int * 0x100 + b
            && w / 0x100 == (a as int * 0x100 + b) * 0x100 + c && w % 0x100 == d
  {
    var w := Addr(a, b, c, d);
    Quotient(a, 0x100_0000, b as int * 0x1_0000 + c as int * 0x100 + d);
    Quotient(a as int * 0x100 + b, 0x1_0000, c as int * 0x100 + d);
    Quotient((a as int * 0x100 + b) * 0x100 + c, 0x100, d);
    assert w == (a as int * 0x100 + b) * 0x1_0000 + (c as int * 0x100 + d);
    assert w == ((a as int * 0x100 + b) * 0x100 + c) * 0x100 + d;
  }

  lemma {:induction false} ShiftDivides(x: nat, k: nat)
    ensures ShiftRight(x, k) == x / Pow2(k)
    decreases k
  {
    if k > 0 {
      ShiftDivides(x / 2, k - 1);
      DivideTwice(x, Pow2(k - 1));
    }
  }

  lemma DivideTwice(x: nat, m: nat)
    requires m > 0
    ensures x / 2 / m == x / (2 * m)
  {
    var q, r := x / 2 / m, x / 2 % m;
    assert x / 2 == q * m + r;
    assert x == q * (2 * m) + (2 * r + x % 2);
    Quotient(q, 2 * m, 2 * r + x % 2);
  }

  /** A block whose length ends at an octet covers exactly the addresses with
      the same first octets: 10.0.0.0/8 covers 10.1.2.3. */
  lemma OctetsDecide(a: byte, b: byte, c: byte, d: byte, a': byte, b': byte, c': byte, d': byte)
    ensures var x, y := Addr(a, b, c, d), Addr(a', b', c', d');
            && SameTop(x, y, 0)
            && (SameTop(x, y, 8) <==> a == a')
            && (SameTop(x, y, 16) <==> a == a' && b == b')
            && (SameTop(x, y, 24) <==> a == a' && b == b' && c == c')
            && (SameTop(x, y, 32) <==> a == a' && b == b' && c == c' && d == d')
  {
    hide Addr, ShiftRight, Pow2;
    var x, y := Addr(a, b, c, d), Addr(a', b', c', d');
    Powers();
    AddrOctets(a, b, c, d);
    AddrOctets(a', b', c', d');
    forall k | k == 0 || k == 8 || k == 16 || k == 24 || k == 32
      ensures ShiftRight(x, k) == x / Pow2(k) && ShiftRight(y, k) == y / Pow2(k)
    {
      ShiftDivides(x, k);
      ShiftDivides(y, k);
    }
    NoOnes();
    assert x == x / 0x100 * 0x100 + x % 0x100 && y == y / 0x100 * 0x100 + y % 0x100;
  }

  predicate Covers(addr1: word, len1: nat, addr2: word, len2: nat)
    requires len1 <= 32
  {
    len1 <= len2 && SameTop(addr1, addr2, len1)
  }

  lemma NoOnes()
    ensures Pow2(0) == 1
  {
  }

  lemma OnesGrow(count: nat)
    requires count < 32
    ensures (2 * (Pow2(count) - 1) + 1) % 0x1_0000_0000 == Pow2(count + 1) - 1
  {
    Powers();
    PowGrows(count + 1, 32);
  }

  lemma {:induction false} PowGrows(m: nat, n: nat)
    requires m <= n
    ensures Pow2(m) <= Pow2(n)
  {
    if m < n { PowGrows(m, n - 1); }
  }

  /** _isInCidrBlock: the int arithmetic wraps around at 32 bits. */
  method IsInCidrBlock(addr1: word, len1: nat, addr2: word, len2: nat) returns (r: bool)
    requires len1 <= 32
    ensures r == Covers(addr1, len1, addr2, len2)
  {
    hide Pow2, And, ShiftLeft, SameTop;
    if len2 < len1 {
      return false;
    }
    var mask: word, count := 0, 0;
    NoOnes();
    while count < len1
      invariant count <= len1 && mask == Pow2(count) - 1
    {
      OnesGrow(count);
      mask := (2 * mask + 1) % 0x1_0000_0000;
      count := count + 1;
    }
    MaskCompares(addr1, addr2, len1);
    mask := ShiftLeft(mask, 32 - len1) % 0x1_0000_0000;
    r := And(addr1, mask) == And(addr2, mask);
  }

  // ----- The list -----

  datatype Entry = Entry(addr: word, len: nat, action: int)

  class HttpAcl {
    const entry: Entry
    var next: HttpAcl?

    constructor (addr: word, len: nat, action: int)
      ensures entry == Entry(addr, len, action) && next == null
    {
      entry, next := Entry(addr, len, action), null;
    }
  }

  ghost function At(nodes: seq<HttpAcl>, i: nat): (r: HttpAcl?) {
    if i < |nodes| then nodes[i] else null
  }

  ghost predicate Linked(head: HttpAcl?, nodes: seq<HttpAcl>)
    reads nodes
  {
    && head == At(nodes, 0)
    && (forall i :: 0 <= i < |nodes| ==> nodes[i].next == At(nodes, i + 1))
    && (forall i, j :: 0 <= i < j < |nodes| ==> nodes[i] != nodes[j])
  }

  ghost function EntriesOf(nodes: seq<HttpAcl>): (es: seq<Entry>)
    ensures |es| == |nodes| && forall i :: 0 <= i < |es| ==> es[i] == nodes[i].entry
  {
    if nodes == [] then [] else [nodes[0].entry] + EntriesOf(nodes[1..])
  }

  predicate Sane(es: seq<Entry>) {
    forall i :: 0 <= i < |es| ==> es[i].len <= 32 && (es[i].action == HTTP_ACL_PERMIT || es[i].action == HTTP_ACL_DENY)
  }

  /** The entry a call adds, if it adds one. */
  function Accepted(cidr: string, action: int): (r: seq<Entry>)
    ensures |r| <= 1 && Sane(r)
  {
    var c := CidrOf(cidr);
    if c.Bad? || (action != HTTP_ACL_PERMIT && action != HTTP_ACL_DENY) then [] else [Entry(c.addr, c.len, action)]
  }

  /** httpdAddAcl: null when the call is refused; otherwise the list with one
      more entry at its end. */
  method AddAcl(acl: HttpAcl?, cidr: string, action: int, ghost nodes: seq<HttpAcl>)
    returns (r: HttpAcl?, ghost after: seq<HttpAcl>)
    requires Linked(acl, nodes)
    modifies nodes
    ensures Linked(r, after) && EntriesOf(after)
            == if Accepted(cidr, action) == [] then [] else EntriesOf(nodes) + Accepted(cidr, action)
    ensures Accepted(cidr, action) == [] <==> r == null
    ensures r == null ==> Linked(acl, nodes)
  {
    hide CidrOf, EntriesOf;
    var c := ScanCidr(cidr);
    if c.Bad? || (action != HTTP_ACL_PERMIT && action != HTTP_ACL_DENY) {
      return null, [];
    }
    var n := new HttpAcl(c.addr, c.len, action);
    if acl != null {
      var cur: HttpAcl := acl;
      ghost var i: nat := 0;
      while cur.next != null
        invariant i < |nodes| && cur == nodes[i]
        decreases |nodes| - i
      {
        cur, i := cur.next, i + 1;
      }
      cur.next := n;
      r := acl;
    } else {
      r := n;
    }
    after := nodes + [n];
    assert forall i :: 0 <= i < |after| ==> after[i].next == At(after, i + 1);
  }

  /** The index of the first entry that covers the address, or the length. */
  function FirstCovering(es: seq<Entry>, addr: word, len: nat): (i: nat)
    requires Sane(es)
    ensures i <= |es| && (i < |es| ==> es[i].len <= 32 && Covers(es[i].addr, es[i].len, addr, len))
    ensures forall j :: 0 <= j < i ==> es[j].len <= 32 && !Covers(es[j].addr, es[j].len, addr, len)
  {
    hide Covers;
    if es == [] || Covers(es[0].addr, es[0].len, addr, len) then 0 else 1 + FirstCovering(es[1..], addr, len)
  }

  function Decision(es: seq<Entry>, client: Cidr): (n: int)
    requires Sane(es)
  {
    if client.Bad? then HTTP_ACL_DENY
    else
      var i := FirstCovering(es, client.addr, client.len);
      if i < |es| then es[i].action else HTTP_ACL_DENY
  }

  /** httpdCheckAcl */
  method CheckAcl(acl: HttpAcl?, clientAddr: string, ghost nodes: seq<HttpAcl>) returns (action: int)
    requires Linked(acl, nodes) && Sane(EntriesOf(nodes))
    ensures action == Decision(EntriesOf(nodes), CidrOf(clientAddr))
  {
    hide CidrOf, Covers, EntriesOf, FirstCovering;
    action := HTTP_ACL_DENY;
    var c := ScanCidr(clientAddr);
    if c.Block? {
      var cur := acl;
      ghost var es, i: nat := EntriesOf(nodes), 0;
      ghost var first := FirstCovering(es, c.addr, c.len);
      while cur != null
        invariant i <= first && cur == At(nodes, i)
        decreases |nodes| - i
      {
        var res := IsInCidrBlock(cur.entry.addr, cur.entry.len, c.addr, c.len);
        if res {
          return cur.entry.action;
        }
        cur, i := cur.next, i + 1;
      }
    }
  }

  // ----- Lists built by httpdAddAcl -----

  datatype Addition = Addition(cidr: string, action: int)

  /** What a caller that keeps its list on a refusal ends up with. */
  function Built(adds: seq<Addition>): (es: seq<Entry>)
    ensures Sane(es)
  {
    hide Accepted;
    if adds == [] then [] else Accepted(adds[0].cidr, adds[0].action) + Built(adds[1..])
  }

  /** The addition was accepted, to permit (1) or to deny (2), and its block is no
      longer than the client's and has the same top bits. */
  predicate Decides(a: Addition, addr: word, len: nat) {
    var c := CidrOf(a.cidr);
    && c.Block? && (a.action == 1 || a.action == 2)
    && c.len <= len && forall k :: 32 - c.len <= k < 32 ==> Bit(c.addr, k) == Bit(addr, k)
  }

  /** The index of the first addition that decides, or their number. */
  function Earliest(adds: seq<Addition>, addr: word, len: nat): (n: nat) {
    if adds == [] || Decides(adds[0], addr, len) then 0 else 1 + Earliest(adds[1..], addr, len)
  }

  lemma {:induction false} EarliestMeaning(adds: seq<Addition>, addr: word, len: nat)
    ensures var k := Earliest(adds, addr, len);
            && k <= |adds| && (k < |adds| ==> Decides(adds[k], addr, len))
            && forall j :: 0 <= j < k ==> !Decides(adds[j], addr, len)
  {
    hide Decides;
    if adds != [] && !Decides(adds[0], addr, len) {
      EarliestMeaning(adds[1..], addr, len);
      var k := Earliest(adds, addr, len);
      assert forall j :: 0 < j < k ==> adds[j] == adds[1..][j - 1];
    }
  }

  lemma FirstOf(a: seq<Entry>, es: seq<Entry>, addr: word, len: nat)
    requires Sane(a) && Sane(es) && |a| <= 1
    ensures Sane(a + es)
    ensures FirstCovering(a + es, addr, len)
         == if a != [] && Covers(a[0].addr, a[0].len, addr, len) then 0 else |a| + FirstCovering(es, addr, len)
  {
    hide Covers;
    if a == [] {
      assert a + es == es;
    } else {
      assert (a + es)[0] == a[0] && (a + es)[1..] == es;
    }
  }

  lemma AcceptedDecides(a: Addition, addr: word, len: nat)
    ensures var r := Accepted(a.cidr, a.action);
            && (Decides(a, addr, len) <==> r != [] && Covers(r[0].addr, r[0].len, addr, len))
            && (r != [] ==> r[0].action == a.action)
  {
    hide CidrOf, Bit, SameTop;
    var c := CidrOf(a.cidr);
    if c.Block? {
      LengthFits(a.cidr);
      SameTopBits(c.addr, addr, c.len);
    }
  }

  lemma LengthFits(cidr: string)
    ensures CidrOf(cidr).Block? ==> CidrOf(cidr).len <= 32
  {
    hide Find, Atoi, Behind;
  }

  lemma {:induction false} BuiltCovers(adds: seq<Addition>, addr: word, len: nat)
    ensures var es, k := Built(adds), Earliest(adds, addr, len);
            var i := FirstCovering(es, addr, len);
            k <= |adds| && (i < |es| <==> k < |adds|) && (i < |es| ==> es[i].action == adds[k].action)
  {
    hide CidrOf, Covers, FirstCovering, Accepted, Decides, Sane;
    if adds != [] {
      AcceptedDecides(adds[0], addr, len);
      FirstOf(Accepted(adds[0].cidr, adds[0].action), Built(adds[1..]), addr, len);
      BuiltCovers(adds[1..], addr, len);
    }
  }

  /** For every list of additions and every client text: the earliest accepted
      block that shares its leading bits with the client decides; without one,
      or when the client is no address, access is denied. */
  lemma EarliestDecides(adds: seq<Addition>, clientAddr: string)
    ensures var client := CidrOf(clientAddr);
            var k := if client.Block? then Earliest(adds, client.addr, client.len) else |adds|;
            k <= |adds| && Decision(Built(adds), client) == if k < |adds| then adds[k].action else 2
  {
    hide CidrOf, Covers, FirstCovering, Built, Earliest, Decides;
    var client := CidrOf(clientAddr);
    if client.Block? {
      BuiltCovers(adds, client.addr, client.len);
      EarliestMeaning(adds, client.addr, client.len);
    }
  }
}
