/** The Base64 decoder of the authorization header. */
module Base64 {
  import opened Bits
  import opened CText

  // ----- The alphabet of section 4 of RFC 4648 -----

  const MAXVAL := 63

  /** The table six2pr. */
  function Letter(j: nat): (c: char)
    requires j < 64
    ensures c as int < 128
  {
    if j < 26 then ('A' as int + j) as char
    else if j < 52 then ('a' as int + j - 26) as char
    else if j < 62 then ('0' as int + j - 52) as char
    else if j == 62 then '+'
    else '/'
  }

  /** The alphabet, letter by letter. */
  lemma LetterIs(j: nat)
    requires j < 64
    ensures Letter(j) == ("ABCDEFGHIJKLMNOPQRSTUVWXYZ" + "abcdefghijklmnopqrstuvwxyz" + "0123456789" + "+/")[j]
  {
    hide Letter;
    if j < 26 {
      UpperIs(j);
    } else if j < 52 {
      LowerIs(j - 26);
    } else {
      OthersAre(j - 52);
    }
  }

  lemma UpperIs(k: nat)
    requires k < 26
    ensures Letter(k) == "ABCDEFGHIJKLMNOPQRSTUVWXYZ"[k]
  {
  }

  lemma LowerIs(k: nat)
    requires k < 26
    ensures Letter(k + 26) == "abcdefghijklmnopqrstuvwxyz"[k]
  {
  }

  lemma OthersAre(k: nat)
    requires k < 12
    ensures Letter(k + 52) == ("0123456789" + "+/")[k]
  {
  }

  function Six(c: char): (v: nat)
    ensures v <= 64
    ensures v < 64 ==> Letter(v) == c
  {
    if 'A' <= c <= 'Z' then c as int - 'A' as int
    else if 'a' <= c <= 'z' then c as int - 'a' as int + 26
    else if '0' <= c <= '9' then c as int - '0' as int + 52
    else if c == '+' then 62
    else if c == '/' then 63
    else MAXVAL + 1
  }

  lemma SixOfLetter(j: nat)
    requires j < 64
    ensures Six(Letter(j)) == j
  {
  }

  // ----- What the decoder computes -----

  function PrefixLength(t: string): (n: nat)
    ensures n <= |t| && (n < |t| ==> Six(t[n]) > MAXVAL) && forall i :: 0 <= i < n ==> Six(t[i]) <= MAXVAL
  {
    if t != "" && Six(t[0]) <= MAXVAL then 1 + PrefixLength(t[1..]) else 0
  }

  function Group(a: nat, b: nat, c: nat, d: nat): (r: seq<byte>)
    ensures |r| == 3
  {
    [Or(a * 4, b / 16) % 256, Or(b * 16, c / 4) % 256, Or(c * 64, d) % 256]
  }

  function Quads(n: nat): (k: nat) { (n + 3) / 4 }

  /** The octets of the first g groups of four characters. */
  function Groups(t: string, g: nat): (r: seq<byte>)
    requires 4 * g <= |t|
    ensures |r| == 3 * g
  {
    if g == 0 then []
    else Groups(t, g - 1) + Group(Six(t[4 * g - 4]), Six(t[4 * g - 3]), Six(t[4 * g - 2]), Six(t[4 * g - 1]))
  }

  /** The octets dropped from the last group. */
  function Dropped(t: string, n: nat): (d: nat)
    requires 4 * Quads(n) <= |t|
    ensures n > 0 ==> d <= 3 * Quads(n)
    ensures n == 0 ==> d == 0
  {
    if n % 4 == 0 then 0 else if Six(t[4 * Quads(n) - 2]) > MAXVAL then 2 else 1
  }

  predicate Octets(s: string) {
    forall c <- s :: c as int < 256
  }

  /** The memory from the argument on ends its valid prefix, and the last group
      that is read lies within it. */
  predicate Readable(memory: string) {
    var t := StripBlanks(memory);
    && Octets(memory)
    && PrefixLength(t) < |t| && 4 * Quads(PrefixLength(t)) <= |t|
  }

  function DecodedLength(memory: string): (length: nat)
    requires Readable(memory)
    ensures length <= 3 * Quads(PrefixLength(StripBlanks(memory)))
  {
    var t := StripBlanks(memory);
    var n := PrefixLength(t);
    3 * Quads(n) - Dropped(t, n)
  }

  function Decoded(memory: string): (r: seq<byte>)
    requires Readable(memory)
    ensures |r| == DecodedLength(memory)
  {
    var t := StripBlanks(memory);
    Groups(t, Quads(PrefixLength(t)))[..DecodedLength(memory)]
  }

  // ----- Where the decoder stores -----

  /** The number of characters decoded: the cap is meant to keep the octets
      below the given size. */
  function Capped(n: nat, size: nat): (k: nat)
    ensures Quads(k) <= Quads(n)
    ensures 3 * Quads(n) <= size ==> k == n
    ensures Quads(n) == 0 ==> k == 0
  {
    if 3 * Quads(n) > size then size * 4 / 3 else n
  }

  /** As Readable, for the groups that are read under the cap. */
  predicate ReadableFor(memory: string, size: nat) {
    var t := StripBlanks(memory);
    && Octets(memory)
    && PrefixLength(t) < |t| && 4 * Quads(Capped(PrefixLength(t), size)) <= |t|
  }

  /** One past the last octet the groups store. */
  function GroupEnd(memory: string, size: nat): (e: nat) {
    3 * Quads(Capped(PrefixLength(StripBlanks(memory)), size))
  }

  /** Where the terminator goes: the length it is computed from is not capped. */
  function Terminator(memory: string, size: nat): (e: nat)
    requires ReadableFor(memory, size)
  {
    var t := StripBlanks(memory);
    3 * Quads(PrefixLength(t)) - Dropped(t, Capped(PrefixLength(t), size))
  }

  /** The memory from the output buffer on, once the decoder is done. */
  function Written(before: seq<byte>, memory: string, size: nat): (r: seq<byte>)
    requires ReadableFor(memory, size) && GroupEnd(memory, size) <= |before| && Terminator(memory, size) < |before|
    ensures |r| == |before|
  {
    (Groups(StripBlanks(memory), Quads(Capped(PrefixLength(StripBlanks(memory)), size)))
     + before[GroupEnd(memory, size)..])[Terminator(memory, size) := 0]
  }

  predicate StoresInside(memory: string, size: nat)
    requires ReadableFor(memory, size)
  {
    GroupEnd(memory, size) <= size && Terminator(memory, size) < size
  }

  /** Everything is stored below the size exactly when every group fits without
      the cap and the terminator does: the cap rescues no input. */
  lemma InsideExactly(memory: string, size: nat)
    requires ReadableFor(memory, size)
    ensures StoresInside(memory, size)
       <==> 3 * Quads(PrefixLength(StripBlanks(memory))) <= size && DecodedLength(memory) < size
  {
    hide StripBlanks, PrefixLength, Six;
    var n := PrefixLength(StripBlanks(memory));
    if 3 * Quads(n) > size {
      CappedOut(n, size);
    }
  }

  /** When everything is stored below the size: the decoded octets, the
      terminator, and nothing behind the size. */
  lemma WrittenInside(before: seq<byte>, memory: string, size: nat)
    requires ReadableFor(memory, size) && size <= |before| && StoresInside(memory, size)
    ensures var r, length := Written(before, memory, size), DecodedLength(memory);
            && Terminator(memory, size) == length && r[..length] == Decoded(memory) && r[length] == 0
            && r[size..] == before[size..]
  {
    hide StripBlanks, PrefixLength, Six, Groups;
    InsideExactly(memory, size);
  }

  lemma CappedOut(n: nat, size: nat)
    requires 3 * Quads(n) > size
    ensures 3 * Quads(Capped(n, size)) > size || Capped(n, size) % 4 == 0
  {
  }

  /** Three octets in four letters: a size of two is overrun by the group, which
      the cap does not stop, and a size of three by the terminator. */
  lemma OutsideInputs()
    ensures var memory := "QUJD\0";
            && ReadableFor(memory, 2) && GroupEnd(memory, 2) == 3 && !StoresInside(memory, 2)
            && ReadableFor(memory, 3) && GroupEnd(memory, 3) == 3 && Terminator(memory, 3) == 3
            && !StoresInside(memory, 3)
            && ReadableFor(memory, 4) && StoresInside(memory, 4)
  {
    hide Six, StripBlanks, PrefixLength;
    var memory := "QUJD\0";
    assert !IsBlank(memory[0]);
    assert Six('Q') == 16 && Six('U') == 20 && Six('J') == 9 && Six('D') == 3 && Six('\0') == 64 by {
      SixesOfExample();
    }
    PrefixIs(memory, 4);
    assert Octets(memory);
  }

  /** The cap does leave out a group here, but not the terminator: of eight letters
      and a size of three, three octets are stored and the terminator three
      past the size. */
  lemma CappedInput()
    ensures var memory := "QUJDQUJD\0";
            ReadableFor(memory, 3) && GroupEnd(memory, 3) == 3 && Terminator(memory, 3) == 6
  {
    hide Six, StripBlanks, PrefixLength;
    var memory := "QUJDQUJD\0";
    assert !IsBlank(memory[0]);
    SixesOfExample();
    assert memory[..4] == "QUJD" && memory[4..8] == "QUJD" && memory[8] == '\0';
    PrefixIs(memory, 8);
    assert Octets(memory);
  }

  lemma SixesOfExample()
    ensures Six('Q') == 16 && Six('U') == 20 && Six('J') == 9 && Six('D') == 3 && Six('\0') == 64
  {
  }

  lemma PrefixIs(t: string, n: nat)
    requires n < |t| && Six(t[n]) > MAXVAL && forall i :: 0 <= i < n ==> Six(t[i]) <= MAXVAL
    ensures PrefixLength(t) == n
  {
    hide Six;
  }

  // ----- _httpd_decode -----

  method InitTable() returns (pr2six: array<nat>)
    ensures fresh(pr2six) && pr2six.Length == 256
    ensures forall c: char :: c as int < 256 ==> pr2six[c as int] == Six(c)
  {
    hide Six, Letter;
    pr2six := new nat[256];
    var j := 0;
    while j < 256
      invariant j <= 256 && forall i :: 0 <= i < j ==> pr2six[i] == MAXVAL + 1
    {
      pr2six[j] := MAXVAL + 1;
      j := j + 1;
    }
    j := 0;
    while j < 64
      invariant j <= 64
      invariant forall c: char :: c as int < 256 ==> pr2six[c as int] == if Six(c) < j then Six(c) else MAXVAL + 1
    {
      SixOfLetter(j);
      pr2six[Letter(j) as int] := j;
      j := j + 1;
    }
  }

  ghost predicate IsTable(pr2six: array<nat>)
    reads pr2six
  {
    pr2six.Length == 256 && forall c: char :: c as int < 256 ==> pr2six[c as int] == Six(c)
  }

  method SkipBlanks(memory: string) returns (start: nat)
    ensures start <= |memory| && memory[start..] == StripBlanks(memory)
  {
    start := 0;
    while start < |memory| && IsBlank(memory[start])
      invariant start <= |memory| && StripBlanks(memory[start..]) == StripBlanks(memory)
    {
      assert memory[start..][1..] == memory[start + 1..];
      start := start + 1;
    }
  }

  method CountPrefix(pr2six: array<nat>, memory: string, start: nat) returns (nprbytes: nat)
    requires IsTable(pr2six) && start <= |memory| && Octets(memory)
    requires PrefixLength(memory[start..]) < |memory| - start
    ensures nprbytes == PrefixLength(memory[start..])
  {
    hide Six;
    var bufin := start;
    ghost var n := PrefixLength(memory[start..]);
    assert forall i :: 0 <= i <= n ==> memory[start..][i] == memory[start + i] && memory[start + i] in memory;
    while pr2six[memory[bufin] as int] <= MAXVAL
      invariant start <= bufin <= start + n
      decreases start + n - bufin
    {
      bufin := bufin + 1;
    }
    nprbytes := bufin - start;
  }

  /** The three stores of one turn of the loop. */
  method WriteGroup(pr2six: array<nat>, memory: string, bufin: nat, bufplain: array<byte>, bufout: nat)
    requires IsTable(pr2six) && Octets(memory)
    requires bufin + 4 <= |memory| && bufout + 3 <= bufplain.Length
    modifies bufplain
    ensures bufplain[..bufout + 3] == old(bufplain[..bufout])
         + Group(Six(memory[bufin]), Six(memory[bufin + 1]), Six(memory[bufin + 2]), Six(memory[bufin + 3]))
    ensures bufplain[bufout + 3..] == old(bufplain[bufout + 3..])
  {
    hide Six, Or;
    assert forall k :: bufin <= k < bufin + 4 ==> memory[k] in memory;
    var a, b := pr2six[memory[bufin] as int], pr2six[memory[bufin + 1] as int];
    var c, d := pr2six[memory[bufin + 2] as int], pr2six[memory[bufin + 3] as int];
    bufplain[bufout] := Or(a * 4, b / 16) % 256;
    bufplain[bufout + 1] := Or(b * 16, c / 4) % 256;
    bufplain[bufout + 2] := Or(c * 64, d) % 256;
  }

  lemma GroupsStep(t: string, g: nat)
    requires 4 * g + 4 <= |t|
    ensures Groups(t, g + 1)
         == Groups(t, g) + Group(Six(t[4 * g]), Six(t[4 * g + 1]), Six(t[4 * g + 2]), Six(t[4 * g + 3]))
  {
    hide Group, Six;
  }

  /** The loop over the groups of four characters. */
  method DecodeGroups(pr2six: array<nat>, memory: string, start: nat, n: nat, bufplain: array<byte>)
    returns (bufin: nat, nprbytes: int)
    requires IsTable(pr2six) && Octets(memory)
    requires start + 4 * Quads(n) <= |memory| && 3 * Quads(n) <= bufplain.Length
    modifies bufplain
    ensures bufin == start + 4 * Quads(n) && nprbytes == n - 4 * Quads(n)
    ensures bufplain[..3 * Quads(n)] == Groups(memory[start..], Quads(n))
    ensures bufplain[3 * Quads(n)..] == old(bufplain[3 * Quads(n)..])
  {
    hide Six, Groups, Group, IsTable;
    ghost var t := memory[start..];
    var bufout := 0;
    bufin, nprbytes := start, n;
    ghost var g: nat := 0;
    GroupsNone(t);
    while nprbytes > 0
      invariant g <= Quads(n) && nprbytes == n - 4 * g && bufin == start + 4 * g && bufout == 3 * g
      invariant bufplain[..bufout] == Groups(t, g) && IsTable(pr2six)
      invariant bufplain[bufout..] == old(bufplain[bufout..])
    {
      assert t[4 * g] == memory[bufin] && t[4 * g + 1] == memory[bufin + 1];
      assert t[4 * g + 2] == memory[bufin + 2] && t[4 * g + 3] == memory[bufin + 3];
      WriteGroup(pr2six, memory, bufin, bufplain, bufout);
      GroupsStep(t, g);
      bufout, bufin, nprbytes, g := bufout + 3, bufin + 4, nprbytes - 4, g + 1;
    }
  }

  /** bufcoded is the memory from the argument on, bufplain the memory from the
      output buffer on, which may go on behind outbufsize. */
  method Decode(bufcoded: string, bufplain: array<byte>, outbufsize: nat) returns (nbytesdecoded: int)
    requires ReadableFor(bufcoded, outbufsize)
    requires GroupEnd(bufcoded, outbufsize) <= bufplain.Length && Terminator(bufcoded, outbufsize) < bufplain.Length
    modifies bufplain
    ensures nbytesdecoded == Terminator(bufcoded, outbufsize)
    ensures bufplain[..] == Written(old(bufplain[..]), bufcoded, outbufsize)
  {
    hide Six, Letter, Groups, Group, PrefixLength, StripBlanks, IsTable, Written, Octets, Dropped;
    ghost var before := bufplain[..];
    var pr2six := InitTable();
    TableIs(pr2six);
    var start := SkipBlanks(bufcoded);
    ghost var t := bufcoded[start..];
    var nprbytes: int := CountPrefix(pr2six, bufcoded, start);
    nbytesdecoded := (nprbytes + 3) / 4 * 3;
    if nbytesdecoded > outbufsize {
      nprbytes := outbufsize * 4 / 3;
    }
    ghost var k: nat := nprbytes;
    var bufin;
    bufin, nprbytes := DecodeGroups(pr2six, bufcoded, start, nprbytes, bufplain);
    Joined(before, bufplain[..], bufcoded, outbufsize, k);
    nbytesdecoded := DropPadding(pr2six, bufcoded, start, k, bufin, nprbytes, nbytesdecoded);
    bufplain[nbytesdecoded] := 0;
  }

  /** The test on the third character of the last group that was read. */
  method DropPadding(pr2six: array<nat>, memory: string, ghost start: nat, ghost k: nat, bufin: nat, nprbytes: int,
                     nbytes: int)
    returns (nbytesdecoded: int)
    requires IsTable(pr2six) && Octets(memory) && start + 4 * Quads(k) <= |memory|
    requires bufin == start + 4 * Quads(k) && nprbytes == k - 4 * Quads(k)
    ensures nbytesdecoded == nbytes - Dropped(memory[start..], k)
  {
    hide Six, IsTable, Octets;
    nbytesdecoded := nbytes;
    if nprbytes % 4 != 0 {   // nprbytes & 03
      AtOffset(memory, start, 4 * Quads(k) - 2);
      OctetAt(memory, bufin - 2);
      TableAt(pr2six, memory[bufin - 2]);
      if pr2six[memory[bufin - 2] as int] > MAXVAL {
        nbytesdecoded := nbytesdecoded - 2;
      } else {
        nbytesdecoded := nbytesdecoded - 1;
      }
    }
  }

  lemma OctetAt(memory: string, i: nat)
    requires Octets(memory) && i < |memory|
    ensures memory[i] as int < 256
  {
    assert memory[i] in memory;
  }

  lemma Joined(before: seq<byte>, b: seq<byte>, memory: string, size: nat, k: nat)
    requires ReadableFor(memory, size) && k == Capped(PrefixLength(StripBlanks(memory)), size)
    requires 3 * Quads(k) <= |b| == |before| && Terminator(memory, size) < |before|
    requires b[..3 * Quads(k)] == Groups(StripBlanks(memory), Quads(k)) && b[3 * Quads(k)..] == before[3 * Quads(k)..]
    ensures Written(before, memory, size) == b[Terminator(memory, size) := 0]
  {
    hide Six, Groups, PrefixLength, StripBlanks, Terminator;
    assert b == b[..3 * Quads(k)] + b[3 * Quads(k)..];
  }

  lemma AtOffset(memory: string, start: nat, k: nat)
    requires start + k < |memory|
    ensures memory[start..][k] == memory[start + k]
  {
  }

  lemma TableIs(pr2six: array<nat>)
    requires pr2six.Length == 256 && forall c: char :: c as int < 256 ==> pr2six[c as int] == Six(c)
    ensures IsTable(pr2six)
  {
    hide Six;
  }

  lemma TableAt(pr2six: array<nat>, c: char)
    requires IsTable(pr2six) && c as int < 256
    ensures pr2six.Length == 256 && pr2six[c as int] == Six(c)
  {
    hide Six;
  }

  lemma GroupsNone(t: string)
    ensures Groups(t, 0) == []
  {
  }

  // ----- Decoding undoes encoding -----

  function LetterCount(k: nat): (n: nat) {
    if k == 0 then 0 else if k < 3 then k + 1 else 4 + LetterCount(k - 3)
  }

  lemma {:induction false} LetterCounts(k: nat)
    ensures var n, g := LetterCount(k), Quads(LetterCount(k));
            && (k % 3 == 0 ==> n == 4 * g && k == 3 * g)
            && (k % 3 == 1 ==> n == 4 * g - 2 && k == 3 * g - 2)
            && (k % 3 == 2 ==> n == 4 * g - 1 && k == 3 * g - 1)
  {
    if k >= 3 { LetterCounts(k - 3); }
  }

  /** The letters of an octet string, without padding. */
  function Letters(b: seq<byte>): (s: string)
    ensures |s| == LetterCount(|b|)
    ensures forall c <- s :: c as int < 128
  {
    if b == [] then ""
    else if |b| == 1 then [Letter(b[0] / 4), Letter(b[0] % 4 * 16)]
    else if |b| == 2 then [Letter(b[0] / 4), Letter(b[0] % 4 * 16 + b[1] / 16), Letter(b[1] % 16 * 4)]
    else
      [Letter(b[0] / 4), Letter(b[0] % 4 * 16 + b[1] / 16), Letter(b[1] % 16 * 4 + b[2] / 64), Letter(b[2] % 64)]
      + Letters(b[3..])
  }

  /** The padding of section 4 of RFC 4648. */
  function Padding(k: nat): (text: string) {
    if k % 3 == 0 then "" else if k % 3 == 1 then "==" else "="
  }

  function Encoded(b: seq<byte>): (text: string) { Letters(b) + Padding(|b|) }

  lemma {:induction false} GroupsFront(t: string, g: nat)
    requires 0 < g && 4 * g <= |t|
    ensures Groups(t, g) == Group(Six(t[0]), Six(t[1]), Six(t[2]), Six(t[3])) + Groups(t[4..], g - 1)
  {
    hide Group, Six;
    if g > 1 {
      GroupsFront(t, g - 1);
      var k := 4 * g - 8;
      assert t[4..][k] == t[k + 4] && t[4..][k + 1] == t[k + 5] && t[4..][k + 2] == t[k + 6]
             && t[4..][k + 3] == t[k + 7];
    }
  }

  lemma OrParts(n: nat, high: nat, low: nat)
    requires low < Pow2(n)
    ensures Or(high * Pow2(n), low) == high * Pow2(n) + low
  {
    hide Or, Pow2;
    OrDisjoint(n, low, high);
    Double(high, Pow2(n));
    OrCommutes(high * Pow2(n), low);
  }

  lemma FirstOctet(x: byte, y: byte)
    ensures Or(x / 4 * 4, x % 4 * 16 / 16) == x
    ensures Or(x / 4 * 4, (x % 4 * 16 + y / 16) / 16) == x
  {
    hide Or;
    assert Pow2(2) == 4;
    OrParts(2, x / 4, x % 4);
    assert (x % 4 * 16 + y / 16) / 16 == x % 4 && x % 4 * 16 / 16 == x % 4;
  }

  lemma SecondOctet(x: byte, y: byte, z: byte)
    ensures Or((x % 4 * 16 + y / 16) * 16, y % 16 * 4 / 4) % 256 == y
    ensures Or((x % 4 * 16 + y / 16) * 16, (y % 16 * 4 + z / 64) / 4) % 256 == y
  {
    hide Or;
    assert Pow2(4) == 16;
    OrParts(4, x % 4 * 16 + y / 16, y % 16);
    assert y % 16 * 4 / 4 == y % 16 && (y % 16 * 4 + z / 64) / 4 == y % 16;
  }

  lemma ThirdOctet(y: byte, z: byte)
    ensures Or((y % 16 * 4 + z / 64) * 64, z % 64) % 256 == z
  {
    hide Or;
    assert Pow2(6) == 64;
    OrParts(6, y % 16 * 4 + z / 64, z % 64);
  }

  lemma GroupOfOctets(x: byte, y: byte, z: byte, c: nat, d: nat)
    ensures Group(x / 4, x % 4 * 16, c, d)[0] == x
    ensures Group(x / 4, x % 4 * 16 + y / 16, c, d)[0] == x
    ensures Group(x / 4, x % 4 * 16 + y / 16, y % 16 * 4, d)[1] == y
    ensures Group(x / 4, x % 4 * 16 + y / 16, y % 16 * 4 + z / 64, z % 64) == [x, y, z]
  {
    hide Or;
    FirstOctet(x, y);
    SecondOctet(x, y, z);
    ThirdOctet(y, z);
  }

  /** The first group of the letters gives the first octets back. */
  lemma FirstGroup(b: seq<byte>, rest: string)
    requires b != [] && |Letters(b)| + |rest| >= 4
    ensures var s := Letters(b) + rest;
            var r := Group(Six(s[0]), Six(s[1]), Six(s[2]), Six(s[3]));
            forall i :: 0 <= i < |b| && i < 3 ==> r[i] == b[i]
  {
    hide Group, Six, Letter;
    var s := Letters(b) + rest;
    var y: byte, z: byte := if |b| > 1 then b[1] else 0, if |b| > 2 then b[2] else 0;
    SixOfLetter(b[0] / 4);
    SixOfLetter(b[0] % 4 * 16);
    SixOfLetter(b[0] % 4 * 16 + y / 16);
    SixOfLetter(y % 16 * 4);
    SixOfLetter(y % 16 * 4 + z / 64);
    SixOfLetter(z % 64);
    GroupOfOctets(b[0], y, z, Six(s[2]), Six(s[3]));
  }

  lemma OtherLetters(b: seq<byte>, rest: string)
    requires |b| >= 3
    ensures |Letters(b) + rest| >= 4 && (Letters(b) + rest)[4..] == Letters(b[3..]) + rest
  {
    hide Letter;
    Behind4(Letters(b)[..4], Letters(b[3..]), rest);
    assert Letters(b) == Letters(b)[..4] + Letters(b[3..]);
  }

  lemma Behind4(x: string, y: string, rest: string)
    requires |x| == 4
    ensures (x + y + rest)[4..] == y + rest
  {
  }

  lemma {:induction false} GroupsOfLetters(b: seq<byte>, rest: string)
    requires 4 * Quads(LetterCount(|b|)) <= |Letters(b)| + |rest|
    ensures |b| <= 3 * Quads(LetterCount(|b|))
    ensures Groups(Letters(b) + rest, Quads(LetterCount(|b|)))[..|b|] == b
  {
    hide Group, Six, Letter, Groups, Letters;
    var s, g := Letters(b) + rest, Quads(LetterCount(|b|));
    if b != [] {
      GroupsFront(s, g);
      FirstGroup(b, rest);
      if |b| >= 3 {
        OtherLetters(b, rest);
        GroupsOfLetters(b[3..], rest);
        assert b == [b[0], b[1], b[2]] + b[3..];
      }
    }
  }

  lemma {:induction false} LettersValid(b: seq<byte>)
    ensures forall i :: 0 <= i < |Letters(b)| ==> Six(Letters(b)[i]) <= MAXVAL && !IsBlank(Letters(b)[i])
  {
    hide Six;
    if |b| >= 3 { LettersValid(b[3..]); }
    LetterValid();
  }

  lemma LetterValid()
    ensures forall j: nat :: j < 64 ==> Six(Letter(j)) <= MAXVAL && !IsBlank(Letter(j))
  {
  }

  lemma {:induction false} StripLeading(blanks: string, t: string)
    requires Blanks(blanks) && (t == "" || !IsBlank(t[0]))
    ensures StripBlanks(blanks + t) == t
  {
    if blanks == "" {
      assert blanks + t == t;
    } else {
      assert blanks[0] in blanks && (blanks + t)[1..] == blanks[1..] + t;
      StripLeading(blanks[1..], t);
    }
  }

  lemma LettersThen(b: seq<byte>, rest: string)
    requires rest != "" && Six(rest[0]) > MAXVAL && !IsBlank(rest[0])
    ensures var t := Letters(b) + rest; var n := |Letters(b)|;
            !IsBlank(t[0]) && Six(t[n]) > MAXVAL && forall i :: 0 <= i < n ==> Six(t[i]) <= MAXVAL
  {
    hide *;
    LettersValid(b);
    var t, s := Letters(b) + rest, Letters(b);
    assert t[|s|] == rest[0];
    assert forall i :: 0 <= i < |s| ==> t[i] == s[i];
  }

  lemma LettersAre(blanks: string, b: seq<byte>, rest: string)
    requires Blanks(blanks) && rest != "" && Six(rest[0]) > MAXVAL && !IsBlank(rest[0])
    ensures var t := StripBlanks(blanks + Letters(b) + rest);
            t == Letters(b) + rest && PrefixLength(t) == LetterCount(|b|)
  {
    hide *;
    var s := Letters(b);
    LettersThen(b, rest);
    StripLeading(blanks, s + rest);
    PrefixIs(s + rest, |s|);
    assert blanks + s + rest == blanks + (s + rest);
  }

  lemma DroppedIs(b: seq<byte>, rest: string)
    requires rest != "" && Six(rest[0]) > MAXVAL && 4 * Quads(LetterCount(|b|)) <= |Letters(b)| + |rest|
    ensures Dropped(Letters(b) + rest, LetterCount(|b|)) == 3 * Quads(LetterCount(|b|)) - |b|
  {
    hide Six, Letters, IsBlank, LetterCount;
    var n, t := LetterCount(|b|), Letters(b) + rest;
    LettersValid(b);
    LetterCounts(|b|);
    if |b| % 3 == 2 {
      assert t[n - 1] == Letters(b)[n - 1];
    } else if |b| % 3 == 1 {
      assert t[n] == rest[0];
    }
  }

  /** Every octet string comes back, behind blanks and whatever follows its
      letters, padding or not. */
  lemma DecodeUndoesEncode(blanks: string, b: seq<byte>, rest: string)
    requires Blanks(blanks) && Octets(rest)
    requires rest != "" && Six(rest[0]) > MAXVAL && !IsBlank(rest[0])
    requires 4 * Quads(LetterCount(|b|)) <= |Letters(b)| + |rest|
    ensures var memory := blanks + Letters(b) + rest;
            Readable(memory) && Decoded(memory) == b
  {
    hide Six, Letters, Groups, LetterCount, StripBlanks, PrefixLength, Dropped;
    LettersAre(blanks, b, rest);
    GroupsOfLetters(b, rest);
    DroppedIs(b, rest);
  }

  /** The padded encoding, ended by a NUL, decodes to the octets whatever
      follows; the room it takes is the length rounded up to three. */
  lemma PaddedRoundTrip(blanks: string, b: seq<byte>, after: string)
    requires Blanks(blanks) && Octets(after)
    ensures var memory := blanks + Encoded(b) + "\0" + after;
            && Readable(memory) && Decoded(memory) == b
            && 3 * Quads(PrefixLength(StripBlanks(memory))) == (|b| + 2) / 3 * 3
  {
    hide Letters, LetterCount, Readable, Decoded, StripBlanks, PrefixLength;
    var rest := Padding(|b|) + "\0" + after;
    assert blanks + Encoded(b) + "\0" + after == blanks + Letters(b) + rest;
    LetterCounts(|b|);
    LettersAre(blanks, b, rest);
    DecodeUndoesEncode(blanks, b, rest);
  }
}
