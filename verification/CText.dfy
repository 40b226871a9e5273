/** C strings and the decimal conversions of the C library on an LP64 platform. */
module CText {
  /** The characters before the terminating NUL. */
  type CString = s: string | forall c <- s :: 0 < c as int < 256

  /** The character at an index, the NUL past the last one. */
  function CharAt(s: string, i: nat): (c: char) {
    if i < |s| then s[i] else '\0'
  }

  /** The index of the first c, or the length. */
  function Find(s: string, c: char): (i: nat)
    ensures i <= |s| && (i < |s| ==> s[i] == c) && forall j :: 0 <= j < i ==> s[j] != c
  {
    if s == "" || s[0] == c then 0 else 1 + Find(s[1..], c)
  }

  lemma FindIs(s: string, c: char, i: nat)
    requires i <= |s| && (i < |s| ==> s[i] == c) && forall j :: 0 <= j < i ==> s[j] != c
    ensures Find(s, c) == i
  {
  }

  lemma FindNone(s: string, c: char)
    requires forall x <- s :: x != c
    ensures Find(s, c) == |s|
  {
    forall j | 0 <= j < |s|
      ensures s[j] != c
    {
      assert s[j] in s;
    }
    FindIs(s, c, |s|);
  }

  predicate IsDigit(c: char)
    ensures IsDigit(c) <==> c in "0123456789"
  {
    '0' <= c <= '9'
  }

  predicate IsSpace(c: char)
    ensures IsSpace(c) <==> c in " \t\n\U{0B}\U{0C}\r"
  {
    c == ' ' || '\t' <= c <= '\r'
  }

  predicate IsBlank(c: char) { c == ' ' || c == '\t' }
  predicate Blanks(s: string) { forall c <- s :: IsBlank(c) }

  function StripBlanks(name: string): (r: string)
    ensures r == "" || !IsBlank(r[0])
    ensures name == "" || !IsBlank(name[0]) ==> r == name
  {
    if name != "" && IsBlank(name[0]) then StripBlanks(name[1..]) else name
  }

  function Lower(c: char): (letter: char)
    ensures forall k :: 0 <= k < 26 && c == "ABCDEFGHIJKLMNOPQRSTUVWXYZ"[k] ==>
              letter == "abcdefghijklmnopqrstuvwxyz"[k]
    ensures c !in "ABCDEFGHIJKLMNOPQRSTUVWXYZ" ==> letter == c
  {
    if 'A' <= c <= 'Z' then (c as int + 32) as char else c
  }

  /** strcasecmp(s, t) == 0 */
  predicate SameIgnoringCase(s: string, t: string) {
    |s| == |t| && forall i :: 0 <= i < |s| ==> Lower(s[i]) == Lower(t[i])
  }

  const LONG_MAX := 0x7fff_ffff_ffff_ffff
  const LONG_MIN := -0x8000_0000_0000_0000

  function SkipSpaces(s: string): (text: string) {
    if s != "" && IsSpace(s[0]) then SkipSpaces(s[1..]) else s
  }

  /** The digits read so far are worth acc. */
  function ReadDigits(s: string, acc: nat): (n: nat) {
    if s != "" && IsDigit(s[0]) then ReadDigits(s[1..], 10 * acc + (s[0] as int - '0' as int)) else acc
  }

  function Saturate(n: int): (m: int)
    ensures -0x8000_0000_0000_0000 <= n <= 0x7fff_ffff_ffff_ffff ==> m == n
    ensures n > 0x7fff_ffff_ffff_ffff ==> m == 0x7fff_ffff_ffff_ffff
    ensures n < -0x8000_0000_0000_0000 ==> m == -0x8000_0000_0000_0000
  {
    if n > LONG_MAX then LONG_MAX else if n < LONG_MIN then LONG_MIN else n
  }

  /** strtol(s, NULL, 10), and with it atol and atoll. */
  function Atol(s: string): (n: int)
    ensures LONG_MIN <= n <= LONG_MAX
  {
    var t := SkipSpaces(s);
    if t != "" && t[0] == '-' then Saturate(-(ReadDigits(t[1..], 0) as int))
    else if t != "" && t[0] == '+' then Saturate(ReadDigits(t[1..], 0))
    else Saturate(ReadDigits(t, 0))
  }

  /** The low 32 bits of n as a signed int. */
  function ToInt(n: int): (i: int)
    ensures -0x8000_0000 <= i < 0x8000_0000
  {
    var u := n % 0x1_0000_0000;
    if u < 0x8000_0000 then u else u - 0x1_0000_0000
  }

  function Atoi(s: string): (n: int) { ToInt(Atol(s)) }

  function DigitOf(d: nat): (c: char)
    requires d < 10
    ensures IsDigit(c) && c as int - '0' as int == d
  {
    (d + '0' as int) as char
  }

  /** The shortest decimal of n: what %u, %lu and %llu print. */
  function Decimal(n: nat): (s: string)
    ensures |s| >= 1 && forall c <- s :: IsDigit(c)
  {
    if n < 10 then [DigitOf(n)] else Decimal(n / 10) + [DigitOf(n % 10)]
  }

  /** What %d prints. */
  function SignedDecimal(n: int): (s: string)
    ensures |s| >= 1 && IsDigit(s[|s| - 1]) && forall c <- s :: IsDigit(c) || c == '-'
  {
    if n < 0 then "-" + Decimal(-n) else Decimal(n)
  }

  lemma {:induction false} ReadDigitsConcat(s: string, t: string, acc: nat)
    requires forall c <- s :: IsDigit(c)
    ensures ReadDigits(s + t, acc) == ReadDigits(t, ReadDigits(s, acc))
  {
    if s == "" {
      assert s + t == t;
    } else {
      assert IsDigit(s[0]) && (s + t)[1..] == s[1..] + t;
      ReadDigitsConcat(s[1..], t, 10 * acc + (s[0] as int - '0' as int));
    }
  }

  lemma {:induction false} ReadDecimal(n: nat, rest: string)
    requires rest == "" || !IsDigit(rest[0])
    ensures ReadDigits(Decimal(n) + rest, 0) == n
  {
    ReadDecimalDigits(n);
    ReadDigitsConcat(Decimal(n), rest, 0);
  }

  lemma {:induction false} ReadDecimalDigits(n: nat)
    ensures ReadDigits(Decimal(n), 0) == n
  {
    if n < 10 {
      assert Decimal(n)[1..] == "";
    } else {
      ReadDecimalDigits(n / 10);
      ReadDigitsConcat(Decimal(n / 10), [DigitOf(n % 10)], 0);
      assert [DigitOf(n % 10)][1..] == "";
    }
  }

  lemma {:induction false} SpacesSkipped(spaces: string, s: string)
    requires (forall i :: 0 <= i < |spaces| ==> IsSpace(spaces[i])) && (s == "" || !IsSpace(s[0]))
    ensures SkipSpaces(spaces + s) == s
  {
    if spaces == "" {
      assert spaces + s == s;
    } else {
      assert (spaces + s)[1..] == spaces[1..] + s;
      SpacesSkipped(spaces[1..], s);
    }
  }

  /** Spaces, an optional sign and digits, up to the first other character. */
  lemma AtolText(spaces: string, sign: string, n: nat, rest: string)
    requires forall i :: 0 <= i < |spaces| ==> IsSpace(spaces[i])
    requires sign == "" || sign == "+" || sign == "-"
    requires rest == "" || !IsDigit(rest[0])
    ensures Atol(spaces + (sign + (Decimal(n) + rest))) == Saturate(if sign == "-" then -(n as int) else n)
  {
    hide Saturate;
    var t := sign + (Decimal(n) + rest);
    assert Decimal(n)[0] in Decimal(n);
    SpacesSkipped(spaces, t);
    ReadDecimal(n, rest);
    assert sign == "" ==> t == Decimal(n) + rest;
    assert sign != "" ==> t[0] == sign[0] && t[1..] == Decimal(n) + rest;
  }

  /** Reading back a printed unsigned number gives it back, or the largest
      representable one. */
  lemma AtolDecimal(n: nat, rest: string)
    requires rest == "" || !IsDigit(rest[0])
    ensures Atol(Decimal(n) + rest) == Saturate(n)
  {
    hide Atol, Saturate, Decimal;
    AtolText("", "", n, rest);
    assert "" + ("" + (Decimal(n) + rest)) == Decimal(n) + rest;
  }

  lemma AtolSigned(n: int, rest: string)
    requires rest == "" || !IsDigit(rest[0])
    ensures Atol(SignedDecimal(n) + rest) == Saturate(n)
  {
    hide Atol, Saturate, Decimal;
    if n < 0 {
      AtolText("", "-", -n, rest);
      assert SignedDecimal(n) + rest == "" + ("-" + (Decimal(-n) + rest));
    } else {
      AtolDecimal(n, rest);
    }
  }

  /** Text without a number counts as zero. */
  lemma AtolNone(s: string)
    requires s == "" || (!IsSpace(s[0]) && s[0] != '-' && s[0] != '+' && !IsDigit(s[0]))
    ensures Atol(s) == 0
  {
  }

  lemma Regroup(done: string, c: char, rest: string)
    ensures done + ([c] + rest) == done + [c] + rest
  {
  }

  // ----- C strings in buffers -----

  /** The C string at the start of a buffer. */
  function CStr(s: string): (r: string)
    ensures |r| <= |s| && r == s[..|r|] && '\0' !in r
    ensures |r| == |s| || s[|r|] == '\0'
  {
    if s == "" || s[0] == '\0' then "" else [s[0]] + CStr(s[1..])
  }

  lemma {:induction false} CStrOf(t: string, rest: string)
    requires '\0' !in t && (rest == "" || rest[0] == '\0')
    ensures CStr(t + rest) == t
  {
    if t == "" {
      assert t + rest == rest;
    } else {
      assert t[0] in t && (t + rest)[1..] == t[1..] + rest;
      CStrOf(t[1..], rest);
    }
  }

  /** Only what precedes the first NUL of u is read back. */
  lemma {:induction false} CStrCut(u: string, rest: string)
    requires rest != "" && rest[0] == '\0'
    ensures CStr(u + rest) == CStr(u)
  {
    var c := CStr(u);
    assert u + rest == c + (u[|c|..] + rest);
    CStrOf(c, u[|c|..] + rest);
  }

  function Zeroes(n: nat): (r: string)
    ensures |r| == n && forall i :: 0 <= i < n ==> r[i] == '\0'
  {
    seq(n, i => '\0')
  }

  /** Reads the C string at an address. */
  method Text(a: array<char>, at: nat) returns (t: string)
    requires at <= a.Length
    ensures t == CStr(a[at..])
  {
    t := "";
    var i := at;
    while i < a.Length && a[i] != '\0'
      invariant at <= i <= a.Length && t == a[at..i] && '\0' !in t
    {
      t := t + [a[i]];
      i := i + 1;
    }
    assert a[at..] == t + a[i..];
    CStrOf(t, a[i..]);
  }
}
