/** Percent escaping into a fresh buffer and unescaping within one. */
module UrlText {
  import opened CText

  // ----- _httpd_escape -----

  /** The table of acceptable characters, from the space on: bit 1 marks the
      characters the escaper leaves alone. */
  function IsAcceptable(c: char): (n: nat) {
    if 'a' <= c <= 'z' || 'A' <= c <= 'Z' || '0' <= c <= '9' then 7
    else if c in "!\"$&'()*,-.@_" then 7
    else if c == '+' then 6
    else if c == '/' then 4
    else 0
  }

  predicate Acceptable(c: char) {
    c != '&' && 32 <= c as int < 128 && IsAcceptable(c) / 2 % 2 == 1
  }

  function HexDigit(n: nat): (c: char)
    requires n < 16
    ensures c == "0123456789ABCDEF"[n]
  {
    if n < 10 then ('0' as int + n) as char else ('A' as int + n - 10) as char
  }

  function EscapedChar(c: char): (s: string)
    requires c as int < 256
  {
    if Acceptable(c) then [c] else ['%', HexDigit(c as int / 16), HexDigit(c as int % 16)]
  }

  function Escaped(s: CString): (text: string) {
    if s == "" then "" else EscapedChar(s[0]) + Escaped(s[1..])
  }

  /** Two more characters for each one that is not acceptable. */
  function Extra(s: CString): (n: nat) {
    if s == "" then 0 else (if Acceptable(s[0]) then 0 else 2) + Extra(s[1..])
  }

  lemma {:induction false} EscapedLength(s: CString)
    ensures |Escaped(s)| == |s| + Extra(s)
  {
    if s != "" { EscapedLength(s[1..]); }
  }

  lemma {:induction false} EscapedConcat(s: CString, t: CString)
    ensures Escaped(s + t) == Escaped(s) + Escaped(t)
    ensures Extra(s + t) == Extra(s) + Extra(t)
  {
    if s == "" {
      assert s + t == t;
    } else {
      assert (s + t)[1..] == s[1..] + t;
      EscapedConcat(s[1..], t);
    }
  }

  lemma EscapedSnoc(s: CString, i: nat)
    requires i < |s|
    ensures Escaped(s[..i + 1]) == Escaped(s[..i]) + EscapedChar(s[i])
    ensures Extra(s[..i + 1]) == Extra(s[..i]) + if Acceptable(s[i]) then 0 else 2
    ensures |Escaped(s[..i + 1])| <= |Escaped(s)|
  {
    hide EscapedChar, Acceptable;
    assert s[..i + 1] == s[..i] + [s[i]] && s == s[..i + 1] + s[i + 1..];
    EscapedConcat(s[..i], [s[i]]);
    EscapedConcat(s[..i + 1], s[i + 1..]);
    assert [s[i]][1..] == "";
    assert Escaped([s[i]]) == EscapedChar(s[i]) + "";
  }

  /** Counts, allocates exactly, and fills: the buffer ends with its terminator. */
  method Escape(str: CString) returns (result: array<char>)
    ensures fresh(result) && result.Length == |Escaped(str)| + 1
    ensures result[..] == Escaped(str) + ['\0']
  {
    hide Escaped, EscapedChar, Extra, Acceptable;
    var unacceptable, p := 0, 0;
    EscapedNothing();
    while p < |str|
      invariant p <= |str| && unacceptable == Extra(str[..p])
    {
      EscapedSnoc(str, p);
      if !Acceptable(str[p]) {
        unacceptable := unacceptable + 2;
      }
      p := p + 1;
    }
    assert str[..p] == str;
    EscapedLength(str);
    result := new char[p + unacceptable + 1];
    var q := 0;
    p := 0;
    while p < |str|
      invariant p <= |str| && q == |Escaped(str[..p])| < result.Length
      invariant result[..q] == Escaped(str[..p])
    {
      EscapedSnoc(str, p);
      q := EscapeOne(result, q, str[p]);
      p := p + 1;
    }
    assert str[..p] == str;
    result[q] := '\0';
  }

  /** One character of the filling loop. */
  method EscapeOne(result: array<char>, q: nat, c: char) returns (next: nat)
    requires c as int < 256 && q + |EscapedChar(c)| <= result.Length
    modifies result
    ensures next == q + |EscapedChar(c)| && result[..next] == old(result[..q]) + EscapedChar(c)
  {
    hide Acceptable, HexDigit;
    var a := c as int;
    if !Acceptable(c) {
      result[q] := '%';
      result[q + 1] := HexDigit(a / 16);
      result[q + 2] := HexDigit(a % 16);
      next := q + 3;
    } else {
      result[q] := c;
      next := q + 1;
    }
    assert result[q..next] == EscapedChar(c);
    assert result[..next] == result[..q] + result[q..next];
  }

  lemma EscapedNothing()
    ensures Escaped("") == "" && Extra("") == 0
  {
  }

  // ----- _httpd_unescape -----

  /** Not checked to be a hex digit; kept in one octet. */
  function FromHex(c: char): (n: int)
    requires c as int < 256
    ensures 0 <= n < 256
  {
    var v := c as int;
    (if '0' <= c <= '9' then v - '0' as int
     else if 'A' <= c <= 'F' then v - 'A' as int + 10
     else v - 'a' as int + 10) % 256
  }

  function OctetChar(n: int): (c: char)
    ensures c as int < 256
  {
    (n % 256) as char
  }

  /** The character written at q for what stands at p, and where reading goes
      on.  A percent sign that ends the text leaves the character that stood at
      q; a lone hex digit counts as the upper one. */
  function OneChar(s: CString, p: nat, q: nat): (r: (char, nat))
    requires q <= p < |s|
    ensures r.0 as int < 256 && p < r.1 <= |s|
  {
    if s[p] == '%' then
      if p + 1 == |s| then (s[q], p + 1)
      else if p + 2 == |s| then (OctetChar(FromHex(s[p + 1]) * 16), p + 2)
      else (OctetChar(FromHex(s[p + 1]) * 16 + FromHex(s[p + 2])), p + 3)
    else if s[p] == '+' then (' ', p + 1)
    else (s[p], p + 1)
  }

  /** What reading s from p on writes from q on. */
  function UnescapedFrom(s: CString, p: nat, q: nat): (r: string)
    requires q <= p <= |s|
    ensures |r| <= |s| - p
    ensures forall c <- r :: c as int < 256
    decreases |s| - p
  {
    if p == |s| then "" else [OneChar(s, p, q).0] + UnescapedFrom(s, OneChar(s, p, q).1, q + 1)
  }

  function Unescaped(s: CString): (text: string) { UnescapedFrom(s, 0, 0) }

  /** The text at str as it still stands from q on. */
  predicate Unread(buffer: array<char>, str: nat, q: nat, s: CString)
    reads buffer
  {
    && str <= q <= str + |s| < buffer.Length
    && (forall i :: q <= i < str + |s| ==> buffer[i] == s[i - str])
    && buffer[str + |s|] == '\0'
  }

  lemma TerminatorFirst(buffer: array<char>, str: nat, q: nat, p: nat, s: CString)
    requires Unread(buffer, str, q, s) && q <= p <= str + |s|
    ensures buffer[p] == '\0' <==> p == str + |s|
  {
    if p < str + |s| {
      assert s[p - str] in s;
    }
  }

  /** One turn of the loop, up to the increment of q. */
  method DecodeOne(buffer: array<char>, str: nat, p: nat, q: nat, ghost s: CString) returns (next: nat)
    requires Unread(buffer, str, q, s) && q <= p < str + |s|
    modifies buffer
    ensures buffer[q] == OneChar(s, p - str, q - str).0 && next == str + OneChar(s, p - str, q - str).1
    ensures forall i :: 0 <= i < buffer.Length && i != q ==> buffer[i] == old(buffer[i])
  {
    hide FromHex, OctetChar;
    next := p;
    if buffer[next] == '%' {
      next := next + 1;
      TerminatorFirst(buffer, str, q, next, s);
      if buffer[next] != '\0' {
        buffer[q] := OctetChar(FromHex(buffer[next]) * 16);
        next := next + 1;
        if next < str + |s| {
          assert s[next - str] in s;
        }
        if buffer[next] != '\0' {
          HexSum(FromHex(s[next - 1 - str]), FromHex(s[next - str]));
          buffer[q] := OctetChar(buffer[q] as int + FromHex(buffer[next]));
          next := next + 1;
        }
      }
    } else {
      if buffer[next] == '+' {
        buffer[q] := ' ';
        next := next + 1;
      } else {
        buffer[q] := buffer[next];
        next := next + 1;
      }
    }
  }

  /** _httpd_unescape, in place, on the text that starts at str. */
  method Unescape(buffer: array<char>, str: nat, ghost s: CString)
    requires Unread(buffer, str, str, s)
    modifies buffer
    ensures var u := Unescaped(s);
            && str + |u| < buffer.Length && buffer[str..str + |u|] == u && buffer[str + |u|] == '\0'
    ensures forall i :: 0 <= i < str || str + |s| < i < buffer.Length ==> buffer[i] == old(buffer[i])
  {
    hide UnescapedFrom, OneChar;
    var p: nat, q: nat := str, str;
    ghost var done := "";
    TerminatorFirst(buffer, str, q, p, s);
    while buffer[p] != '\0'
      invariant q <= p <= str + |s| && Unread(buffer, str, q, s)
      invariant buffer[p] == '\0' <==> p == str + |s|
      invariant forall i :: 0 <= i < str || str + |s| < i < buffer.Length ==> buffer[i] == old(buffer[i])
      invariant buffer[str..q] == done
      invariant Unescaped(s) == done + UnescapedFrom(s, p - str, q - str)
      decreases str + |s| - p
    {
      UnescapeStep(s, p - str, q - str);
      p := DecodeOne(buffer, str, p, q, s);
      assert buffer[str..q + 1] == buffer[str..q] + [buffer[q]];
      Regroup(done, buffer[q], UnescapedFrom(s, p - str, q + 1 - str));
      done := done + [buffer[q]];
      q := q + 1;
      TerminatorFirst(buffer, str, q, p, s);
    }
    UnescapeEnd(s, q - str);
    assert done + "" == done;
    buffer[q] := '\0';
  }

  lemma UnescapeStep(s: CString, p: nat, q: nat)
    requires q <= p < |s|
    ensures var one := OneChar(s, p, q);
            UnescapedFrom(s, p, q) == [one.0] + UnescapedFrom(s, one.1, q + 1)
  {
  }

  lemma UnescapeEnd(s: CString, q: nat)
    requires q <= |s|
    ensures UnescapedFrom(s, |s|, q) == ""
  {
  }

  lemma HexSum(high: int, low: int)
    requires 0 <= high < 256 && 0 <= low < 256
    ensures OctetChar(OctetChar(high * 16) as int + low) == OctetChar(high * 16 + low)
  {
  }

  // ----- Unescaping undoes escaping -----

  lemma HexRoundTrip(n: nat)
    requires n < 16
    ensures FromHex(HexDigit(n)) == n
  {
  }

  /** A plus sign is not escaped, but read as a space. */
  function ReadBack(c: char): (letter: char) { if c == '+' then ' ' else c }

  function PlusAsSpace(v: string): (r: string)
    ensures |r| == |v| && forall i :: 0 <= i < |v| ==> r[i] == ReadBack(v[i])
  {
    if v == "" then "" else [ReadBack(v[0])] + PlusAsSpace(v[1..])
  }

  lemma EscapedCharRead(s: CString, p: nat, q: nat, c: char)
    requires 0 < c as int < 256
    requires q <= p && p + |EscapedChar(c)| <= |s| && s[p..p + |EscapedChar(c)|] == EscapedChar(c)
    ensures OneChar(s, p, q) == (ReadBack(c), p + |EscapedChar(c)|)
  {
    hide FromHex, HexDigit;
    var e := EscapedChar(c);
    assert s[p] == s[p..p + |e|][0] == e[0];
    if Acceptable(c) {
      assert c != '%';
    } else {
      assert s[p + 1] == s[p..p + |e|][1] == e[1] && s[p + 2] == s[p..p + |e|][2] == e[2];
      HexRoundTrip(c as int / 16);
      HexRoundTrip(c as int % 16);
    }
  }

  lemma {:induction false} UnescapeEscapedFrom(s: CString, p: nat, q: nat, v: CString)
    requires q <= p <= |s| && s[p..] == Escaped(v)
    ensures UnescapedFrom(s, p, q) == PlusAsSpace(v)
    decreases |v|
  {
    hide EscapedChar, OneChar, UnescapedFrom;
    if v == "" {
      UnescapeEnd(s, q);
    } else {
      var e, rest := EscapedChar(v[0]), Escaped(v[1..]);
      assert v[0] in v && v == [v[0]] + v[1..];
      SplitText(s, p, e, rest);
      EscapedCharSome(v[0]);
      EscapedCharRead(s, p, q, v[0]);
      UnescapeStep(s, p, q);
      UnescapeEscapedFrom(s, p + |e|, q + 1, v[1..]);
    }
  }

  lemma SplitText(s: string, p: nat, e: string, rest: string)
    requires p <= |s| && s[p..] == e + rest
    ensures p + |e| <= |s| && s[p..p + |e|] == e && s[p + |e|..] == rest
  {
    assert s[p..p + |e|] == s[p..][..|e|];
    assert s[p + |e|..] == s[p..][|e|..];
  }

  lemma EscapedCharSome(c: char)
    requires c as int < 256
    ensures EscapedChar(c) != "" && forall e <- EscapedChar(c) :: e != '=' && e != '&' && 0 < e as int < 128
  {
  }

  /** What the table leaves alone: letters, digits and some punctuation, of which
      the plus sign is read back as a space. */
  lemma EscapedExactly(c: char)
    requires 0 < c as int < 256
    ensures var n, digits := c as int, "0123456789ABCDEF";
            EscapedChar(c)
            == if 'a' <= c <= 'z' || 'A' <= c <= 'Z' || '0' <= c <= '9' || c in "!\"$'()*+,-.@_" then [c]
               else ['%', digits[n / 16], digits[n % 16]]
  {
    hide HexDigit;
  }

  // ----- Any spelling of a text -----

  /** A character as it is, or an octet in hex digits of either case. */
  datatype Spelled = Plain(c: char) | Hex(b: nat, upper: bool, upperLow: bool)

  predicate Spells(t: Spelled) {
    match t case Plain(c) => c != '%' && 0 < c as int < 256 case Hex(b, _, _) => b < 256
  }

  function Spelling(t: Spelled): (s: string)
    requires Spells(t)
  {
    var upper, lower := "0123456789ABCDEF", "0123456789abcdef";
    match t
    case Plain(c) => [c]
    case Hex(b, up, upLow) =>
      ['%', (if up then upper else lower)[b / 16], (if upLow then upper else lower)[b % 16]]
  }

  function Meant(t: Spelled): (c: char)
    requires Spells(t)
  {
    match t case Plain(c) => if c == '+' then ' ' else c case Hex(b, _, _) => b as char
  }

  predicate AllSpell(ts: seq<Spelled>) { forall i :: 0 <= i < |ts| ==> Spells(ts[i]) }

  function SpellingAll(ts: seq<Spelled>): (s: string)
    requires AllSpell(ts)
  {
    if ts == [] then "" else Spelling(ts[0]) + SpellingAll(ts[1..])
  }

  function MeantAll(ts: seq<Spelled>): (s: string)
    requires AllSpell(ts)
  {
    if ts == [] then "" else [Meant(ts[0])] + MeantAll(ts[1..])
  }

  lemma HexRead(k: nat)
    requires k < 16
    ensures FromHex("0123456789ABCDEF"[k]) == k && FromHex("0123456789abcdef"[k]) == k
    ensures 0 < "0123456789ABCDEF"[k] as int < 256 && 0 < "0123456789abcdef"[k] as int < 256
  {
  }

  /** What the code makes of a character that is no hex digit. */
  lemma OtherRead(c: char)
    requires c as int < 256 && !('0' <= c <= '9') && !('A' <= c <= 'F')
    ensures FromHex(c) == (c as int - 87) % 256
  {
  }

  lemma SpellingIsText(t: Spelled)
    requires Spells(t)
    ensures Spelling(t) != "" && forall c <- Spelling(t) :: 0 < c as int < 256
  {
    if t.Hex? {
      HexRead(t.b / 16);
      HexRead(t.b % 16);
    }
  }

  lemma SpelledOne(s: CString, p: nat, q: nat, t: Spelled)
    requires Spells(t)
    requires q <= p && p + |Spelling(t)| <= |s| && s[p..p + |Spelling(t)|] == Spelling(t)
    ensures p < |s| && OneChar(s, p, q) == (Meant(t), p + |Spelling(t)|)
  {
    hide FromHex;
    var e := Spelling(t);
    assert s[p] == s[p..p + |e|][0] == e[0];
    if t.Hex? {
      assert s[p + 1] == s[p..p + |e|][1] == e[1] && s[p + 2] == s[p..p + |e|][2] == e[2];
      HexRead(t.b / 16);
      HexRead(t.b % 16);
    }
  }

  lemma {:induction false} SpelledFrom(s: CString, p: nat, q: nat, ts: seq<Spelled>, tail: string)
    requires AllSpell(ts) && q <= p <= |s| && s[p..] == SpellingAll(ts) + tail
    ensures q + |ts| <= |s| - |tail|
    ensures UnescapedFrom(s, p, q) == MeantAll(ts) + UnescapedFrom(s, |s| - |tail|, q + |ts|)
    decreases |ts|
  {
    hide Spells, Spelling, Meant, OneChar, UnescapedFrom;
    if ts == [] {
      assert "" + tail == tail;
      assert "" + UnescapedFrom(s, p, q) == UnescapedFrom(s, p, q);
    } else {
      var e := Spelling(ts[0]);
      assert SpellingAll(ts) + tail == e + (SpellingAll(ts[1..]) + tail);
      SplitText(s, p, e, SpellingAll(ts[1..]) + tail);
      SpellingIsText(ts[0]);
      SpelledOne(s, p, q, ts[0]);
      UnescapeStep(s, p, q);
      SpelledFrom(s, p + |e|, q + 1, ts[1..], tail);
      var rest := UnescapedFrom(s, |s| - |tail|, q + |ts|);
      assert [Meant(ts[0])] + (MeantAll(ts[1..]) + rest) == [Meant(ts[0])] + MeantAll(ts[1..]) + rest;
    }
  }

  lemma {:induction false} SpellingAllIsText(ts: seq<Spelled>)
    requires AllSpell(ts)
    ensures forall c <- SpellingAll(ts) :: 0 < c as int < 256
  {
    hide Spells, Spelling;
    if ts != [] {
      SpellingIsText(ts[0]);
      SpellingAllIsText(ts[1..]);
    }
  }

  /** However a text of octets is spelled, with percent signs and hex digits in
      either case or as it is, unescaping gives the octets, and a space for every
      plus sign. */
  lemma SpelledRead(ts: seq<Spelled>)
    requires AllSpell(ts)
    ensures (forall c <- SpellingAll(ts) :: 0 < c as int < 256) && Unescaped(SpellingAll(ts)) == MeantAll(ts)
  {
    var s := SpellingAll(ts);
    SpellingAllIsText(ts);
    assert s + "" == s;
    SpelledFrom(s, 0, 0, ts, "");
    UnescapeEnd(s, |ts|);
    assert MeantAll(ts) + "" == MeantAll(ts);
  }

  /** An escape the text ends in: a lone digit counts as the upper one, and a lone
      percent sign gives the character that still stands where it is written. */
  lemma CutEscape(ts: seq<Spelled>, k: nat)
    requires AllSpell(ts) && k < 16
    ensures var s := SpellingAll(ts) + ['%', "0123456789ABCDEF"[k]];
            (forall c <- s :: 0 < c as int < 256) && Unescaped(s) == MeantAll(ts) + [(16 * k) as char]
    ensures var s := SpellingAll(ts) + ['%', "0123456789abcdef"[k]];
            (forall c <- s :: 0 < c as int < 256) && Unescaped(s) == MeantAll(ts) + [(16 * k) as char]
    ensures var s := SpellingAll(ts) + "%";
            && (forall c <- s :: 0 < c as int < 256) && |ts| < |s|
            && Unescaped(s) == MeantAll(ts) + [s[|ts|]]
  {
    hide FromHex, UnescapedFrom, Spells, Spelling, Meant;
    SpellingAllIsText(ts);
    HexRead(k);
    CutTail(ts, ['%', "0123456789ABCDEF"[k]]);
    CutTail(ts, ['%', "0123456789abcdef"[k]]);
    CutTail(ts, "%");
  }

  lemma CutTail(ts: seq<Spelled>, tail: string)
    requires AllSpell(ts) && 0 < |tail| <= 2 && tail[0] == '%' && forall c <- tail :: 0 < c as int < 256
    ensures var s := SpellingAll(ts) + tail; var p := |s| - |tail|;
            && (forall c <- s :: 0 < c as int < 256) && |ts| <= p
            && s[p..] == tail && Unescaped(s) == MeantAll(ts) + [OneChar(s, p, |ts|).0]
  {
    hide FromHex, UnescapedFrom, Spells, Spelling, Meant;
    SpellingAllIsText(ts);
    var s: CString := SpellingAll(ts) + tail;
    var p := |s| - |tail|;
    SpelledFrom(s, 0, 0, ts, tail);
    assert s[p..] == tail && s[p] == s[p..][0];
    UnescapeStep(s, p, |ts|);
    assert OneChar(s, p, |ts|).1 == |s|;
    UnescapeEnd(s, |ts| + 1);
  }

  lemma {:induction false} EscapedIsText(v: CString)
    ensures forall e <- Escaped(v) :: e != '=' && e != '&' && 0 < e as int < 128
  {
    if v != "" {
      assert v[0] in v;
      EscapedCharSome(v[0]);
      EscapedIsText(v[1..]);
    }
  }

  /** Every text without a NUL comes back with spaces for its plus signs: whole
      exactly when it has none. */
  lemma UnescapeUndoesEscape(v: CString)
    ensures (forall e <- Escaped(v) :: 0 < e as int < 256) && Unescaped(Escaped(v)) == PlusAsSpace(v)
    ensures Unescaped(Escaped(v)) == v <==> '+' !in v
  {
    EscapedIsText(v);
    UnescapeEscapedFrom(Escaped(v), 0, 0, v);
    if '+' in v {
      var i :| 0 <= i < |v| && v[i] == '+';
      assert PlusAsSpace(v)[i] == ' ';
    }
  }
}
