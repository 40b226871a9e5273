/** The path sanitiser of the web server: three passes over one buffer, each
    with a read and a write pointer, the last one backtracking. */
module Sanitise {
  import opened CText

  // ----- The three passes, as functions -----

  predicate DoubleSlash(s: string, i: nat) { CharAt(s, i) == '/' && CharAt(s, i + 1) == '/' }

  predicate SlashDot(s: string, i: nat) {
    CharAt(s, i) == '/' && CharAt(s, i + 1) == '.' && CharAt(s, i + 2) == '/'
  }

  predicate SlashDotDot(s: string, i: nat) {
    CharAt(s, i) == '/' && CharAt(s, i + 1) == '.' && CharAt(s, i + 2) == '.' && CharAt(s, i + 3) == '/'
  }

  function Pass1(s: string): (text: string) {
    if s == "" then "" else if DoubleSlash(s, 0) then Pass1(s[1..]) else [s[0]] + Pass1(s[1..])
  }

  function Pass2(s: string): (text: string) {
    if s == "" then "" else if SlashDot(s, 0) then Pass2(s[2..]) else [s[0]] + Pass2(s[1..])
  }

  /** s is still to be read, out has been written, and last is where the write
      pointer goes back to. */
  function Pass3(s: string, out: string, last: nat): (text: string)
    requires last <= |out|
    decreases |s|
  {
    if s == "" then out
    else if SlashDotDot(s, 0) then Pass3(s[3..], out[..last], last)
    else Pass3(s[1..], out + [s[0]], if s[0] == '/' then |out| else last)
  }

  function Sanitised(s: string): (text: string) { Pass3(Pass2(Pass1(s)), "", 0) }

  // ----- The passes in place -----

  /** The buffer holds s and its terminator. */
  predicate Holds(url: array<char>, s: string)
    reads url
  {
    |s| < url.Length && url[..|s|] == s && url[|s|] == '\0' && '\0' !in s
  }

  lemma NextChars(url: array<char>, s: string, from: nat)
    requires |s| < url.Length && from <= |s| && '\0' !in s
    requires url[from..|s|] == s[from..] && url[|s|] == '\0'
    ensures url[from] == CharAt(s[from..], 0)
    ensures url[from] == '\0' <==> from == |s|
    ensures from < |s| ==> from + 1 < url.Length && url[from + 1] == CharAt(s[from..], 1)
    ensures from + 1 < |s| ==> from + 2 < url.Length && url[from + 2] == CharAt(s[from..], 2)
    ensures from + 2 < |s| ==> from + 3 < url.Length && url[from + 3] == CharAt(s[from..], 3)
    ensures from == |s| ==> CharAt(s[from..], 0) == '\0'
  {
    var t := url[from..|s|];
    assert forall k :: 0 <= k < |t| ==> t[k] == url[from + k];
    if from < |s| {
      assert s[from] in s;
    }
  }

  /** First pass: a slash before a slash is dropped. */
  method DropDoubleSlashes(url: array<char>, ghost s: string)
    requires Holds(url, s)
    modifies url
    ensures Holds(url, Pass1(s))
  {
    hide Pass1;
    var from, to := 0, 0;
    ghost var n := |s|;
    ghost var done, rest: string := "", s;
    while url[from] != '\0'
      invariant to <= from <= n
      invariant url[from..n] == s[from..] == rest && url[n] == '\0' && url[..to] == done
      invariant Pass1(s) == done + Pass1(rest)
      decreases n - from
    {
      NextChars(url, s, from);
      Pass1Step(rest);
      if url[from] == '/' && url[from + 1] == '/' {
        from, rest := from + 1, rest[1..];
        continue;
      }
      CopyDown(url, s, from, to);
      Regroup(done, rest[0], Pass1(rest[1..]));
      done, rest := done + [rest[0]], rest[1..];
      to := to + 1;
      from := from + 1;
    }
    NextChars(url, s, from);
    assert rest == "";
    Pass1Step(rest);
    Pass1Subset(s);
    url[to] := '\0';
    assert done + "" == done;
  }

  /** *to = *from; the part still to be read is not touched. */
  method CopyDown(url: array<char>, ghost s: string, from: nat, to: nat)
    requires to <= from < |s| < url.Length
    requires url[from..|s|] == s[from..] && url[|s|] == '\0'
    modifies url
    ensures url[..to + 1] == old(url[..to]) + [s[from]]
    ensures url[from + 1..|s|] == s[from + 1..] == s[from..][1..] && url[|s|] == '\0'
  {
    assert url[from..|s|][0] == s[from..][0];
    assert url[from + 1..|s|] == url[from..|s|][1..] == s[from..][1..];
    url[to] := url[from];
    assert url[..to + 1] == url[..to] + [url[to]];
  }

  lemma Pass1Step(s: string)
    ensures s == "" ==> Pass1(s) == ""
    ensures s != "" ==> Pass1(s) == if DoubleSlash(s, 0) then Pass1(s[1..]) else [s[0]] + Pass1(s[1..])
  {
  }

  lemma Pass2Step(s: string)
    ensures s == "" ==> Pass2(s) == ""
    ensures s != "" ==> Pass2(s) == if SlashDot(s, 0) then Pass2(s[2..]) else [s[0]] + Pass2(s[1..])
  {
  }

  lemma {:induction false} Pass1Subset(s: string)
    ensures forall c <- Pass1(s) :: c in s
  {
    if s != "" { Pass1Subset(s[1..]); }
  }

  lemma {:induction false} Pass2Subset(s: string)
    ensures forall c <- Pass2(s) :: c in s
    decreases |s|
  {
    if s != "" {
      if SlashDot(s, 0) { Pass2Subset(s[2..]); } else { Pass2Subset(s[1..]); }
    }
  }

  lemma {:induction false} Pass3Subset(s: string, out: string, last: nat)
    requires last <= |out|
    ensures forall c <- Pass3(s, out, last) :: c in s || c in out
    decreases |s|
  {
    if s == "" {
    } else if SlashDotDot(s, 0) {
      Pass3Subset(s[3..], out[..last], last);
    } else {
      Pass3Subset(s[1..], out + [s[0]], if s[0] == '/' then |out| else last);
    }
  }

  /** Second pass: "/." before a slash is dropped. */
  method DropSlashDots(url: array<char>, ghost s: string)
    requires Holds(url, s)
    modifies url
    ensures Holds(url, Pass2(s))
  {
    hide Pass2;
    var from, to := 0, 0;
    ghost var n := |s|;
    ghost var done, rest: string := "", s;
    while url[from] != '\0'
      invariant to <= from <= n
      invariant url[from..n] == s[from..] == rest && url[n] == '\0' && url[..to] == done
      invariant Pass2(s) == done + Pass2(rest)
      decreases n - from
    {
      NextChars(url, s, from);
      Pass2Step(rest);
      if url[from] == '/' && url[from + 1] == '.' && url[from + 2] == '/' {
        from, rest := from + 2, rest[2..];
        continue;
      }
      CopyDown(url, s, from, to);
      Regroup(done, rest[0], Pass2(rest[1..]));
      done, rest := done + [rest[0]], rest[1..];
      to := to + 1;
      from := from + 1;
    }
    NextChars(url, s, from);
    assert rest == "";
    Pass2Step(rest);
    Pass2Subset(s);
    url[to] := '\0';
    assert done + "" == done;
  }

  /** Third pass: at "/../" the write pointer goes back to the last slash that
      was copied while reading. */
  method BacktrackDotDots(url: array<char>, ghost s: string)
    requires Holds(url, s)
    modifies url
    ensures Holds(url, Pass3(s, "", 0))
  {
    var from, to, last := 0, 0, 0;
    ghost var n := |s|;
    Pass3Subset(s, "", 0);
    while url[from] != '\0'
      invariant last <= to <= from <= n
      invariant url[from..n] == s[from..] && url[n] == '\0'
      invariant Pass3(s[from..], url[..to], last) == Pass3(s, "", 0)
      decreases n - from
    {
      NextChars(url, s, from);
      assert s[from..][1..] == s[from + 1..];
      if url[from] == '/' && url[from + 1] == '.' && url[from + 2] == '.' && url[from + 3] == '/' {
        assert s[from..][3..] == s[from + 3..] && url[..to][..last] == url[..last];
        to := last;
        from := from + 3;
        continue;
      }
      if url[from] == '/' {
        last := to;
      }
      CopyDown(url, s, from, to);
      to := to + 1;
      from := from + 1;
    }
    NextChars(url, s, from);
    assert s[n..] == "";
    url[to] := '\0';
  }

  /** _httpd_sanitiseUrl */
  method SanitiseUrl(url: array<char>, ghost s: string)
    requires Holds(url, s)
    modifies url
    ensures Holds(url, Sanitised(s))
  {
    DropDoubleSlashes(url, s);
    DropSlashDots(url, Pass1(s));
    BacktrackDotDots(url, Pass2(Pass1(s)));
  }

  // ----- What is left in the path -----

  predicate NoDoubleSlash(s: string) { forall i :: 0 <= i < |s| ==> !DoubleSlash(s, i) }
  predicate NoSlashDot(s: string) { forall i :: 0 <= i < |s| ==> !SlashDot(s, i) }
  predicate NoSlashDotDot(s: string) { forall i :: 0 <= i < |s| ==> !SlashDotDot(s, i) }

  lemma ConsHits(c: char, t: string)
    ensures var s := [c] + t;
            && (forall i :: 0 < i < |s| ==> DoubleSlash(s, i) == DoubleSlash(t, i - 1))
            && (forall i :: 0 < i < |s| ==> SlashDot(s, i) == SlashDot(t, i - 1))
            && DoubleSlash(s, 0) == (c == '/' && CharAt(t, 0) == '/')
            && SlashDot(s, 0) == (c == '/' && CharAt(t, 0) == '.' && CharAt(t, 1) == '/')
  {
    assert forall k: nat {:trigger CharAt([c] + t, k)} :: k > 0 ==> CharAt([c] + t, k) == CharAt(t, k - 1);
  }

  lemma {:induction false} Pass1Clean(s: string)
    ensures NoDoubleSlash(Pass1(s)) && CharAt(Pass1(s), 0) == CharAt(s, 0)
  {
    if s != "" {
      Pass1Clean(s[1..]);
      if !DoubleSlash(s, 0) {
        ConsHits(s[0], Pass1(s[1..]));
      }
    }
  }

  /** The second pass leaves no "/./" and brings back no "//". */
  lemma {:induction false} Pass2Clean(s: string)
    requires NoDoubleSlash(s)
    ensures NoSlashDot(Pass2(s)) && NoDoubleSlash(Pass2(s))
    ensures CharAt(Pass2(s), 0) == CharAt(s, 0)
    decreases |s|
  {
    if s != "" {
      Pass2Head(s);
      if SlashDot(s, 0) {
        SuffixHits(s, 2);
        Pass2Clean(s[2..]);
      } else {
        SuffixHits(s, 1);
        Pass2Clean(s[1..]);
        ConsHits(s[0], Pass2(s[1..]));
        assert !DoubleSlash(s, 0) && CharAt(s[1..], 0) == CharAt(s, 1);
        if s[0] == '/' && CharAt(s, 1) == '.' {
          Pass2Head(s[1..]);
          assert !SlashDot(s[1..], 0);
          assert Pass2(s[1..]) == ['.'] + Pass2(s[1..][1..]);
          Pass2Head(s[1..][1..]);
          assert CharAt(Pass2(s[1..]), 1) == CharAt(s[1..][1..], 0) == CharAt(s, 2);
        }
      }
    }
  }

  lemma {:induction false} Pass2Head(s: string)
    ensures CharAt(Pass2(s), 0) == CharAt(s, 0)
    decreases |s|
  {
    if s != "" && SlashDot(s, 0) { Pass2Head(s[2..]); }
  }

  lemma SuffixHits(s: string, k: nat)
    requires k <= |s|
    ensures NoDoubleSlash(s) ==> NoDoubleSlash(s[k..])
    ensures NoSlashDot(s) ==> NoSlashDot(s[k..])
    ensures NoSlashDotDot(s) ==> NoSlashDotDot(s[k..])
  {
    assert forall i: nat {:trigger CharAt(s[k..], i)} :: CharAt(s[k..], i) == CharAt(s, k + i);
    if NoDoubleSlash(s) {
      forall i | 0 <= i < |s[k..]| ensures !DoubleSlash(s[k..], i) { assert !DoubleSlash(s, k + i); }
    }
    if NoSlashDot(s) {
      forall i | 0 <= i < |s[k..]| ensures !SlashDot(s[k..], i) { assert !SlashDot(s, k + i); }
    }
    if NoSlashDotDot(s) {
      forall i | 0 <= i < |s[k..]| ensures !SlashDotDot(s[k..], i) { assert !SlashDotDot(s, k + i); }
    }
  }

  /** What holds of the path written so far followed by the path still to be
      read: the first two passes' work is intact, no "/../" starts in the
      written part, and the place to go back to is the start or a slash. */
  predicate Tidy(s: string, out: string, last: nat) {
    && last <= |out|
    && NoDoubleSlash(out + s) && NoSlashDot(out + s)
    && (forall i :: 0 <= i < |out| ==> !SlashDotDot(out + s, i))
    && (last == 0 || CharAt(out + s, last) == '/')
  }

  lemma BacktrackTidy(s: string, out: string, last: nat)
    requires Tidy(s, out, last) && s != "" && SlashDotDot(s, 0)
    ensures Tidy(s[3..], out[..last], last)
  {
    var before, after := out + s, out[..last] + s[3..];
    assert s[0] == '/' && s[1] == '.' && s[2] == '.' && s[3] == '/';
    assert forall i: nat {:trigger CharAt(after, i)} :: i < last ==> CharAt(after, i) == CharAt(before, i);
    assert forall i: nat {:trigger CharAt(after, i)} :: i >= last ==> CharAt(after, i) == CharAt(s, i - last + 3);
    assert forall i: nat {:trigger CharAt(s, i)} :: CharAt(s, i) == CharAt(before, |out| + i);
    assert CharAt(after, last) == '/';
    forall i | 0 <= i < |after|
      ensures !DoubleSlash(after, i) && !SlashDot(after, i) && (i < last ==> !SlashDotDot(after, i))
    {
      if i < last {
        assert !DoubleSlash(before, i) && !SlashDot(before, i) && !SlashDotDot(before, i);
        assert !DoubleSlash(before, last - 1);
      } else {
        assert !DoubleSlash(before, |out| + (i - last + 3)) && !SlashDot(before, |out| + (i - last + 3));
      }
    }
  }

  lemma CopyTidy(s: string, out: string, last: nat)
    requires Tidy(s, out, last) && s != "" && !SlashDotDot(s, 0)
    ensures Tidy(s[1..], out + [s[0]], if s[0] == '/' then |out| else last)
  {
    var whole := out + s;
    assert out + [s[0]] + s[1..] == whole;
    assert forall i: nat {:trigger CharAt(s, i)} :: CharAt(s, i) == CharAt(whole, |out| + i);
    assert !SlashDotDot(whole, |out|);
  }

  lemma {:induction false} Pass3Clean(s: string, out: string, last: nat)
    requires Tidy(s, out, last)
    ensures var r := Pass3(s, out, last); NoDoubleSlash(r) && NoSlashDot(r) && NoSlashDotDot(r)
    decreases |s|
  {
    if s == "" {
      assert out + s == out;
    } else if SlashDotDot(s, 0) {
      BacktrackTidy(s, out, last);
      Pass3Clean(s[3..], out[..last], last);
    } else {
      CopyTidy(s, out, last);
      Pass3Clean(s[1..], out + [s[0]], if s[0] == '/' then |out| else last);
    }
  }

  /** For every path: none of "//", "/./" and "/../" is left. */
  lemma SanitisedIsClean(s: string)
    ensures var r := Sanitised(s); NoDoubleSlash(r) && NoSlashDot(r) && NoSlashDotDot(r)
  {
    var t := Pass2(Pass1(s));
    Pass1Clean(s);
    Pass2Clean(Pass1(s));
    assert "" + t == t;
    Pass3Clean(t, "", 0);
  }

  /** A path that starts with a slash still does. */
  lemma LeadingSlashSurvives(s: string)
    requires s != "" && s[0] == '/'
    ensures Sanitised(s) != "" && Sanitised(s)[0] == '/'
  {
    Pass1Clean(s);
    Pass2Clean(Pass1(s));
    Pass3Slash(Pass2(Pass1(s)), "", 0);
  }

  lemma {:induction false} Pass3Slash(s: string, out: string, last: nat)
    requires last <= |out| && CharAt(out + s, 0) == '/'
    ensures CharAt(Pass3(s, out, last), 0) == '/'
    decreases |s|
  {
    if s == "" {
      assert out + s == out;
    } else if SlashDotDot(s, 0) {
      Pass3Slash(s[3..], out[..last], last);
    } else {
      assert out + [s[0]] + s[1..] == out + s;
      Pass3Slash(s[1..], out + [s[0]], if s[0] == '/' then |out| else last);
    }
  }

  lemma {:induction false} CleanStays(s: string)
    ensures NoDoubleSlash(s) ==> Pass1(s) == s
    ensures NoSlashDot(s) ==> Pass2(s) == s
  {
    if s != "" {
      SuffixHits(s, 1);
      CleanStays(s[1..]);
    }
  }

  lemma {:induction false} CleanStays3(s: string, out: string, last: nat)
    requires NoSlashDotDot(s) && last <= |out|
    ensures Pass3(s, out, last) == out + s
  {
    if s == "" {
      assert out + s == out;
    } else {
      assert !SlashDotDot(s, 0);
      SuffixHits(s, 1);
      CleanStays3(s[1..], out + [s[0]], if s[0] == '/' then |out| else last);
      assert out + [s[0]] + s[1..] == out + s;
    }
  }

  /** Sanitising twice is sanitising once. */
  lemma SanitisedTwice(s: string)
    ensures Sanitised(Sanitised(s)) == Sanitised(s)
  {
    var r := Sanitised(s);
    SanitisedIsClean(s);
    CleanStays(r);
    CleanStays3(r, "", 0);
    assert "" + r == r;
  }
}
