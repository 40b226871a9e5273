/** Query strings: pairs split, unescaped in place and added to the request. */
module Query {
  import opened CText
  import opened UrlText
  import opened Variables

  // ----- What a query stores -----

  /** What follows the last equals sign. */
  function AfterLast(s: string): (text: string) {
    if Find(s, '=') < |s| then AfterLast(s[1..]) else s
  }

  lemma SliceAgain(s: string, k: nat)
    requires 0 < k <= |s|
    ensures s[1..][k - 1..] == s[k..]
  {
  }

  lemma {:induction false} AfterLastMeaning(s: string)
    ensures var r := AfterLast(s);
            && |r| <= |s| && s[|s| - |r|..] == r && Find(r, '=') == |r|
            && (Find(s, '=') < |s| ==> |r| < |s| && s[|s| - |r| - 1] == '=')
  {
    if Find(s, '=') < |s| {
      AfterLastMeaning(s[1..]);
      var r := AfterLast(s);
      SliceAgain(s, |s| - |r|);
    }
  }

  /** The name buffer after a piece: the name is written over what was there,
      and terminated only by an equals sign. */
  function NameLeft(buf: string, p: string): (r: string)
    requires |p| <= |buf|
    ensures |r| == |buf|
  {
    NameUpTo(buf, p, Find(p, '='))
  }

  function NameUpTo(buf: string, p: string, n: nat): (r: string)
    requires n <= |p| <= |buf|
    ensures |r| == |buf|
  {
    if n < |p| then p[..n] + ['\0'] + buf[n + 1..] else p + buf[n..]
  }

  function AfterLastOf(p: CString): (r: CString)
    ensures r == AfterLast(p)
  {
    AfterLastMeaning(p);
    AfterLast(p)
  }

  /** What follows the last equals sign, unescaped, up to a NUL. */
  function ValueOf(p: CString): (text: string) {
    if Find(p, '=') < |p| then CStr(Unescaped(AfterLastOf(p))) else ""
  }

  /** Each piece up to an ampersand is stored; the last one only if it has an
      equals sign. */
  function Stored(s: CString, buf: string, vars: seq<Var>): (r: seq<Var>)
    requires |s| < |buf|
    decreases |s|
  {
    var e := Find(s, '&');
    var p := s[..e];
    var name := NameLeft(buf, p);
    if e == |s| then
      if Find(p, '=') < |p| then Added(vars, CStr(name), ValueOf(p)) else vars
    else
      Stored(s[e + 1..], name, Added(vars, CStr(name), ValueOf(p)))
  }

  function QueryStored(s: CString, vars: seq<Var>): (r: seq<Var>) { Stored(s, Zeroes(|s| + 1), vars) }

  // ----- The loop of _httpd_storeData -----

  datatype Val = NoVal | At(start: nat)

  function TmpVal(s: CString, cp: nat, val: Val): (text: string)
    requires cp <= |s| && (val.At? ==> val.start <= cp)
  {
    if val.At? then CStr(Unescaped(s[val.start..cp])) else ""
  }

  /** What the loop stores from cp on. */
  function Scan(s: CString, cp: nat, name: string, cp2: nat, val: Val, vars: seq<Var>): (r: seq<Var>)
    requires cp2 <= cp <= |s| < |name| && (val.At? ==> val.start <= cp)
    decreases |s| - cp
  {
    if cp == |s| then
      if val.At? then Added(vars, CStr(name), TmpVal(s, cp, val)) else vars
    else if s[cp] == '=' then Scan(s, cp + 1, name[cp2 := '\0'], cp2, At(cp + 1), vars)
    else if s[cp] == '&' then Scan(s, cp + 1, name, 0, NoVal, Added(vars, CStr(name), TmpVal(s, cp, val)))
    else if val.At? then Scan(s, cp + 1, name, cp2, val, vars)
    else Scan(s, cp + 1, name[cp2 := s[cp]], cp2 + 1, val, vars)
  }

  /** e is where the piece that i lies in ends. */
  predicate PieceEnd(s: string, i: nat, e: nat) {
    i <= e <= |s| && (e < |s| ==> s[e] == '&') && forall j :: i <= j < e ==> s[j] != '&'
  }

  lemma ScanUnfold(s: CString, cp: nat, name: string, cp2: nat, val: Val, vars: seq<Var>)
    requires cp2 <= cp <= |s| < |name| && (val.At? ==> val.start <= cp)
    ensures cp == |s| ==>
              Scan(s, cp, name, cp2, val, vars) == if val.At? then Added(vars, CStr(name), TmpVal(s, cp, val)) else vars
    ensures cp < |s| && s[cp] == '='
            ==> Scan(s, cp, name, cp2, val, vars) == Scan(s, cp + 1, name[cp2 := '\0'], cp2, At(cp + 1), vars)
    ensures cp < |s| && s[cp] == '&' ==>
              Scan(s, cp, name, cp2, val, vars)
                == Scan(s, cp + 1, name, 0, NoVal, Added(vars, CStr(name), TmpVal(s, cp, val)))
    ensures cp < |s| && s[cp] != '=' && s[cp] != '&' ==>
              Scan(s, cp, name, cp2, val, vars)
              == if val.At? then Scan(s, cp + 1, name, cp2, val, vars)
                else Scan(s, cp + 1, name[cp2 := s[cp]], cp2 + 1, val, vars)
  {
    hide Added, CStr, TmpVal;
  }

  lemma {:induction false} AfterLastCut(s: string, k: nat)
    requires k < |s| && s[k] == '='
    ensures AfterLast(s) == AfterLast(s[k + 1..])
  {
    if k > 0 {
      assert s[1..][k - 1] == '=' && s[1..][k..] == s[k + 1..];
      AfterLastCut(s[1..], k - 1);
    }
  }

  lemma {:induction false} ScanValue(s: CString, i: nat, name: string, cp2: nat, v: nat, vars: seq<Var>, e: nat)
    requires cp2 <= i <= |s| < |name| && v <= i && name[cp2] == '\0'
    requires PieceEnd(s, i, e) && forall j :: v <= j < i ==> s[j] != '='
    ensures var w := e - |AfterLast(s[v..e])|;
            v <= w <= e && Scan(s, i, name, cp2, At(v), vars) == Scan(s, e, name, cp2, At(w), vars)
    decreases e - i
  {
    hide AfterLast, Added, CStr, Unescaped, Scan, Find;
    ScanUnfold(s, i, name, cp2, At(v), vars);
    if i == e {
      AfterLastNone(s[v..e]);
    } else if s[i] == '=' {
      assert name[cp2 := '\0'] == name;
      AfterLastCut(s[v..e], i - v);
      assert s[v..e][i - v + 1..] == s[i + 1..e];
      ScanValue(s, i + 1, name, cp2, i + 1, vars, e);
    } else {
      ScanValue(s, i + 1, name, cp2, v, vars, e);
    }
  }

  lemma AfterLastNone(s: string)
    requires forall j :: 0 <= j < |s| ==> s[j] != '='
    ensures AfterLast(s) == s
  {
  }

  lemma NameWritten(buf: string, p: string, k: nat)
    requires |p| <= |buf| && k == Find(p, '=')
    ensures k < |p| ==> NameLeft(buf, p) == p[..k] + ['\0'] + buf[k + 1..]
    ensures k == |p| ==> NameLeft(buf, p) == p + buf[k..]
  {
    hide Find;
    var n := Find(p, '=');
    assert NameLeft(buf, p) == NameUpTo(buf, p, n);
  }

  lemma NameGrows(s: string, b: nat, i: nat, buf: string)
    requires b <= i < |s| < |buf|
    ensures (s[b..i] + buf[i - b..])[i - b := s[i]] == s[b..i + 1] + buf[i + 1 - b..]
  {
  }

  /** k is where the first equals sign of the piece is, or its end. */
  lemma NameEnds(s: string, b: nat, k: nat, e: nat, buf: string)
    requires b <= k <= e <= |s| < |buf|
    requires (k < e ==> s[k] == '=') && forall j :: b <= j < k ==> s[j] != '='
    ensures Find(s[b..e], '=') == k - b
    ensures NameLeft(buf, s[b..e])
         == if k < e then (s[b..k] + buf[k - b..])[k - b := '\0'] else s[b..k] + buf[k - b..]
  {
    hide Find, NameLeft;
    FindIs(s[b..e], '=', k - b);
    NameWritten(buf, s[b..e], k - b);
  }

  lemma ScanNameEnds(s: CString, i: nat, buf: string, cp2: nat, vars: seq<Var>, e: nat, name: string)
    requires cp2 <= i <= e <= |s| < |buf| && (i < e ==> s[i] == '=')
    requires name == if i < e then buf[cp2 := '\0'] else buf
    ensures Scan(s, i, buf, cp2, NoVal, vars)
         == if i == e then Scan(s, e, name, cp2, NoVal, vars) else Scan(s, i + 1, name, cp2, At(i + 1), vars)
  {
    hide Added, CStr, Scan;
    ScanUnfold(s, i, buf, cp2, NoVal, vars);
  }

  lemma {:induction false} ScanName(s: CString, b: nat, i: nat, buf: string, vars: seq<Var>, e: nat)
    requires b <= i <= |s| < |buf| && PieceEnd(s, b, e) && i <= e
    requires forall j :: b <= j < i ==> s[j] != '='
    ensures var k := b + Find(s[b..e], '='); var name := NameLeft(buf, s[b..e]);
            k <= e && Scan(s, i, s[b..i] + buf[i - b..], i - b, NoVal, vars)
                   == if k == e then Scan(s, e, name, e - b, NoVal, vars)
                     else Scan(s, k + 1, name, k - b, At(k + 1), vars)
    decreases e - i
  {
    hide Added, CStr, Find, Scan, NameLeft;
    if i == e || s[i] == '=' {
      NameEnds(s, b, i, e, buf);
      ScanNameEnds(s, i, s[b..i] + buf[i - b..], i - b, vars, e, NameLeft(buf, s[b..e]));
    } else {
      ScanUnfold(s, i, s[b..i] + buf[i - b..], i - b, NoVal, vars);
      NameGrows(s, b, i, buf);
      ScanName(s, b, i + 1, buf, vars, e);
    }
  }

  lemma StoredUnfold(s: CString, buf: string, vars: seq<Var>)
    requires |s| < |buf|
    ensures var e := Find(s, '&'); var p := s[..e]; var name := NameLeft(buf, p);
            Stored(s, buf, vars)
            == if e == |s| then if Find(p, '=') < |p| then Added(vars, CStr(name), ValueOf(p)) else vars
               else Stored(s[e + 1..], name, Added(vars, CStr(name), ValueOf(p)))
  {
    hide Added, CStr, Find, ValueOf, NameLeft;
  }

  lemma ScanPiece(s: CString, b: nat, buf: string, vars: seq<Var>, e: nat) returns (cp2: nat, val: Val)
    requires b <= |s| < |buf| && PieceEnd(s, b, e)
    ensures cp2 <= e && (val.At? ==> val.start <= e)
    ensures Scan(s, b, buf, 0, NoVal, vars) == Scan(s, e, NameLeft(buf, s[b..e]), cp2, val, vars)
    ensures TmpVal(s, e, val) == ValueOf(s[b..e]) && (val.At? <==> Find(s[b..e], '=') < e - b)
  {
    hide Added, CStr, Find, AfterLast, NameLeft, Unescaped, Scan, TmpVal, ValueOf;
    var p := s[b..e];
    var name := NameLeft(buf, p);
    assert s[b..b] + buf[b - b..] == buf;
    ScanName(s, b, b, buf, vars, e);
    var k := b + Find(p, '=');
    if k < e {
      NameTerminated(buf, p);
      ScanValue(s, k + 1, name, k - b, k + 1, vars, e);
      AfterLastCut(p, k - b);
      assert p[k - b + 1..] == s[k + 1..e];
      AfterLastMeaning(p);
      cp2, val := k - b, At(e - |AfterLast(p)|);
      assert p[val.start - b..] == s[val.start..e];
      TmpValIs(s, b, e, val);
    } else {
      cp2, val := e - b, NoVal;
      TmpValIs(s, b, e, val);
    }
  }

  lemma TmpValIs(s: CString, b: nat, e: nat, val: Val)
    requires b <= e <= |s|
    requires if Find(s[b..e], '=') < e - b
             then val.At? && val.start <= e && s[val.start..e] == AfterLast(s[b..e])
             else val.NoVal?
    ensures TmpVal(s, e, val) == ValueOf(s[b..e])
  {
    hide AfterLast, Find, CStr, Unescaped;
  }

  /** The loop stores what the pieces say. */
  lemma {:induction false} ScanStores(s: CString, b: nat, buf: string, vars: seq<Var>)
    requires b <= |s| < |buf|
    ensures Scan(s, b, buf, 0, NoVal, vars) == Stored(s[b..], buf, vars)
    decreases |s| - b
  {
    hide Added, CStr, Find, NameLeft, Scan, TmpVal, ValueOf, Stored;
    var rest := s[b..];
    StoredUnfold(rest, buf, vars);
    var d := Find(rest, '&');
    var e := b + d;
    assert rest[..d] == s[b..e];
    assert forall j :: b <= j < e ==> s[j] == rest[j - b];
    var cp2, val := ScanPiece(s, b, buf, vars, e);
    var name := NameLeft(buf, s[b..e]);
    ScanUnfold(s, e, name, cp2, val, vars);
    if e < |s| {
      assert rest[d + 1..] == s[e + 1..];
      ScanStores(s, e + 1, name, Added(vars, CStr(name), ValueOf(s[b..e])));
    }
  }

  lemma NameTerminated(buf: string, p: string)
    requires |p| <= |buf|
    ensures var n := Find(p, '='); n < |p| ==> NameLeft(buf, p)[n] == '\0'
  {
  }

  lemma CStrStops(s: string, n: nat)
    requires n < |s| && forall j :: 0 <= j < n ==> s[j] != '\0'
    ensures CStr(s) == s[..n] <==> s[n] == '\0'
  {
    if s[n] == '\0' {
      assert s == s[..n] + s[n..];
      CStrOf(s[..n], s[n..]);
    }
  }

  lemma NameExactly(buf: string, p: CString)
    requires |p| < |buf|
    ensures var n := Find(p, '=');
            CStr(NameLeft(buf, p)) == p[..n] <==> n < |p| || buf[|p|] == '\0'
  {
    hide Find, CStr, NameLeft;
    NameChars(buf, p);
    CStrStops(NameLeft(buf, p), Find(p, '='));
  }

  lemma NameChars(buf: string, p: CString)
    requires |p| < |buf|
    ensures var n := Find(p, '='); var name := NameLeft(buf, p);
            && name[..n] == p[..n] && (forall j :: 0 <= j < n ==> name[j] != '\0')
            && name[n] == if n < |p| then '\0' else buf[n]
  {
    hide Find;
    var n := Find(p, '=');
    NameWritten(buf, p, n);
    forall j | 0 <= j < n
      ensures NameLeft(buf, p)[j] != '\0'
    {
      assert p[j] in p;
    }
  }

  // ----- Which names are the pieces' own -----

  /** The pieces between ampersands. */
  function Pieces(s: CString): (r: seq<CString>)
    ensures r != []
    decreases |s|
  {
    var e := Find(s, '&');
    if e == |s| then [s] else [s[..e]] + Pieces(s[e + 1..])
  }

  predicate HasEquals(p: string) { Find(p, '=') < |p| }

  function NameOf(p: string): (n: string) { p[..Find(p, '=')] }

  /** httpdAddVariable is called for every piece, but for the last one only if
      it has an equals sign. */
  predicate PassedOn(pieces: seq<CString>, i: nat)
    requires i < |pieces|
  {
    i < |pieces| - 1 || HasEquals(pieces[i])
  }

  /** The pair a piece states: its own name, and its value if it has one. */
  function OwnPairs(pieces: seq<CString>): (r: seq<(string, string)>)
  {
    if pieces == [] then []
    else
      (if PassedOn(pieces, 0) then [(NameOf(pieces[0]), ValueOf(pieces[0]))] else []) + OwnPairs(pieces[1..])
  }

  /** The pairs _httpd_storeData passes to httpdAddVariable. */
  function PassedPairs(s: CString, buf: string): (r: seq<(string, string)>)
    requires |s| < |buf|
    decreases |s|
  {
    var e := Find(s, '&');
    var p := s[..e];
    var name := NameLeft(buf, p);
    if e == |s| then if HasEquals(p) then [(CStr(name), ValueOf(p))] else []
    else [(CStr(name), ValueOf(p))] + PassedPairs(s[e + 1..], name)
  }

  /** The piece writes over, or ends a name at, this index of the name buffer. */
  predicate Reaches(p: string, m: nat) { |NameOf(p)| > m || (|NameOf(p)| == m && HasEquals(p)) }

  /** Among the first i pieces the latest that reaches m has a longer name: a
      piece of m characters without an equals sign then gets a longer name. */
  predicate Stale(pieces: seq<CString>, i: nat, m: nat)
    requires i <= |pieces|
  {
    exists j :: 0 <= j < i && |NameOf(pieces[j])| > m && forall k :: j < k < i ==> !Reaches(pieces[k], m)
  }

  /** No piece from i on that is passed on without an equals sign is stale. */
  predicate NamesOwnFrom(pieces: seq<CString>, i: nat) {
    forall k :: i <= k < |pieces| && PassedOn(pieces, k) && !HasEquals(pieces[k]) ==> !Stale(pieces, k, |pieces[k]|)
  }

  /** The buffer holds a character at exactly the stale lengths. */
  ghost predicate BufferSays(buf: string, pieces: seq<CString>, i: nat)
    requires i <= |pieces|
  {
    forall m :: 0 <= m < |buf| ==> (buf[m] != '\0' <==> Stale(pieces, i, m))
  }

  lemma StaleNext(pieces: seq<CString>, i: nat, m: nat)
    requires i < |pieces|
    ensures Stale(pieces, i + 1, m)
       <==> |NameOf(pieces[i])| > m || (!Reaches(pieces[i], m) && Stale(pieces, i, m))
  {
    hide NameOf, HasEquals;
    if Stale(pieces, i + 1, m) {
      var j :| 0 <= j < i + 1 && |NameOf(pieces[j])| > m && forall k :: j < k < i + 1 ==> !Reaches(pieces[k], m);
      if j < i {
        assert !Reaches(pieces[i], m);
      }
    }
  }

  lemma NameLeftAt(buf: string, p: CString, m: nat)
    requires |p| < |buf| && m < |buf|
    ensures NameLeft(buf, p)[m] != '\0' <==> |NameOf(p)| > m || (!Reaches(p, m) && buf[m] != '\0')
  {
    hide Find;
    var n := Find(p, '=');
    NameWritten(buf, p, n);
    if m < n {
      assert p[m] in p;
    }
  }

  lemma BufferNext(buf: string, pieces: seq<CString>, i: nat)
    requires i < |pieces| && |pieces[i]| < |buf|
    requires BufferSays(buf, pieces, i)
    ensures BufferSays(NameLeft(buf, pieces[i]), pieces, i + 1)
  {
    hide NameLeft, Stale, Reaches, NameOf;
    var r := NameLeft(buf, pieces[i]);
    forall m | 0 <= m < |r|
      ensures r[m] != '\0' <==> Stale(pieces, i + 1, m)
    {
      NameLeftAt(buf, pieces[i], m);
      StaleNext(pieces, i, m);
    }
  }

  lemma PassedUnfold(s: CString, buf: string)
    requires |s| < |buf|
    ensures var e := Find(s, '&'); var p := s[..e]; var name := NameLeft(buf, p);
            && PassedPairs(s, buf)
               == (if e == |s| then if HasEquals(p) then [(CStr(name), ValueOf(p))] else []
                   else [(CStr(name), ValueOf(p))] + PassedPairs(s[e + 1..], name))
            && Pieces(s) == (if e == |s| then [s] else [p] + Pieces(s[e + 1..]))
  {
    hide Find, NameLeft, CStr, ValueOf, HasEquals;
  }

  lemma OwnUnfold(pieces: seq<CString>, i: nat)
    requires i < |pieces|
    ensures OwnPairs(pieces[i..])
         == (if PassedOn(pieces, i) then [(NameOf(pieces[i]), ValueOf(pieces[i]))] else []) + OwnPairs(pieces[i + 1..])
  {
    hide NameOf, ValueOf, HasEquals;
    assert pieces[i..][1..] == pieces[i + 1..];
  }

  lemma NameIsOwn(buf: string, pieces: seq<CString>, i: nat)
    requires i < |pieces| && |pieces[i]| < |buf| && BufferSays(buf, pieces, i)
    ensures CStr(NameLeft(buf, pieces[i])) == NameOf(pieces[i])
       <==> HasEquals(pieces[i]) || !Stale(pieces, i, |pieces[i]|)
  {
    hide Find, CStr, NameLeft, Stale;
    NameExactly(buf, pieces[i]);
  }

  lemma SameHeads<T>(a: T, b: T, s: seq<T>, t: seq<T>)
    ensures [a] + s == [b] + t <==> a == b && s == t
  {
    if [a] + s == [b] + t {
      assert ([a] + s)[0] == ([b] + t)[0] && ([a] + s)[1..] == ([b] + t)[1..];
    }
  }

  lemma {:induction false} PassedExactly(s: CString, buf: string, pieces: seq<CString>, i: nat)
    requires i < |pieces| && Pieces(s) == pieces[i..] && |s| < |buf| && BufferSays(buf, pieces, i)
    ensures PassedPairs(s, buf) == OwnPairs(pieces[i..]) <==> NamesOwnFrom(pieces, i)
    decreases |s|
  {
    hide Find, CStr, NameLeft, NameOf, ValueOf, HasEquals, Stale, BufferSays, PassedPairs, OwnPairs, Pieces;
    var e := Find(s, '&');
    var p := s[..e];
    PassedUnfold(s, buf);
    OwnUnfold(pieces, i);
    assert p == pieces[i..][0] == pieces[i] by {
      if e == |s| {
        assert s[..e] == s;
      }
    }
    NameIsOwn(buf, pieces, i);
    if e == |s| {
      assert |pieces[i..]| == 1;
      assert pieces[i + 1..] == [];
      NoOwnPairs();
    } else {
      var name := NameLeft(buf, p);
      assert pieces[i..][1..] == pieces[i + 1..] == Pieces(s[e + 1..]);
      BufferNext(buf, pieces, i);
      PassedExactly(s[e + 1..], name, pieces, i + 1);
      SameHeads((CStr(name), ValueOf(p)), (NameOf(p), ValueOf(p)),
                PassedPairs(s[e + 1..], name), OwnPairs(pieces[i + 1..]));
      assert NamesOwnFrom(pieces, i)
        <==> (HasEquals(p) || !Stale(pieces, i, |p|)) && NamesOwnFrom(pieces, i + 1);
    }
  }

  lemma NoOwnPairs()
    ensures OwnPairs([]) == []
  {
  }

  lemma {:induction false} StoredPassed(s: CString, buf: string, vars: seq<Var>)
    requires |s| < |buf|
    ensures Stored(s, buf, vars) == AddedAll(vars, PassedPairs(s, buf))
    decreases |s|
  {
    hide Find, CStr, NameLeft, ValueOf, Added, Stored, AddedAll, PassedPairs;
    var e := Find(s, '&');
    var p := s[..e];
    var name := NameLeft(buf, p);
    StoredUnfold(s, buf, vars);
    PassedUnfold(s, buf);
    var pairs := PassedPairs(s, buf);
    AllUnfold(vars, pairs, "");
    var next := Added(vars, CStr(name), ValueOf(p));
    if e < |s| {
      assert pairs[0] == (CStr(name), ValueOf(p)) && pairs[1..] == PassedPairs(s[e + 1..], name);
      StoredPassed(s[e + 1..], name, next);
    } else if HasEquals(p) {
      assert pairs[1..] == [];
      AllUnfold(next, [], "");
    }
  }

  /** For every query: what is stored is one addition for every pair passed on,
      and the pairs passed on are those the pieces state exactly when no piece
      that is passed on without an equals sign is stale. */
  lemma QueryExactly(s: CString, vars: seq<Var>)
    ensures var passed := PassedPairs(s, Zeroes(|s| + 1));
            && QueryStored(s, vars) == AddedAll(vars, passed)
            && (passed == OwnPairs(Pieces(s)) <==> NamesOwnFrom(Pieces(s), 0))
  {
    hide Pieces, PassedPairs, OwnPairs, Stored, AddedAll;
    var pieces := Pieces(s);
    assert pieces[0..] == pieces;
    StoredPassed(s, Zeroes(|s| + 1), vars);
    PassedExactly(s, Zeroes(|s| + 1), pieces, 0);
  }

  /** The second piece is stored under the name "xbc". */
  lemma StaleQuery()
    ensures QueryStored("abc=1&x&", []) == [Var("abc", ["1"]), Var("xbc", [""])]
    ensures Pieces("abc=1&x&") == ["abc=1", "x", ""] && !NamesOwnFrom(Pieces("abc=1&x&"), 0)
  {
    hide *;
    StaleStored(Zeroes(9));
    StalePieces(Zeroes(9));
    StaleSecond();
    QueryIs("abc=1&x&", []);
  }

  lemma QueryIs(s: CString, vars: seq<Var>)
    ensures QueryStored(s, vars) == Stored(s, Zeroes(|s| + 1), vars)
  {
    hide Stored;
  }

  lemma StaleStored(z: string)
    requires |z| == 9
    ensures Stored("abc=1&x&", z, []) == [Var("abc", ["1"]), Var("xbc", [""])]
  {
    hide Find, CStr, NameLeft, Stored, ValueOf, Added;
    var q, rest := "abc=1&x&", "xbc\0" + z[4..];
    FirstPiece(z);
    SecondPiece("abc\0" + z[4..]);
    FindIs("", '&', 0);
    FindIs("", '=', 0);
    StoredUnfold(q, z, []);
    assert q[6..] == "x&" && q[..5] == "abc=1";
    var vars := Added([], "abc", "1");
    StoredUnfold("x&", "abc\0" + z[4..], vars);
    assert "x&"[2..] == "" && "x&"[..1] == "x";
    StoredUnfold("", rest, Added(vars, "xbc", ""));
    TwoAdded();
  }

  lemma StalePieces(z: string)
    requires |z| == 9
    ensures Pieces("abc=1&x&") == ["abc=1", "x", ""]
  {
    hide Find, CStr, NameLeft, ValueOf, Pieces;
    var q := "abc=1&x&";
    FirstPiece(z);
    SecondPiece("abc\0" + z[4..]);
    FindIs("", '&', 0);
    assert q[6..] == "x&" && q[..5] == "abc=1";
    assert "x&"[2..] == "" && "x&"[..1] == "x";
    PassedUnfold(q, z);
    PassedUnfold("x&", z);
    PassedUnfold("", z);
  }

  lemma FirstPiece(z: string)
    requires |z| == 9
    ensures var name := NameLeft(z, "abc=1");
            && Find("abc=1&x&", '&') == 5 && Find("abc=1", '=') == 3
            && name == "abc\0" + z[4..] && CStr(name) == "abc" && ValueOf("abc=1") == "1"
  {
    hide Find, Unescaped;
    FindIs("abc=1&x&", '&', 5);
    FindIs("abc=1", '=', 3);
    assert "abc=1"[..3] == "abc";
    CStrOf("abc", "\0" + z[4..]);
    assert "abc\0" + z[4..] == "abc" + ("\0" + z[4..]);
    AfterLastCut("abc=1", 3);
    assert "abc=1"[4..] == "1";
    FindIs("1", '=', 1);
    AfterLastNone("1");
    OneUnescaped();
    CStrOf("1", "");
    assert "1" + "" == "1";
  }

  lemma OneUnescaped()
    ensures Unescaped("1") == "1"
  {
    assert OneChar("1", 0, 0) == ('1', 1);
    assert UnescapedFrom("1", 0, 0) == ['1'] + UnescapedFrom("1", 1, 1);
  }

  lemma SecondPiece(buf: string)
    requires |buf| == 9 && buf[..4] == "abc\0"
    ensures var name := NameLeft(buf, "x");
            && Find("x&", '&') == 1 && Find("x", '=') == 1
            && name == "xbc\0" + buf[4..] && CStr(name) == "xbc" && ValueOf("x") == ""
  {
    hide Find, Unescaped, AfterLast;
    FindIs("x&", '&', 1);
    FindIs("x", '=', 1);
    assert buf == buf[..4] + buf[4..];
    assert "x"[..1] == "x";
    assert "x" + buf[1..] == "xbc\0" + buf[4..];
    CStrOf("xbc", "\0" + buf[4..]);
    assert "xbc\0" + buf[4..] == "xbc" + ("\0" + buf[4..]);
  }

  lemma TwoAdded()
    ensures Added(Added([], "abc", "1"), "xbc", "") == [Var("abc", ["1"]), Var("xbc", [""])]
  {
    assert StripBlanks("abc") == "abc" && StripBlanks("xbc") == "xbc";
    IndexOfIs([], "abc", 0);
    assert "abc"[0] != "xbc"[0];
    IndexOfIs([Var("abc", ["1"])], "xbc", 1);
  }

  lemma StaleSecond()
    ensures !NamesOwnFrom(["abc=1", "x", ""], 0)
  {
    hide Find;
    FindIs("abc=1", '=', 3);
    FindIs("x", '=', 1);
    var pieces: seq<CString> := ["abc=1", "x", ""];
    assert |NameOf(pieces[0])| == 3;
    assert Stale(pieces, 1, 1);
    assert PassedOn(pieces, 1);
  }

  // ----- Storing a joined list of pairs -----

  predicate IsName(n: string) {
    forall c <- n :: 0 < c as int < 256 && c != '=' && c != '&'
  }

  predicate Sendable(pairs: seq<(string, string)>) {
    forall p <- pairs :: IsName(p.0) && forall c <- p.1 :: 0 < c as int < 256
  }

  function Piece(name: string, value: CString): (r: string)
    ensures IsName(name) ==> forall c <- r :: 0 < c as int < 256
  {
    EscapedIsText(value);
    name + "=" + Escaped(value)
  }

  function JoinQuery(pairs: seq<(string, string)>): (r: CString)
    requires Sendable(pairs)
  {
    if pairs == [] then ""
    else
      var p := Piece(pairs[0].0, pairs[0].1);
      if |pairs| == 1 then p else p + "&" + JoinQuery(pairs[1..])
  }

  /** The pairs as they are read back. */
  function Spaced(pairs: seq<(string, string)>): (r: seq<(string, string)>)
    ensures |r| == |pairs|
  {
    if pairs == [] then [] else [(pairs[0].0, PlusAsSpace(pairs[0].1))] + Spaced(pairs[1..])
  }

  lemma FindName(name: string, rest: string)
    requires IsName(name)
    ensures Find(name + "=" + rest, '=') == |name|
  {
    var s := name + "=" + rest;
    forall j | 0 <= j < |name|
      ensures s[j] != '='
    {
      assert s[j] == name[j] && name[j] in name;
    }
    FindIs(s, '=', |name|);
  }

  lemma PieceStored(name: string, value: CString, buf: string)
    requires IsName(name) && |Piece(name, value)| < |buf|
    ensures var p := Piece(name, value);
            && Find(p, '&') == |p| && Find(p, '=') < |p|
            && CStr(NameLeft(buf, p)) == name && ValueOf(p) == PlusAsSpace(value)
  {
    hide Find, NameLeft, CStr, AfterLast, Escaped, Unescaped;
    var p, e := Piece(name, value), Escaped(value);
    EscapedIsText(value);
    assert forall c <- p :: c != '&' by {
      assert forall c <- name :: c != '&';
    }
    FindNone(p, '&');
    FindName(name, e);
    assert p[..|name|] == name && p[|name| + 1..] == e;
    NameExactly(buf, p);
    AfterLastCut(p, |name|);
    FindNone(e, '=');
    AfterLastNone(e);
    UnescapeUndoesEscape(value);
    var read := PlusAsSpace(value);
    forall i | 0 <= i < |read|
      ensures read[i] != '\0'
    {
      assert value[i] in value;
    }
    assert read + "" == read;
    CStrOf(read, "");
  }

  lemma FindConcat(p: string, rest: string)
    requires Find(p, '&') == |p|
    ensures Find(p + "&" + rest, '&') == |p|
  {
    var s := p + "&" + rest;
    assert forall j :: 0 <= j < |p| ==> s[j] == p[j];
    FindIs(s, '&', |p|);
  }

  lemma {:induction false} JoinStored(pairs: seq<(string, string)>, buf: string, vars: seq<Var>)
    requires Sendable(pairs) && |JoinQuery(pairs)| < |buf|
    ensures Stored(JoinQuery(pairs), buf, vars) == AddedAll(vars, Spaced(pairs))
    decreases |pairs|
  {
    hide Added, AddedAll, Stored, Find, NameLeft, CStr, ValueOf, Piece;
    var q := JoinQuery(pairs);
    StoredUnfold(q, buf, vars);
    AllUnfold(vars, Spaced(pairs), "");
    if pairs == [] {
      assert Find("", '&') == 0 && Find("", '=') == 0;
    } else {
      var p := Piece(pairs[0].0, pairs[0].1);
      assert pairs[0] in pairs && IsName(pairs[0].0);
      PieceStored(pairs[0].0, pairs[0].1, buf);
      if |pairs| == 1 {
        assert q == p && p[..|p|] == p;
        AllUnfold(Added(vars, pairs[0].0, PlusAsSpace(pairs[0].1)), Spaced(pairs[1..]), "");
      } else {
        var rest := JoinQuery(pairs[1..]);
        FindConcat(p, rest);
        assert q[..|p|] == p && q[|p| + 1..] == rest;
        JoinStored(pairs[1..], NameLeft(buf, p), Added(vars, pairs[0].0, PlusAsSpace(pairs[0].1)));
      }
    }
  }

  /** Every list of pairs comes back: each name, less its leading blanks, has
      the values given for it in order, with spaces for their plus signs. */
  lemma QueryRoundTrip(pairs: seq<(string, string)>, vars: seq<Var>, name: string)
    requires Sendable(pairs) && DistinctNames(vars)
    ensures var r := QueryStored(JoinQuery(pairs), vars);
            && r == AddedAll(vars, Spaced(pairs)) && DistinctNames(r)
            && ValuesOf(r, name) == ValuesOf(vars, name) + GivenFor(Spaced(pairs), name)
  {
    JoinStored(pairs, Zeroes(|JoinQuery(pairs)| + 1), vars);
    AddedAllMeaning(vars, Spaced(pairs), name);
  }

  /** A last piece without an equals sign is dropped, whatever precedes it. */
  lemma {:induction false} LastPieceDropped(q: CString, p: CString, buf: string, vars: seq<Var>)
    requires IsName(p) && |q| + 1 + |p| < |buf|
    ensures (forall c <- q + "&" + p :: 0 < c as int < 256) && (forall c <- q + "&" :: 0 < c as int < 256)
    ensures Stored(q + "&" + p, buf, vars) == Stored(q + "&", buf, vars)
    decreases |q|
  {
    hide Added, Stored, Find, NameLeft, CStr, ValueOf;
    var s, t: string := q + "&" + p, q + "&";
    var e := Find(q, '&');
    assert forall j :: 0 <= j < |q| ==> s[j] == t[j] == q[j];
    FindIs(s, '&', e);
    FindIs(t, '&', e);
    assert s[..e] == t[..e];
    StoredUnfold(s, buf, vars);
    StoredUnfold(t, buf, vars);
    var name := NameLeft(buf, s[..e]);
    var next := Added(vars, CStr(name), ValueOf(s[..e]));
    if e < |q| {
      assert s[e + 1..] == q[e + 1..] + "&" + p && t[e + 1..] == q[e + 1..] + "&";
      LastPieceDropped(q[e + 1..], p, name, next);
    } else {
      assert s[e + 1..] == p && t[e + 1..] == "";
      FindNone(p, '&');
      FindNone(p, '=');
      FindIs("", '&', 0);
      FindIs("", '=', 0);
      StoredUnfold(p, name, next);
      StoredUnfold("", name, next);
    }
  }

  // ----- _httpd_storeData -----

  /** *cp = 0 */
  method EndText(query: array<char>, q: nat, cp: nat, ghost s: CString)
    requires Unread(query, 0, q, s) && q <= cp <= |s|
    modifies query
    ensures Unread(query, q, q, s[q..cp])
    ensures cp < |s| ==> Unread(query, 0, cp + 1, s)
  {
    query[cp] := '\0';
  }

  /** The unescaped text from start to cp. */
  method TakeValue(query: array<char>, start: nat, cp: nat, ghost s: CString) returns (tmpVal: string)
    requires Unread(query, 0, start, s) && start <= cp <= |s|
    modifies query
    ensures tmpVal == CStr(Unescaped(s[start..cp]))
    ensures cp < |s| ==> Unread(query, 0, cp + 1, s)
  {
    hide CStr, Unescaped;
    EndText(query, start, cp, s);
    ghost var u := Unescaped(s[start..cp]);
    Unescape(query, start, s[start..cp]);
    tmpVal := Text(query, start);
    assert query[start..] == u + query[start + |u|..] by {
      assert query[start..start + |u|] == u;
    }
    CStrCut(u, query[start + |u|..]);
  }

  /** Ends the text at cp and adds the unescaped value, or no value. */
  method EndPiece(query: array<char>, r: Request, name: string, val: Val, cp: nat, ghost s: CString,
                  ghost vars: seq<Var>)
    requires cp <= |s| && (val.At? ==> val.start <= cp)
    requires Unread(query, 0, if val.At? then val.start else cp, s)
    requires r.Valid() && r.Means(vars)
    modifies query, r, r.nodes
    ensures r.Valid() && r.Means(Added(vars, name, TmpVal(s, cp, val)))
    ensures fresh(r.nodes - old(r.nodes)) && old(r.nodes) <= r.nodes
    ensures cp < |s| ==> Unread(query, 0, cp + 1, s)
  {
    hide Unread, CStr, Unescaped, Added, StripBlanks, Request.Valid, Request.Means;
    var tmpVal := "";
    if val.At? {
      tmpVal := TakeValue(query, val.start, cp, s);
    } else {
      EndText(query, cp, cp, s);
    }
    r.AddVariable(name, tmpVal, vars);
  }

  lemma UnreadChar(query: array<char>, q: nat, cp: nat, s: CString)
    requires Unread(query, 0, q, s) && q <= cp <= |s|
    ensures cp < query.Length && (query[cp] == '\0' <==> cp == |s|) && (cp < |s| ==> query[cp] == s[cp])
  {
    TerminatorFirst(query, 0, q, cp, s);
  }

  lemma UnreadLater(query: array<char>, q: nat, cp: nat, s: CString)
    requires Unread(query, 0, q, s) && q <= cp <= |s|
    ensures Unread(query, 0, cp, s)
  {
  }

  /** _httpd_storeData */
  method StoreData(r: Request, query: array<char>, ghost s: CString, ghost vars: seq<Var>)
    requires Unread(query, 0, 0, s)
    requires r.Valid() && r.Means(vars)
    modifies query, r, r.nodes
    ensures r.Valid() && r.Means(QueryStored(s, vars))
  {
    hide *;
    var length := Length(query, s);
    var buf := new char[length + 1](i => '\0');
    var cp: nat, cp2: nat, val := 0, 0, NoVal;
    ghost var cur, zeroes := vars, buf[..];
    AllZero(zeroes, |s| + 1);
    UnreadChar(query, 0, 0, s);
    while query[cp] != '\0'
      invariant cp2 <= cp <= |s| && cp < query.Length && (val.At? ==> val.start <= cp)
      invariant buf.Length == |s| + 1 && fresh(buf)
      invariant query[cp] == '\0' <==> cp == |s|
      invariant Unread(query, 0, if val.At? then val.start else cp, s)
      invariant r.Valid() && r.Means(cur) && fresh(r.nodes - old(r.nodes))
      invariant Scan(s, cp, buf[..], cp2, val, cur) == Scan(s, 0, zeroes, 0, NoVal, vars)
      decreases |s| - cp
    {
      ScanUnfold(s, cp, buf[..], cp2, val, cur);
      UnreadChar(query, if val.At? then val.start else cp, cp, s);
      UnreadLater(query, if val.At? then val.start else cp, cp, s);
      UnreadLater(query, cp, cp + 1, s);
      ghost var name0 := buf[..];
      if query[cp] == '=' {
        cp := cp + 1;
        buf[cp2] := '\0';
        val := At(cp);
        assert buf[..] == name0[cp2 := '\0'];
      } else if query[cp] == '&' {
        var name := Text(buf, 0);
        assert buf[0..] == buf[..];
        EndPiece(query, r, name, val, cp, s, cur);
        cur := Added(cur, name, TmpVal(s, cp, val));
        cp := cp + 1;
        cp2 := 0;
        val := NoVal;
      } else if val.At? {
        cp := cp + 1;
      } else {
        buf[cp2] := query[cp];
        assert buf[..] == name0[cp2 := s[cp]];
        cp := cp + 1;
        cp2 := cp2 + 1;
      }
      UnreadChar(query, if val.At? then val.start else cp, cp, s);
    }
    ScanUnfold(s, cp, buf[..], cp2, val, cur);
    if val.At? {
      var name := Text(buf, 0);
      assert buf[0..] == buf[..];
      EndPiece(query, r, name, val, cp, s, cur);
    }
    LoopStores(s, zeroes, vars);
  }

  lemma AllZero(z: string, n: nat)
    requires |z| == n && forall i :: 0 <= i < n ==> z[i] == '\0'
    ensures z == Zeroes(n)
  {
  }

  lemma LoopStores(s: CString, zeroes: string, vars: seq<Var>)
    requires zeroes == Zeroes(|s| + 1)
    ensures Scan(s, 0, zeroes, 0, NoVal, vars) == QueryStored(s, vars)
  {
    hide Scan, Stored;
    ScanStores(s, 0, zeroes, vars);
    assert s[0..] == s;
  }

  /** strlen */
  method Length(query: array<char>, ghost s: CString) returns (length: nat)
    requires Unread(query, 0, 0, s)
    ensures length == |s|
  {
    length := 0;
    TerminatorFirst(query, 0, 0, 0, s);
    while query[length] != '\0'
      invariant length <= |s|
      invariant query[length] == '\0' <==> length == |s|
      decreases |s| - length
    {
      length := length + 1;
      TerminatorFirst(query, 0, 0, length, s);
    }
  }
}
