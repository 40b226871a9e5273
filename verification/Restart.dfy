/** Handing the client list from a running gateway to its successor. */
module Restart {
  import opened CText
  import opened ClientList
  import opened HandOver

  // ----- strsep -----

  /** The text at an address of the line buffer. */
  predicate Holds(b: string, p: nat, s: string) {
    && p + |s| < |b| && '\0' !in s && b[p + |s|] == '\0'
    && forall i :: 0 <= i < |s| ==> b[p + i] == s[i]
  }

  lemma HeldText(b: string, p: nat, s: string)
    requires Holds(b, p, s)
    ensures p <= |b| && CStr(b[p..]) == s
  {
    assert b[p..] == s + b[p + |s|..];
    CStrOf(s, b[p + |s|..]);
  }

  lemma HeldStays(before: string, b: string, p: nat, s: string)
    requires Holds(before, p, s) && |b| == |before| && forall i :: p <= i <= p + |s| ==> b[i] == before[i]
    ensures Holds(b, p, s)
  {
  }

  /** The text at p is cut at its first delimiter. */
  predicate IsCut(before: string, b: string, p: nat, delim: char, s: string) {
    && |b| == |before| && p + |s| < |b|
    && Holds(b, p, s[..Find(s, delim)])
    && (Find(s, delim) < |s| ==> Holds(b, p + Find(s, delim) + 1, s[Find(s, delim) + 1..]))
    && forall i :: 0 <= i < |b| && i != p + Find(s, delim) ==> b[i] == before[i]
  }

  /** Where strsep goes on. */
  function After(p: nat, delim: char, s: string): (ptr: Ptr) {
    if Find(s, delim) < |s| then To(p + Find(s, delim) + 1) else Null
  }

  lemma AfterIs(p: nat, delim: char, s: string)
    ensures After(p, delim, s) == if Find(s, delim) < |s| then To(p + Find(s, delim) + 1) else Null
  {
  }

  lemma CutIs(before: string, b: string, p: nat, delim: char, s: string)
    requires Holds(before, p, s)
    requires b == if Find(s, delim) < |s| then before[p + Find(s, delim) := '\0'] else before
    ensures IsCut(before, b, p, delim, s)
  {
    hide Find;
  }

  method StrSep(buffer: array<char>, p: nat, delim: char, ghost s: string) returns (running: Ptr)
    requires Holds(buffer[..], p, s) && delim != '\0'
    modifies buffer
    ensures IsCut(old(buffer[..]), buffer[..], p, delim, s) && running == After(p, delim, s)
  {
    hide Find, IsCut;
    ghost var e, before := Find(s, delim), buffer[..];
    var i: nat := p;
    while buffer[i] != '\0' && buffer[i] != delim
      invariant p <= i <= p + e
      decreases p + |s| - i
    {
      i := i + 1;
    }
    assert i < p + |s| ==> buffer[i] == s[i - p] && s[i - p] in s;
    if buffer[i] == '\0' {
      running := Null;
    } else {
      buffer[i] := '\0';
      running := To(i + 1);
    }
    CutIs(before, buffer[..], p, delim, s);
  }

  // ----- The parts of a field -----

  lemma ValueIs(t: string, k: nat)
    requires k < |t|
    ensures var rest := t[k + 1..]; ValuePart(rest) == rest[..Find(rest, '=')]
  {
  }

  /** How far the loop over the parts of a field has come: the key is cut off,
      then the value, and running goes on behind them. */
  predicate Phase(b: string, token1: nat, t: string, running: Ptr, key: Ptr, value: Ptr) {
    var k := Find(t, '=');
    if key.Null? then value.Null? && running == To(token1) && Holds(b, token1, t)
    else
      && key == To(token1) && Holds(b, token1, t[..k])
      && if value.Null? then
           running == After(token1, '=', t) && (k < |t| ==> Holds(b, token1 + k + 1, t[k + 1..]))
         else
           && k < |t| && value == To(token1 + k + 1) && Holds(b, token1 + k + 1, ValuePart(t[k + 1..]))
           && (running.To? ==>
                 && token1 + k + 1 + |ValuePart(t[k + 1..])| < running.at <= token1 + |t|
                 && Holds(b, running.at, t[running.at - token1..]))
  }

  lemma PhaseText(b: string, token1: nat, t: string, running: Ptr, key: Ptr, value: Ptr)
    requires Phase(b, token1, t, running, key, value) && running.To?
    ensures token1 <= running.at <= token1 + |t| && Holds(b, running.at, t[running.at - token1..])
  {
    hide Holds, Find, ValuePart;
    assert t[0..] == t;
  }

  lemma PhaseKey(before: string, b: string, token1: nat, t: string)
    requires IsCut(before, b, token1, '=', t)
    ensures Phase(b, token1, t, After(token1, '=', t), To(token1), Null)
  {
    hide Holds, Find, ValuePart;
  }

  lemma PhaseValue(before: string, b: string, token1: nat, t: string)
    requires Find(t, '=') < |t| && Holds(before, token1, t[..Find(t, '=')])
    requires IsCut(before, b, token1 + Find(t, '=') + 1, '=', t[Find(t, '=') + 1..])
    ensures var k := Find(t, '=');
            Phase(b, token1, t, After(token1 + k + 1, '=', t[k + 1..]), To(token1), To(token1 + k + 1))
  {
    hide Holds, Find, ValuePart;
    var k := Find(t, '=');
    var rest := t[k + 1..];
    ValueIs(t, k);
    HeldStays(before, b, token1, t[..k]);
    var e := Find(rest, '=');
    assert e < |rest| ==> rest[e + 1..] == t[k + 1 + e + 1..];
  }

  /** A cut leaves the texts before it alone. */
  lemma CutKeeps(before: string, b: string, p: nat, delim: char, s: string, q: nat, u: string)
    requires IsCut(before, b, p, delim, s) && Holds(before, q, u) && q + |u| < p
    ensures Holds(b, q, u)
  {
    hide Find;
  }

  lemma CutRest(before: string, b: string, p: nat, delim: char, s: string)
    requires IsCut(before, b, p, delim, s)
    ensures Holds(b, p, s[..Find(s, delim)])
    ensures Find(s, delim) < |s| ==> Holds(b, p + Find(s, delim) + 1, s[Find(s, delim) + 1..])
  {
    hide Find, Holds;
  }

  lemma ValueFacts(b: string, token1: nat, t: string, p: nat)
    requires Find(t, '=') < |t| && Phase(b, token1, t, To(p), To(token1), To(token1 + Find(t, '=') + 1))
    ensures var k := Find(t, '=');
            && Holds(b, token1, t[..k]) && Holds(b, token1 + k + 1, ValuePart(t[k + 1..]))
            && token1 + k + 1 + |ValuePart(t[k + 1..])| < p <= token1 + |t|
  {
    hide Holds, Find, ValuePart;
  }

  lemma ValueKept(b: string, token1: nat, t: string, running: Ptr)
    requires var k := Find(t, '=');
             && k < |t| && Holds(b, token1, t[..k]) && Holds(b, token1 + k + 1, ValuePart(t[k + 1..]))
             && (running.To? ==>
                   && token1 + k + 1 + |ValuePart(t[k + 1..])| < running.at <= token1 + |t|
                   && Holds(b, running.at, t[running.at - token1..]))
    ensures Phase(b, token1, t, running, To(token1), To(token1 + Find(t, '=') + 1))
  {
    hide Holds, Find, ValuePart;
  }

  lemma PhaseOther(before: string, b: string, token1: nat, t: string, p: nat)
    requires Find(t, '=') < |t|
    requires Phase(before, token1, t, To(p), To(token1), To(token1 + Find(t, '=') + 1))
    requires token1 <= p <= token1 + |t| && IsCut(before, b, p, '=', t[p - token1..])
    ensures Phase(b, token1, t, After(p, '=', t[p - token1..]), To(token1), To(token1 + Find(t, '=') + 1))
  {
    hide Holds, Find, ValuePart, Phase, IsCut;
    var k, rest := Find(t, '='), t[p - token1..];
    ValueFacts(before, token1, t, p);
    CutKeeps(before, b, p, '=', rest, token1, t[..k]);
    CutKeeps(before, b, p, '=', rest, token1 + k + 1, ValuePart(t[k + 1..]));
    CutRest(before, b, p, '=', rest);
    var e := Find(rest, '=');
    assert e < |rest| ==> rest[e + 1..] == t[p - token1 + e + 1..];
    ValueKept(b, token1, t, After(p, '=', rest));
  }

  predicate SameOutside(before: string, b: string, lo: nat, hi: nat) {
    |b| == |before| && forall i :: 0 <= i < |b| && !(lo <= i <= hi) ==> b[i] == before[i]
  }

  lemma CutInside(before: string, b: string, p: nat, delim: char, s: string, original: string, lo: nat, hi: nat)
    requires IsCut(before, b, p, delim, s) && SameOutside(original, before, lo, hi) && lo <= p && p + |s| <= hi
    ensures SameOutside(original, b, lo, hi)
  {
    hide Holds, Find;
  }

  /** What the phase becomes when the text at running is cut. */
  lemma NextPhase(before: string, b: string, token1: nat, t: string, p: nat, key: Ptr, value: Ptr)
    requires Phase(before, token1, t, To(p), key, value) && token1 <= p <= token1 + |t|
    requires IsCut(before, b, p, '=', t[p - token1..])
    ensures Phase(b, token1, t, After(p, '=', t[p - token1..]),
                  if key.Null? then To(p) else key, if key.To? && value.Null? then To(p) else value)
  {
    hide Holds, Find, ValuePart, IsCut;
    if key.Null? {
      assert t[0..] == t;
      PhaseKey(before, b, token1, t);
    } else if value.Null? {
      PhaseValue(before, b, token1, t);
    } else {
      PhaseOther(before, b, token1, t, p);
    }
  }

  /** The loop over the parts of one field: the first is the key, the second
      the value, the others are cut off and dropped. */
  method SplitField(buffer: array<char>, token1: nat, ghost t: string) returns (key: Ptr, value: Ptr)
    requires Holds(buffer[..], token1, t)
    modifies buffer
    ensures Phase(buffer[..], token1, t, Null, key, value) && key.To?
    ensures SameOutside(old(buffer[..]), buffer[..], token1, token1 + |t|)
  {
    hide Find, Holds, Phase, IsCut, SameOutside;
    ghost var original := buffer[..];
    var running2 := To(token1);
    key, value := Null, Null;
    FirstPhase(original, token1, t);
    while running2.To?
      invariant Phase(buffer[..], token1, t, running2, key, value) && (key.Null? ==> running2.To?)
      invariant running2.To? ==> token1 <= running2.at <= token1 + |t|
      invariant SameOutside(original, buffer[..], token1, token1 + |t|)
      decreases if running2.To? then 1 + token1 + |t| - running2.at else 0
    {
      var token2 := running2.at;
      ghost var before, rest := buffer[..], t[token2 - token1..];
      PhaseText(before, token1, t, running2, key, value);
      running2 := StrSep(buffer, token2, '=', rest);
      NextPhase(before, buffer[..], token1, t, token2, key, value);
      CutInside(before, buffer[..], token2, '=', rest, original, token1, token1 + |t|);
      if key.Null? {
        key := To(token2);
      } else if value.Null? {
        value := To(token2);
      }
    }
  }

  lemma FirstPhase(b: string, token1: nat, t: string)
    requires Holds(b, token1, t)
    ensures Phase(b, token1, t, To(token1), Null, Null) && SameOutside(b, b, token1, token1 + |t|)
  {
  }

  lemma PhaseDone(b: string, token1: nat, t: string, key: Ptr, value: Ptr)
    requires Phase(b, token1, t, Null, key, value) && key.To?
    ensures var k := Find(t, '=');
            && key == To(token1) && token1 <= |b| && CStr(b[token1..]) == t[..k]
            && value == (if k < |t| then To(token1 + k + 1) else Null)
            && (k < |t| ==> token1 + k + 1 <= |b| && CStr(b[token1 + k + 1..]) == ValuePart(t[k + 1..]))
  {
    hide Holds, Find, ValuePart, CStr;
    var k := Find(t, '=');
    HeldText(b, token1, t[..k]);
    if k < |t| {
      HeldText(b, token1 + k + 1, ValuePart(t[k + 1..]));
    }
  }

  lemma PhasePtrs(b: string, token1: nat, t: string, key: Ptr, value: Ptr)
    requires Phase(b, token1, t, Null, key, value) && key.To?
    ensures key == To(token1) && value == if Find(t, '=') < |t| then To(token1 + Find(t, '=') + 1) else Null
  {
    hide Holds, Find, ValuePart;
  }

  // ----- The fields of a line -----

  predicate InBuffer(p: Ptr) { p.To? ==> p.at < MAX_BUF }

  predicate AboutClient(command: string) { command == "CLIENT" }

  /** What a token does to the client once key and value are set. */
  function Taken(b: string, command: string, client: Got, key: Ptr, value: Ptr): (got: Got)
    requires |b| == MAX_BUF && InBuffer(key) && InBuffer(value)
  {
    if !AboutClient(command) then client
    else
      var c := if client.NoClient? then Cleared() else client.c;
      Got(if key.To? && value.To? then Assign(c, CStr(b[key.at..]), CStr(b[value.at..])) else c)
  }

  function GotOf(client: TClient?): (got: Got)
    reads if client == null then {} else {client}
  {
    if client == null then NoClient else Got(client.c)
  }

  method TakeToken(buffer: array<char>, command: nat, client: TClient?, key: Ptr, value: Ptr) returns (r: TClient?)
    requires buffer.Length == MAX_BUF && InBuffer(key) && InBuffer(value) && command < MAX_BUF
    requires !AboutClient(CStr(buffer[command..])) ==> client == null
    modifies if client == null then {} else {client}
    ensures GotOf(r) == Taken(buffer[..], CStr(buffer[command..]), old(GotOf(client)), key, value)
    ensures r == client || fresh(r)
    ensures buffer[..] == old(buffer[..])
  {
    hide Assign, CStr;
    r := client;
    var name := Text(buffer, command);
    if name == "CLIENT" {
      if r == null {
        r := new TClient(Cleared());
      }
    }
    if key.To? && value.To? && r != null {
      if name == "CLIENT" {
        var k := Text(buffer, key.at);
        var v := Text(buffer, value.at);
        r.c := Assign(r.c, k, v);
      }
    }
    assert key.To? ==> buffer[..][key.at..] == buffer[key.at..];
    assert value.To? ==> buffer[..][value.at..] == buffer[value.at..];
  }

  /** The state of the loop over the fields of a line: what is still to come
      completes the client and the pointers. */
  predicate Parsing(b: string, line: string, key0: Ptr, value0: Ptr, running: Ptr, started: bool, client: Got,
                    key: Ptr, value: Ptr)
    requires |line| < MAX_BUF
  {
    var command := line[..Find(line, '|')];
    && |b| == MAX_BUF && InBuffer(key) && InBuffer(value)
    && if !started then
         running == To(0) && client == NoClient && (key, value) == (key0, value0)
         && b == line + Zeroes(MAX_BUF - |line|)
       else
         && Holds(b, 0, command) && (client.NoClient? <==> !AboutClient(command))
         && if running.Null? then
              client == LineClient(line, key0, value0) && (key, value) == LinePtrs(line, key0, value0)
            else
              && running.at <= |line| && Holds(b, running.at, line[running.at..]) && |command| < running.at
              && (client.Got? ==> LineClient(line, key0, value0) == Got(Fields(client.c, line[running.at..])))
              && (client.NoClient? ==> LineClient(line, key0, value0) == NoClient)
              && LinePtrs(line, key0, value0) == FieldPtrs(line[running.at..], running.at)
  }

  lemma WholeHeld(line: string)
    requires OneLine(line) && |line| < MAX_BUF
    ensures Holds(line + Zeroes(MAX_BUF - |line|), 0, line)
  {
  }

  lemma CutIsFirst(line: string, b: string)
    requires OneLine(line) && |line| < MAX_BUF && IsCut(line + Zeroes(MAX_BUF - |line|), b, 0, '|', line)
    ensures b == FirstCut(line)
  {
    hide Find;
    var z := Zeroes(MAX_BUF - |line|);
    var e := Find(line, '|');
    assert forall i :: 0 <= i < |b| && i != e ==> b[i] == (line + z)[i];
    assert b[e] == '\0';
    assert e == |line| ==> (line + z)[e] == '\0';
  }

  /** The command has been read. */
  lemma FirstDone(line: string, b: string, key: Ptr, value: Ptr)
    requires OneLine(line) && |line| < MAX_BUF && InBuffer(key) && InBuffer(value)
    requires IsCut(line + Zeroes(MAX_BUF - |line|), b, 0, '|', line)
    ensures var command := line[..Find(line, '|')];
            && Parsing(b, line, key, value, After(0, '|', line), true,
                       Taken(b, command, NoClient, key, value), key, value)
            && CStr(b[0..]) == command
  {
    hide Find, Holds, Assign, CStr, FieldPtrs, Fields, FirstCut, Zeroes, IsCut;
    CutIsFirst(line, b);
    CutHolds(line, b);
    HeldText(b, 0, line[..Find(line, '|')]);
  }

  lemma CutHolds(line: string, b: string)
    requires OneLine(line) && |line| < MAX_BUF
    requires IsCut(line + Zeroes(MAX_BUF - |line|), b, 0, '|', line)
    ensures var e := Find(line, '|');
            |b| == MAX_BUF && Holds(b, 0, line[..e]) && (e < |line| ==> Holds(b, e + 1, line[e + 1..]))
  {
    hide Find, Zeroes, Holds;
  }

  lemma FieldsUnfold(c: Client, s: string, base: nat)
    ensures var e := Find(s, '|'); var t := s[..e]; var k := Find(t, '=');
            && Fields(c, s) == (if e == |s| then Fielded(c, t) else Fields(Fielded(c, t), s[e + 1..]))
            && Fielded(c, t) == (if k == |t| then c else Assign(c, t[..k], ValuePart(t[k + 1..])))
            && FieldPtrs(s, base)
               == if e < |s| then FieldPtrs(s[e + 1..], base + e + 1)
                 else (To(base), if k < |t| then To(base + k + 1) else Null)
  {
    hide Assign, Find, ValuePart;
    var e := Find(s, '|');
    if e == |s| {
      assert s[..e] == s;
    }
  }

  lemma RestHeld(b: string, b2: string, token1: nat, s: string, e: nat)
    requires e < |s| && Holds(b, token1 + e + 1, s[e + 1..]) && SameOutside(b, b2, token1, token1 + e)
    ensures Holds(b2, token1 + e + 1, s[e + 1..])
  {
    HeldStays(b, b2, token1 + e + 1, s[e + 1..]);
  }

  lemma CommandHeld(b0: string, b: string, b2: string, command: string, token1: nat, s: string, e: nat)
    requires Holds(b0, 0, command) && |command| < token1 && e == Find(s, '|')
    requires IsCut(b0, b, token1, '|', s) && SameOutside(b, b2, token1, token1 + e)
    ensures Holds(b2, 0, command) && |b2| == |b0|
  {
    hide Find;
    HeldStays(b0, b, 0, command);
    HeldStays(b, b2, 0, command);
  }

  /** A field has been read. */
  lemma FieldDone(line: string, key0: Ptr, value0: Ptr, b0: string, b: string, b2: string, token1: nat, client: Got,
                  oldKey: Ptr, oldValue: Ptr, key: Ptr, value: Ptr)
    requires OneLine(line) && |line| < MAX_BUF && token1 <= |line|
    requires Parsing(b0, line, key0, value0, To(token1), true, client, oldKey, oldValue)
    requires var s := line[token1..]; var e := Find(s, '|');
             && IsCut(b0, b, token1, '|', s) && SameOutside(b, b2, token1, token1 + e)
             && Phase(b2, token1, s[..e], Null, key, value) && key.To?
    ensures var command := line[..Find(line, '|')];
            && |b2| == MAX_BUF && InBuffer(key) && InBuffer(value)
            && Parsing(b2, line, key0, value0, After(token1, '|', line[token1..]), true,
                       Taken(b2, command, client, key, value), key, value)
            && CStr(b2[0..]) == command
  {
    hide *;
    var s := line[token1..];
    var e := Find(s, '|');
    var t, command := s[..e], line[..Find(line, '|')];
    ParsingFacts(b0, line, key0, value0, token1, client, oldKey, oldValue);
    FieldHeld(b0, b, b2, command, token1, s);
    PhasePtrs(b2, token1, t, key, value);
    TakenField(b2, command, client, token1, t, key, value);
    FieldLeaves(client, s, token1, LineClient(line, key0, value0), LinePtrs(line, key0, value0), key, value);
    assert e < |s| ==> s[e + 1..] == line[token1 + e + 1..];
    AfterIs(token1, '|', s);
    ParsingNext(b2, line, key0, value0, After(token1, '|', s), Taken(b2, command, client, key, value), key, value);
  }

  lemma FieldHeld(b0: string, b: string, b2: string, command: string, token1: nat, s: string)
    requires Holds(b0, 0, command) && |command| < token1
    requires IsCut(b0, b, token1, '|', s) && SameOutside(b, b2, token1, token1 + Find(s, '|'))
    ensures Holds(b2, 0, command) && |b2| == |b0| && CStr(b2[0..]) == command
    ensures Find(s, '|') < |s| ==> Holds(b2, token1 + Find(s, '|') + 1, s[Find(s, '|') + 1..])
  {
    hide Find, Holds, CStr, IsCut, SameOutside;
    CommandHeld(b0, b, b2, command, token1, s, Find(s, '|'));
    HeldText(b2, 0, command);
    if Find(s, '|') < |s| {
      CutRest(b0, b, token1, '|', s);
      RestHeld(b, b2, token1, s, Find(s, '|'));
    }
  }

  /** What is still to come once the first field of s has been taken. */
  lemma FieldLeaves(client: Got, s: string, base: nat, result: Got, ptrs: (Ptr, Ptr), key: Ptr, value: Ptr)
    requires client.Got? ==> result == Got(Fields(client.c, s))
    requires client.NoClient? ==> result == NoClient
    requires ptrs == FieldPtrs(s, base)
    requires var t := s[..Find(s, '|')]; var k := Find(t, '=');
             key == To(base) && value == if k < |t| then To(base + k + 1) else Null
    ensures var e := Find(s, '|');
            var next := if client.Got? then Got(Fielded(client.c, s[..e])) else NoClient;
            && (e == |s| ==> next == result && ptrs == (key, value))
            && (e < |s| && next.Got? ==> result == Got(Fields(next.c, s[e + 1..])))
            && (e < |s| && next.NoClient? ==> result == NoClient)
            && (e < |s| ==> ptrs == FieldPtrs(s[e + 1..], base + e + 1))
  {
    hide Find, Assign, FieldPtrs, Fields, Fielded, ValuePart;
    FieldsUnfold(if client.Got? then client.c else Cleared(), s, base);
  }

  lemma ParsingFacts(b: string, line: string, key0: Ptr, value0: Ptr, at: nat, client: Got, key: Ptr, value: Ptr)
    requires |line| < MAX_BUF && Parsing(b, line, key0, value0, To(at), true, client, key, value)
    ensures var command := line[..Find(line, '|')];
            && |b| == MAX_BUF && Holds(b, 0, command) && (client.NoClient? <==> !AboutClient(command))
            && at <= |line| && |command| < at
            && (client.Got? ==> LineClient(line, key0, value0) == Got(Fields(client.c, line[at..])))
            && (client.NoClient? ==> LineClient(line, key0, value0) == NoClient)
            && LinePtrs(line, key0, value0) == FieldPtrs(line[at..], at)
  {
    hide Find, Holds, FieldPtrs, Fields, LineClient, LinePtrs;
  }

  lemma ParsingNext(b: string, line: string, key0: Ptr, value0: Ptr, running: Ptr, client: Got, key: Ptr, value: Ptr)
    requires |line| < MAX_BUF && |b| == MAX_BUF && InBuffer(key) && InBuffer(value)
    requires var command := line[..Find(line, '|')];
             && Holds(b, 0, command) && (client.NoClient? <==> !AboutClient(command))
             && (running.Null? ==>
                   client == LineClient(line, key0, value0) && (key, value) == LinePtrs(line, key0, value0))
             && (running.To? ==>
                   && running.at <= |line| && Holds(b, running.at, line[running.at..]) && |command| < running.at
                   && (client.Got? ==> LineClient(line, key0, value0) == Got(Fields(client.c, line[running.at..])))
                   && (client.NoClient? ==> LineClient(line, key0, value0) == NoClient)
                   && LinePtrs(line, key0, value0) == FieldPtrs(line[running.at..], running.at))
    ensures Parsing(b, line, key0, value0, running, true, client, key, value)
  {
    hide Find, Holds, FieldPtrs, Fields, LineClient, LinePtrs;
  }

  lemma TakenField(b: string, command: string, client: Got, token1: nat, t: string, key: Ptr, value: Ptr)
    requires |b| == MAX_BUF && Phase(b, token1, t, Null, key, value) && key.To? && token1 + |t| < MAX_BUF
    requires client.NoClient? <==> !AboutClient(command)
    ensures InBuffer(key) && InBuffer(value)
    ensures Taken(b, command, client, key, value) == if client.Got? then Got(Fielded(client.c, t)) else NoClient
  {
    hide Find, Holds, Assign, CStr, ValuePart, Phase;
    PhaseDone(b, token1, t, key, value);
  }

  lemma ParseStart(b: string, line: string, key: Ptr, value: Ptr)
    requires |line| < MAX_BUF && b == line + Zeroes(MAX_BUF - |line|) && InBuffer(key) && InBuffer(value)
    ensures Parsing(b, line, key, value, To(0), false, NoClient, key, value)
  {
    hide Find, Holds;
  }

  lemma ParseFacts(b: string, line: string, key0: Ptr, value0: Ptr, running: Ptr, started: bool, client: Got,
                   key: Ptr, value: Ptr)
    requires OneLine(line) && |line| < MAX_BUF && Parsing(b, line, key0, value0, running, started, client, key, value)
    ensures !started ==> running == To(0) && client == NoClient && (key, value) == (key0, value0)
    ensures !started ==> b == line + Zeroes(MAX_BUF - |line|)
    ensures running.To? ==> running.at <= |line| && Holds(b, running.at, line[running.at..])
    ensures started ==> (client.NoClient? <==> !AboutClient(line[..Find(line, '|')]))
    ensures running.Null? ==> client == LineClient(line, key0, value0) && (key, value) == LinePtrs(line, key0, value0)
    ensures InBuffer(key) && InBuffer(value) && |b| == MAX_BUF
  {
    hide Find, Holds, LineClient, LinePtrs, FieldPtrs, Fields;
    WholeHeld(line);
    assert line[0..] == line;
  }

  /** A complete line: its client, if it is about one, and where it leaves the pointers. */
  method ParseLine(buffer: array<char>, ghost line: string, key0: Ptr, value0: Ptr)
    returns (client: TClient?, key: Ptr, value: Ptr)
    requires buffer.Length == MAX_BUF && |line| < MAX_BUF && OneLine(line)
    requires buffer[..] == line + Zeroes(MAX_BUF - |line|)
    requires InBuffer(key0) && InBuffer(value0)
    modifies buffer
    ensures client != null ==> fresh(client)
    ensures GotOf(client) == LineClient(line, key0, value0)
    ensures (key, value) == LinePtrs(line, key0, value0) && InBuffer(key) && InBuffer(value)
  {
    hide Find, Holds, Parsing, IsCut, SameOutside, Phase, Taken, CStr, LineClient, LinePtrs, InBuffer, Zeroes, OneLine;
    var running1, command := To(0), Null;
    client, key, value := null, key0, value0;
    ParseStart(buffer[..], line, key0, value0);
    while running1.To?
      invariant client != null ==> fresh(client)
      invariant command.To? ==> command.at == 0
      invariant Parsing(buffer[..], line, key0, value0, running1, command.To?, GotOf(client), key, value)
      decreases if running1.To? then 1 + |line| - running1.at else 0
    {
      var token1 := running1.at;
      ParseFacts(buffer[..], line, key0, value0, running1, command.To?, GotOf(client), key, value);
      ghost var b0, s, c0, oldKey, oldValue := buffer[..], line[token1..], GotOf(client), key, value;
      running1 := StrSep(buffer, token1, '|', s);
      ghost var b := buffer[..];
      if command.Null? {
        command := To(token1);
        assert line[0..] == line;
        FirstDone(line, b, key, value);
      } else {
        CutRest(b0, b, token1, '|', s);
        key, value := SplitField(buffer, token1, s[..Find(s, '|')]);
        FieldDone(line, key0, value0, b0, b, buffer[..], token1, c0, oldKey, oldValue, key, value);
      }
      assert buffer[..][0..] == buffer[0..];
      client := TakeToken(buffer, command.at, client, key, value);
      ParseFacts(buffer[..], line, key0, value0, running1, true, GotOf(client), key, value);
    }
    ParseFacts(buffer[..], line, key0, value0, running1, command.To?, GotOf(client), key, value);
  }

  /** memset(linebuffer, 0, …) */
  method Clear(buffer: array<char>)
    requires buffer.Length == MAX_BUF
    modifies buffer
    ensures buffer[..] == Zeroes(MAX_BUF)
  {
    var i := 0;
    while i < MAX_BUF
      invariant i <= MAX_BUF && forall j :: 0 <= j < i ==> buffer[j] == '\0'
    {
      buffer[i] := '\0';
      i := i + 1;
    }
  }

  lemma ReceivedStep(stream: string, i: nat, line: string, key: Ptr, value: Ptr, got: seq<Client>)
    requires i < |stream| && Fits(stream[i..], line)
    ensures |line| < MAX_BUF
    ensures !IsEnd(stream[i]) ==>
              && Fits(stream[i + 1..], line + [stream[i]])
              && Received(stream[i..], line, key, value, got)
                == Received(stream[i + 1..], line + [stream[i]], key, value, got)
    ensures IsEnd(stream[i]) ==>
              var p := LinePtrs(line, key, value);
              var one := LineClient(line, key, value);
              && Fits(stream[i + 1..], "")
              && Received(stream[i..], line, key, value, got)
                 == Received(stream[i + 1..], "", p.0, p.1, if one.Got? then [one.c] + got else got)
  {
    hide LinePtrs, LineClient;
    assert stream[i..][1..] == stream[i + 1..];
  }

  lemma BufferGrows(b: string, line: string, c: char)
    requires |line| < MAX_BUF - 1 && b == line + Zeroes(MAX_BUF - |line|)
    ensures b[|line| := c] == line + [c] + Zeroes(MAX_BUF - |line| - 1)
  {
  }

  lemma BufferEnds(b: string, line: string)
    requires |line| < MAX_BUF && b == line + Zeroes(MAX_BUF - |line|)
    ensures b[|line| := '\0'] == b
  {
  }

  /** A complete entry in the line buffer: it is parsed, its client inserted,
      and the buffer cleared. */
  method EndOfEntry(buffer: array<char>, ghost line: string, key0: Ptr, value0: Ptr, list: List)
    returns (key: Ptr, value: Ptr)
    requires buffer.Length == MAX_BUF && |line| < MAX_BUF && OneLine(line)
    requires buffer[..] == line + Zeroes(MAX_BUF - |line|) && InBuffer(key0) && InBuffer(value0)
    requires list.Valid() && list.clientId < ULLONG_MAX
    modifies buffer, list
    ensures buffer[..] == Zeroes(MAX_BUF)
    ensures (key, value) == LinePtrs(line, key0, value0) && InBuffer(key) && InBuffer(value)
    ensures list.Valid() && list.clientId <= old(list.clientId) + 1
    ensures var one := LineClient(line, key0, value0);
            list.Clients() == if one.Got? then [one.c] + old(list.Clients()) else old(list.Clients())
    ensures forall n :: n in list.nodes ==> n in old(list.nodes) || fresh(n)
  {
    hide Find, CStr, LineClient, LinePtrs, InBuffer, Zeroes, OneLine, List.Valid, List.Clients, List.Snap, Inserts;
    var client: TClient?;
    client, key, value := ParseLine(buffer, line, key0, value0);
    if client != null {
      list.Insert(client);
    }
    Clear(buffer);
  }

  /** get_clients_from_parent, once connected: every client line inserts its
      client at the head of the list. */
  method GetClients(stream: string, list: List)
    requires list.Valid() && Fits(stream, "") && list.clientId + |stream| <= ULLONG_MAX
    modifies list
    ensures list.Valid() && list.Clients() == Received(stream, "", Null, Null, old(list.Clients()))
    ensures forall n :: n in list.nodes ==> n in old(list.nodes) || fresh(n)
  {
    hide Find, CStr, LineClient, LinePtrs, InBuffer, Zeroes, OneLine, List.Valid, List.Clients, Fits, Received;
    var linebuffer := new char[MAX_BUF];
    Clear(linebuffer);
    var len, i: nat, key, value := 0, 0, Null, Null;
    ghost var line := "";
    StartOfStream(stream);
    ghost var before := list.Clients();
    while i < |stream|
      invariant i <= |stream| && len == |line| < MAX_BUF && OneLine(line)
      invariant linebuffer[..] == line + Zeroes(MAX_BUF - |line|)
      invariant InBuffer(key) && InBuffer(value) && Fits(stream[i..], line)
      invariant list.Valid() && list.clientId + |stream| - i <= ULLONG_MAX
      invariant Received(stream[i..], line, key, value, list.Clients()) == Received(stream, "", Null, Null, before)
      invariant forall n :: n in list.nodes ==> n in old(list.nodes) || fresh(n)
    {
      ReceivedStep(stream, i, line, key, value, list.Clients());
      var onechar := stream[i];
      if onechar == '\n' {
        onechar := '\0';
      }
      ghost var b := linebuffer[..];
      linebuffer[len] := onechar;
      len := len + 1;
      assert linebuffer[..] == b[|line| := onechar];
      if onechar == '\0' {
        BufferEnds(b, line);
        key, value := EndOfEntry(linebuffer, line, key, value, list);
        len, line := 0, "";
        assert "" + Zeroes(MAX_BUF) == Zeroes(MAX_BUF);
      } else {
        FitsLine(stream[i + 1..], line + [onechar]);
        BufferGrows(b, line, onechar);
        OneLineGrows(line, onechar);
        line := line + [onechar];
      }
      i := i + 1;
    }
    FinalState(stream, i, line, key, value, list.Clients());
  }

  lemma OneLineGrows(line: string, c: char)
    requires OneLine(line) && !IsEnd(c)
    ensures OneLine(line + [c])
  {
  }

  lemma FinalState(stream: string, i: nat, line: string, key: Ptr, value: Ptr, got: seq<Client>)
    requires i == |stream| && Fits(stream[i..], line)
    ensures Received(stream[i..], line, key, value, got) == got
  {
  }

  lemma StartOfStream(stream: string)
    ensures stream[0..] == stream && OneLine("") && InBuffer(Null) && Zeroes(MAX_BUF) == "" + Zeroes(MAX_BUF)
  {
  }

  // ----- wdctl_restart -----

  /** The connection to the successor: sent is what has been accepted, answers
      what the following calls of write return. */
  class Socket {
    var sent: string
    var answers: seq<int>

    /** write: -1, or a number of octets that were taken. */
    method Write(text: string) returns (retval: int)
      requires text != "" && answers != [] && (answers[0] == -1 || answers[0] > 0)
      modifies this
      ensures answers == old(answers)[1..] && (retval == -1 <==> old(answers)[0] == -1)
      ensures retval != -1 ==> 0 < retval <= |text| && sent == old(sent) + text[..retval]
      ensures retval == -1 ==> sent == old(sent)
    {
      retval := if answers[0] > |text| then |text| else answers[0];
      answers := answers[1..];
      if retval != -1 {
        sent := sent + text[..retval];
      }
    }
  }

  predicate Answering(answers: seq<int>, n: nat) {
    |answers| >= n && forall i :: 0 <= i < |answers| ==> answers[i] == -1 || answers[i] > 0
  }

  /** How many of the writes fail. */
  function Failures(answers: seq<int>): (n: nat) {
    if answers == [] then 0 else (if answers[0] == -1 then 1 else 0) + Failures(answers[1..])
  }

  /** write_to_socket */
  method WriteToSocket(fd: Socket, text: string) returns (ok: bool)
    requires Answering(fd.answers, |text|)
    modifies fd
    ensures Answering(fd.answers, |old(fd.answers)| - |text|)
    ensures -1 !in old(fd.answers) ==> ok && -1 !in fd.answers
    ensures ok ==> fd.sent == old(fd.sent) + text
    ensures !ok ==> exists k :: 0 <= k < |text| && fd.sent == old(fd.sent) + text[..k]
    ensures Failures(old(fd.answers)) == Failures(fd.answers) + if ok then 0 else 1
  {
    var written: nat := 0;
    while written < |text|
      invariant written <= |text| && Answering(fd.answers, |old(fd.answers)| - written)
      invariant -1 !in old(fd.answers) ==> -1 !in fd.answers
      invariant Failures(fd.answers) == Failures(old(fd.answers))
      invariant fd.sent == old(fd.sent) + text[..written]
    {
      var retval := fd.Write(text[written..]);
      if retval == -1 {
        return false;
      }
      assert text[..written + retval] == text[..written] + text[written..][..retval];
      written := written + retval;
    }
    assert text[..written] == text;
    return true;
  }

  function TextOf(c: Client): (text: string) { Line(c) + "\n" }

  function Together(parts: seq<string>): (text: string) {
    if parts == [] then "" else Together(parts[..|parts| - 1]) + parts[|parts| - 1]
  }

  /** What may arrive of the clients' texts: a start of each. */
  predicate Starts(parts: seq<string>, cs: seq<Client>) {
    |parts| <= |cs| && forall i :: 0 <= i < |parts| ==> parts[i] <= TextOf(cs[i])
  }

  /** How many of the texts did not arrive whole. */
  function Cut(parts: seq<string>, cs: seq<Client>): (n: nat)
    requires Starts(parts, cs)
  {
    if parts == [] then 0 else
      var last := |parts| - 1;
      Cut(parts[..last], cs) + if parts[last] == TextOf(cs[last]) then 0 else 1
  }

  lemma OneMore(parts: seq<string>, part: string, cs: seq<Client>)
    requires Starts(parts, cs) && |parts| < |cs| && part <= TextOf(cs[|parts|])
    ensures Starts(parts + [part], cs) && Together(parts + [part]) == Together(parts) + part
    ensures Cut(parts + [part], cs) == Cut(parts, cs) + if part == TextOf(cs[|parts|]) then 0 else 1
  {
    hide Line;
    assert (parts + [part])[..|parts|] == parts;
  }

  /** The part of a text that a call of WriteToSocket has sent. */
  lemma PartOf(before: string, after: string, text: string, ok: bool) returns (part: string)
    requires ok ==> after == before + text
    requires !ok ==> exists k :: 0 <= k < |text| && after == before + text[..k]
    ensures part <= text && after == before + part && (ok <==> part == text)
  {
    part := after[|before|..];
  }

  /** The printing loop of wdctl_restart. A failed write is not handled: of that
      client a start is sent, and the loop goes on with the next. */
  method SendClients(list: List, fd: Socket) returns (ghost parts: seq<string>)
    requires list.Valid() && Answering(fd.answers, |PrintedAll(list.Clients())|)
    modifies fd
    ensures Starts(parts, list.Clients()) && |parts| == |list.Clients()|
    ensures fd.sent == old(fd.sent) + Together(parts)
    ensures Cut(parts, list.Clients()) == Failures(old(fd.answers)) - Failures(fd.answers)
    ensures -1 !in old(fd.answers) ==> fd.sent == old(fd.sent) + PrintedAll(list.Clients())
  {
    hide Line, TextOf, PrintedAll, List.Valid, List.Clients, Answering, Together, Cut, Failures;
    ListStart(list);
    parts := [];
    NothingSent(list.Clients());
    var client := list.firstclient;
    ghost var i: nat, cs := 0, list.Clients();
    assert cs[0..] == cs;
    while client != null
      invariant i <= |list.nodes| && client == At(list.nodes, i) && list.Valid() && cs == list.Clients()
      invariant |cs| == |list.nodes| && Answering(fd.answers, |PrintedAll(cs[i..])|)
      invariant |parts| == i && Starts(parts, cs) && fd.sent == old(fd.sent) + Together(parts)
      invariant Cut(parts, cs) == Failures(old(fd.answers)) - Failures(fd.answers)
      invariant -1 !in old(fd.answers) ==>
                  -1 !in fd.answers && fd.sent + PrintedAll(cs[i..]) == old(fd.sent) + PrintedAll(cs)
      decreases |list.nodes| - i
    {
      ListAt(list, i);
      PrintedStep(cs, i);
      Fewer(fd.answers, |PrintedAll(cs[i..])|, |TextOf(cs[i])|);
      ghost var sent, rest := fd.sent, PrintedAll(cs[i + 1..]);
      var tempstring := TextOf(client.c);
      var ok := WriteToSocket(fd, tempstring);
      Fewer(fd.answers, |fd.answers|, |rest|);
      assert sent + tempstring + rest == sent + (tempstring + rest);
      ghost var part := PartOf(sent, fd.sent, tempstring, ok);
      OneMore(parts, part, cs);
      parts := parts + [part];
      client, i := client.next, i + 1;
    }
    assert cs[i..] == [];
    PrintedNone();
    assert fd.sent + "" == fd.sent;
  }

  lemma NothingSent(cs: seq<Client>)
    ensures Starts([], cs) && Together([]) == "" && Cut([], cs) == 0
  {
  }

  lemma PrintedNone()
    ensures PrintedAll([]) == ""
  {
  }

  lemma Fewer(answers: seq<int>, n: nat, m: nat)
    requires Answering(answers, n) && m <= n
    ensures Answering(answers, m) && |answers| >= n
  {
  }

  lemma PrintedStep(cs: seq<Client>, i: nat)
    requires i < |cs|
    ensures PrintedAll(cs[i..]) == TextOf(cs[i]) + PrintedAll(cs[i + 1..])
  {
    hide Line;
    assert cs[i..][1..] == cs[i + 1..];
  }

  lemma ListStart(list: List)
    requires list.Valid()
    ensures list.firstclient == At(list.nodes, 0) && |list.Clients()| == |list.nodes|
  {
  }

  lemma ListAt(list: List, i: nat)
    requires list.Valid() && i < |list.nodes|
    ensures |list.Clients()| == |list.nodes| && list.nodes[i].c == list.Clients()[i]
    ensures list.nodes[i].next == At(list.nodes, i + 1)
  {
  }

  /** The whole hand-over: when every write is taken, the successor's list
      starts with what each client becomes, in reverse order. */
  method HandOverClients(parent: List, child: List, fd: Socket)
    requires parent.Valid() && child.Valid() && parent != child
    requires forall i :: 0 <= i < |parent.Clients()| ==> Clean(parent.Clients()[i])
    requires fd.sent == "" && Answering(fd.answers, |PrintedAll(parent.Clients())|) && -1 !in fd.answers
    requires child.clientId + |PrintedAll(parent.Clients())| <= ULLONG_MAX
    modifies fd, child
    ensures child.Valid() && child.Clients() == AllHanded(old(parent.Clients())) + old(child.Clients())
  {
    hide Clean, PrintedAll, List.Valid, List.Clients, Answering, Received, Fits, Handed;
    ghost var cs := parent.Clients();
    ghost var parts := SendClients(parent, fd);
    assert "" + PrintedAll(cs) == PrintedAll(cs);
    HandOverRoundTrip(cs, Null, Null, child.Clients());
    GetClients(fd.sent, child);
  }
}
